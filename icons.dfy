/** The KeePass standard-icon table of app/utils/keepassIconMapping.ts and its lookup. */
module KeePassIcons {
  import opened Wrappers

  /** `KEEPASS_ICON_MAP[i]`: the icon name for each KeePass standard-icon index 0..68, and
      `undefined` for every other key. */
  function KeePassIconMap(i: int): (r: Option<string>)
    ensures r.Some? ==> 0 <= i <= 68
  {
    match i
    case 0 => Some("mdi:key")
    case 1 => Some("streamline:web")
    case 2 => Some("mdi:alert-outline")
    case 3 => Some("mdi:server")
    case 4 => Some("mdi:clipboard-outline")
    case 5 => Some("mdi:file-document-outline")
    case 6 => Some("mdi:folder")
    case 7 => Some("mdi:folder-outline")
    case 8 => Some("mdi:note-outline")
    case 9 => Some("pepicons-pop:smartphone-home-button")
    case 10 => Some("mdi:email-outline")
    case 11 => Some("mdi:cog-outline")
    case 12 => Some("mdi:notebook-outline")
    case 13 => Some("proicons:wi-fi")
    case 14 => Some("mdi:certificate-outline")
    case 15 => Some("mdi:console")
    case 16 => Some("mdi:console")
    case 17 => Some("mdi:printer-outline")
    case 18 => Some("mdi:image-outline")
    case 19 => Some("mdi:penguin")
    case 20 => Some("mdi:apple")
    case 21 => Some("mdi:wikipedia")
    case 22 => Some("mdi:currency-usd")
    case 23 => Some("mdi:certificate-outline")
    case 24 => Some("pepicons-pop:smartphone-home-button")
    case 25 => Some("mdi:harddisk")
    case 26 => Some("mdi:harddisk")
    case 27 => Some("mdi:camera-outline")
    case 28 => Some("mdi:flash-outline")
    case 29 => Some("fe:mail")
    case 30 => Some("mdi:cog-outline")
    case 31 => Some("mdi:calendar-outline")
    case 32 => Some("mdi:code-tags")
    case 33 => Some("meteor-icons:star")
    case 34 => Some("mdi:pencil-outline")
    case 35 => Some("mdi:trash-can-outline")
    case 36 => Some("mdi:note-outline")
    case 37 => Some("mdi:bell-outline")
    case 38 => Some("mdi:trash-can-outline")
    case 39 => Some("mdi:folder")
    case 40 => Some("mdi:folder-outline")
    case 41 => Some("mdi:folder")
    case 42 => Some("mdi:folder-outline")
    case 43 => Some("mdi:folder-zip-outline")
    case 44 => Some("mdi:lock-open-outline")
    case 45 => Some("mdi:lock-outline")
    case 46 => Some("mdi:check")
    case 47 => Some("mdi:draw")
    case 48 => Some("mdi:image-multiple-outline")
    case 49 => Some("mdi:book-outline")
    case 50 => Some("mdi:file-document-edit-outline")
    case 51 => Some("mdi:package-variant")
    case 52 => Some("mdi:home-outline")
    case 53 => Some("mdi:penguin")
    case 54 => Some("mdi:feather")
    case 55 => Some("mdi:apple")
    case 56 => Some("mdi:wikipedia")
    case 57 => Some("mdi:cash")
    case 58 => Some("mdi:certificate-outline")
    case 59 => Some("pepicons-pop:smartphone-home-button")
    case 60 => Some("fe:rocket")
    case 61 => Some("proicons:wrench")
    case 62 => Some("streamline:web")
    case 63 => Some("mdi:archive-outline")
    case 64 => Some("mdi:percent-outline")
    case 65 => Some("mdi:server-off")
    case 66 => Some("mdi:history")
    case 67 => Some("mdi:email-search-outline")
    case 68 => Some("mdi:vector-square")
    case _ => None
  }

  /** `getIconForKeePassIndex(iconIndex)`: null for a null or undefined index, otherwise the
      table's entry, or null when the index has none (`|| null` also maps an empty name to
      null). The index is a JavaScript number: only an integral one names a property of the
      table. */
  function GetIconForKeePassIndex(iconIndex: Option<real>): (r: Option<string>)
    ensures iconIndex.None? ==> r.None?
    ensures r.Some? ==> iconIndex.Some? && iconIndex.value == iconIndex.value.Floor as real
    ensures r.Some? ==> KeePassIconMap(iconIndex.value.Floor) == r && r.value != ""
  {
    match iconIndex
    case None => None
    case Some(x) =>
      if x != x.Floor as real then None
      else
        var entry := KeePassIconMap(x.Floor);
        if entry.Some? && entry.value != "" then entry else None
  }

  /** The table covers exactly the indexes 0..68, each with a non-empty name. */
  lemma TableCoversStandardIcons(i: int)
    ensures KeePassIconMap(i).Some? <==> 0 <= i <= 68
    ensures KeePassIconMap(i).Some? ==> KeePassIconMap(i).value != ""
  {
    if i < 0 || i > 68 {
    } else if i < 10 {
    } else if i < 20 {
    } else if i < 30 {
    } else if i < 40 {
    } else if i < 50 {
    } else if i < 60 {
    } else {
    }
  }

  /** Every standard index yields its table entry; every other index yields null. */
  lemma LookupDefined(i: int)
    ensures 0 <= i <= 68 ==> GetIconForKeePassIndex(Some(i as real)) == KeePassIconMap(i) && KeePassIconMap(i).Some?
    ensures !(0 <= i <= 68) ==> GetIconForKeePassIndex(Some(i as real)).None?
  {
    assert (i as real).Floor == i;
    TableCoversStandardIcons(i);
  }

  /** A number with a fractional part names no property of the table. */
  lemma NonIntegralIndex(x: real)
    requires x.Floor as real != x
    ensures GetIconForKeePassIndex(Some(x)).None?
    ensures GetIconForKeePassIndex(Some(0.5)).None? && GetIconForKeePassIndex(Some(35.5)).None?
  {
  }

  /** Some entries of the table. */
  lemma SampleIcons()
    ensures GetIconForKeePassIndex(Some(0.0)) == Some("mdi:key")
    ensures GetIconForKeePassIndex(Some(35.0)) == Some("mdi:trash-can-outline")
    ensures GetIconForKeePassIndex(Some(69.0)).None? && GetIconForKeePassIndex(Some(-1.0)).None?
  {
  }

  /** The lookup is not injective: two pairs of indexes share an icon. */
  lemma NotInjective()
    ensures GetIconForKeePassIndex(Some(15.0)) == GetIconForKeePassIndex(Some(16.0)) == Some("mdi:console")
    ensures GetIconForKeePassIndex(Some(35.0)) == GetIconForKeePassIndex(Some(38.0)) == Some("mdi:trash-can-outline")
  {
  }
}
