/** The content-addressed binary store of app/utils/cleanup.ts: binaries are keyed by the
    SHA-256 digest of their bytes, rendered as lower-case hex; a binary is added only once per
    hash, and the binaries no binding row refers to any more are collected. The digest
    itself and `atob` are parameters of the model. */
module Cleanup {
  import opened Wrappers
  import opened Schema
  import opened Tables
  import opened Hex

  /** An element of a `Uint8Array`. */
  type Byte = b: int | 0 <= b < 256

  /** What `calculateBinaryHashAsync` accepts: a base64 string or the bytes themselves. */
  datatype BinaryData = Base64(text: string) | Bytes(bytes: seq<Byte>)

  /** The error `atob` throws on a string that is not base64. */
  const InvalidCharacter := "InvalidCharacterError"

  // ---------------------------------------------------------------------------
  // Hashing
  // ---------------------------------------------------------------------------

  /** The bytes a `Uint8Array` holds after `bytes[i] = s.charCodeAt(i)` for every `i`: one
      byte per character, the character code taken modulo 256 as a `Uint8Array` stores it. */
  function CharCodes(s: string): (r: seq<Byte>)
    ensures |r| == |s|
    ensures forall i :: 0 <= i < |s| && s[i] as int < 256 ==> r[i] == s[i] as int
  {
    seq(|s|, i requires 0 <= i < |s| => (s[i] as int) % 256)
  }

  /** The bytes that are hashed: the decoded base64 string, or a copy of the given bytes. */
  function Decoded(data: BinaryData, atob: string -> Option<string>): (r: Outcome<seq<Byte>>)
    ensures data.Bytes? ==> r == Returned(data.bytes)
    ensures data.Base64? && atob(data.text).Some? ==> r.Returned? && |r.value| == |atob(data.text).value|
    ensures r.Threw? <==> data.Base64? && atob(data.text).None?
  {
    match data
    case Bytes(b) => Returned(b)
    case Base64(text) =>
      match atob(text)
      case None => Threw(InvalidCharacter)
      case Some(binaryString) => Returned(CharCodes(binaryString))
  }

  /** `hashArray.map((b) => b.toString(16).padStart(2, "0")).join("")`. */
  function HexOf(bs: seq<Byte>): (r: string)
    ensures |r| == 2 * |bs|
  {
    if bs == [] then "" else ByteToHex(bs[0]) + HexOf(bs[1..])
  }

  /** Each byte renders as two lower-case hex digits. */
  lemma {:induction false} HexOfShape(bs: seq<Byte>)
    ensures |HexOf(bs)| == 2 * |bs|
    ensures AllLowerHex(HexOf(bs)) && AllHex(HexOf(bs))
  {
    if bs != [] {
      var p, rest := ByteToHex(bs[0]), HexOf(bs[1..]);
      ByteToHexExact(bs[0]);
      HexOfShape(bs[1..]);
      assert HexOf(bs) == p + rest;
      LowerHexConcat(p, rest);
    }
  }

  lemma LowerHexConcat(a: string, b: string)
    requires AllLowerHex(a) && AllLowerHex(b)
    ensures AllLowerHex(a + b) && AllHex(a + b)
  {
  }

  /** The value of two hex digits, as `parseInt(_, 16)` reads them. */
  function PairValue(a: char, b: char): Byte
    requires IsHexDigit(a) && IsHexDigit(b)
  {
    DigitValue(a) * 16 + DigitValue(b)
  }

  /** Reading a hex rendering back into bytes, two digits per byte. */
  function ParseHex(s: string): (r: seq<Byte>)
    requires |s| % 2 == 0 && AllHex(s)
    ensures |r| * 2 == |s|
  {
    if s == [] then [] else [PairValue(s[0], s[1])] + ParseHex(s[2..])
  }

  /** Reading two digits followed by more digits reads the pair, then the rest. */
  lemma ParseHexCons(h: string, t: string)
    requires |h| == 2 && AllHex(h) && |t| % 2 == 0 && AllHex(t)
    ensures |h + t| % 2 == 0 && AllHex(h + t)
    ensures ParseHex(h + t) == [PairValue(h[0], h[1])] + ParseHex(t)
  {
    var s := h + t;
    assert s[0] == h[0] && s[1] == h[1] && s[2..] == t;
  }

  /** The two digits a byte renders as read back as the byte. */
  lemma PairOfByte(b: Byte)
    ensures |ByteToHex(b)| == 2 && AllHex(ByteToHex(b))
    ensures PairValue(ByteToHex(b)[0], ByteToHex(b)[1]) == b
  {
    ByteToHexExact(b);
    PairValueOf(ByteToHex(b));
  }

  /** Two hex digits read as a pair denote what they denote as a string. */
  lemma PairValueOf(h: string)
    requires |h| == 2 && AllHex(h)
    ensures PairValue(h[0], h[1]) == HexValue(h)
  {
    assert h[..1][..0] == [];
    assert HexValue(h[..1]) == DigitValue(h[0]);
  }

  /** Reading the hex rendering back gives the bytes: the rendering loses nothing. */
  lemma {:induction false} ParseHexOf(bs: seq<Byte>)
    ensures |HexOf(bs)| == 2 * |bs| && |HexOf(bs)| % 2 == 0 && AllHex(HexOf(bs))
    ensures ParseHex(HexOf(bs)) == bs
  {
    DoubleIsEven(|bs|);
    if bs != [] {
      ParseHexOf(bs[1..]);
      ParseHexOfStep(bs);
    }
  }

  /** The step of the round trip: the first byte's two digits in front of the rest. */
  lemma ParseHexOfStep(bs: seq<Byte>)
    requires bs != []
    requires |HexOf(bs[1..])| % 2 == 0 && AllHex(HexOf(bs[1..]))
    requires ParseHex(HexOf(bs[1..])) == bs[1..]
    ensures |HexOf(bs)| % 2 == 0 && AllHex(HexOf(bs))
    ensures ParseHex(HexOf(bs)) == bs
  {
    var h, t := ByteToHex(bs[0]), HexOf(bs[1..]);
    DoubleIsEven(|bs|);
    PairOfByte(bs[0]);
    ParseHexStep(h, bs[0], bs[1..], t);
    assert HexOf(bs) == h + t;
    assert bs == [bs[0]] + bs[1..];
  }

  lemma DoubleIsEven(k: nat)
    ensures (2 * k) % 2 == 0
  {
  }

  /** One step of the round trip: two digits that read as `b`, in front of digits that read
      as `rest`, read as `b` in front of `rest`. */
  lemma ParseHexStep(h: string, b: Byte, rest: seq<Byte>, t: string)
    requires |h| == 2 && AllHex(h) && PairValue(h[0], h[1]) == b
    requires |t| % 2 == 0 && AllHex(t) && ParseHex(t) == rest
    ensures |h + t| == |t| + 2 && AllHex(h + t)
    ensures ParseHex(h + t) == [b] + rest
  {
    ParseHexCons(h, t);
  }

  /** Different digests render differently. */
  lemma HexOfInjective(a: seq<Byte>, b: seq<Byte>)
    requires HexOf(a) == HexOf(b)
    ensures a == b
  {
    ParseHexOf(a);
    ParseHexOf(b);
  }

  /** What `calculateBinaryHashAsync` resolves with, or the error it rejects with. */
  function HashHex(data: BinaryData, atob: string -> Option<string>, digest: seq<Byte> -> seq<Byte>): (r: Outcome<string>)
    ensures r.Threw? <==> Decoded(data, atob).Threw?
  {
    match Decoded(data, atob)
    case Threw(e) => Threw(e)
    case Returned(bytes) => Returned(HexOf(digest(bytes)))
  }

  /** With a 32-byte digest, as SHA-256 produces, the hash is 64 lower-case hex digits, and
      it determines the digest of the data. */
  lemma HashShape(data: BinaryData, atob: string -> Option<string>, digest: seq<Byte> -> seq<Byte>)
    requires forall bs :: |digest(bs)| == 32
    ensures HashHex(data, atob, digest).Returned? <==> Decoded(data, atob).Returned?
    ensures HashHex(data, atob, digest).Returned? ==>
      (|HashHex(data, atob, digest).value| == 64 && AllLowerHex(HashHex(data, atob, digest).value) &&
       AllHex(HashHex(data, atob, digest).value) &&
       ParseHex(HashHex(data, atob, digest).value) == digest(Decoded(data, atob).value))
  {
    if Decoded(data, atob).Returned? {
      HexOfShape(digest(Decoded(data, atob).value));
      ParseHexOf(digest(Decoded(data, atob).value));
    }
  }

  /** `calculateBinaryHashAsync(data)`: a string is decoded with `atob` and copied into a
      `Uint8Array` one character code at a time; bytes are copied; the digest of the bytes
      is rendered as hex. */
  method CalculateBinaryHash(data: BinaryData, atob: string -> Option<string>, digest: seq<Byte> -> seq<Byte>)
    returns (r: Outcome<string>)
    ensures r == HashHex(data, atob, digest)
  {
    var bytes: array<Byte>;
    match data {
      case Base64(text) =>
        var decoded := atob(text);
        if decoded.None? {
          return Threw(InvalidCharacter);
        }
        var binaryString := decoded.value;
        bytes := new Byte[|binaryString|];
        var i := 0;
        while i < |binaryString|
          invariant 0 <= i <= bytes.Length == |binaryString|
          invariant bytes[..i] == CharCodes(binaryString)[..i]
        {
          bytes[i] := (binaryString[i] as int) % 256;
          i := i + 1;
        }
        assert bytes[..] == CharCodes(binaryString);
      case Bytes(b) =>
        bytes := new Byte[|b|](i requires 0 <= i < |b| => b[i]);
        assert bytes[..] == b;
    }
    var hashBuffer := digest(bytes[..]);
    r := Returned(HexOf(hashBuffer));
  }

  // ---------------------------------------------------------------------------
  // The binaries table and its two binding tables
  // ---------------------------------------------------------------------------

  /** The hashes some item attachment or some snapshot attachment refers to. */
  function ReferencedHashes(ib: seq<ItemBinaryRow>, sb: seq<SnapshotBinaryRow>): (r: set<string>)
    ensures forall x :: x in ib ==> x.binaryHash in r
    ensures forall y :: y in sb ==> y.binaryHash in r
  {
    (set r | r in ib :: r.binaryHash) + (set r | r in sb :: r.binaryHash)
  }

  /** `delete ... where notInArray(hash, refs)`: the binaries whose hash is referenced stay,
      in their order; the others go. */
  function KeepReferenced(bs: seq<BinaryRow>, refs: set<string>): (r: seq<BinaryRow>)
    ensures |r| <= |bs|
    ensures forall b :: b in r <==> b in bs && b.hash in refs
  {
    if bs == [] then []
    else (if bs[0].hash in refs then [bs[0]] else []) + KeepReferenced(bs[1..], refs)
  }

  /** Deleting binaries keeps the hash a primary key. */
  lemma {:induction false} KeepReferencedUnique(bs: seq<BinaryRow>, refs: set<string>)
    requires UniqueBy(bs, BinaryHash)
    ensures UniqueBy(KeepReferenced(bs, refs), BinaryHash)
  {
    if bs != [] {
      TailUnique(bs, BinaryHash);
      KeepReferencedUnique(bs[1..], refs);
      var rest := KeepReferenced(bs[1..], refs);
      if bs[0].hash in refs {
        forall y | y in rest ensures BinaryHash(y) != BinaryHash(bs[0]) {
          var j :| 0 <= j < |bs[1..]| && bs[1..][j] == y;
          assert bs[j + 1] == y;
        }
        ConsUnique(bs[0], rest, BinaryHash);
      }
    }
  }

  /** With no references at all, keeping the referenced binaries deletes every binary: the
      separate delete-all branch of the source does what the general branch would do. */
  lemma DeleteAllIsCleanup(bs: seq<BinaryRow>)
    ensures KeepReferenced(bs, {}) == []
  {
  }

  /** Collecting twice collects nothing more. */
  lemma {:induction false} KeepReferencedIdempotent(bs: seq<BinaryRow>, refs: set<string>)
    ensures KeepReferenced(KeepReferenced(bs, refs), refs) == KeepReferenced(bs, refs)
  {
    if bs != [] {
      KeepReferencedIdempotent(bs[1..], refs);
      var rest := KeepReferenced(bs[1..], refs);
      if bs[0].hash in refs {
        assert KeepReferenced(bs, refs) == [bs[0]] + rest;
        assert ([bs[0]] + rest)[1..] == rest;
      } else {
        assert KeepReferenced(bs, refs) == [] + rest == rest;
      }
    }
  }

  /** Adding a binary: the row goes in only when no row has its hash yet. */
  function AddedBinary(bs: seq<BinaryRow>, row: BinaryRow): (r: seq<BinaryRow>)
    requires UniqueBy(bs, BinaryHash)
    ensures UniqueBy(r, BinaryHash)
    ensures exists x :: x in r && x.hash == row.hash
    ensures forall x :: x in r <==> x in bs || (x == row && forall y :: y in bs ==> y.hash != row.hash)
  {
    if exists x :: x in bs && x.hash == row.hash then bs
    else
      AppendUnique(bs, BinaryHash, row);
      bs + [row]
  }

  /** A second add with the same hash changes nothing: the first row stays the only one. */
  lemma AddedBinaryTwice(bs: seq<BinaryRow>, first: BinaryRow, second: BinaryRow)
    requires UniqueBy(bs, BinaryHash) && first.hash == second.hash
    ensures AddedBinary(AddedBinary(bs, first), second) == AddedBinary(bs, first)
  {
    var once := AddedBinary(bs, first);
    var x :| x in once && x.hash == first.hash;
    assert x in once && x.hash == second.hash;
  }

  /** The binaries table and the two tables that bind binaries to items and snapshots. */
  class BinaryStore {
    var binaries: seq<BinaryRow>
    var itemBinaries: seq<ItemBinaryRow>
    var snapshotBinaries: seq<SnapshotBinaryRow>

    /** The hash is the binaries' primary key. */
    ghost predicate Valid()
      reads this
    {
      UniqueBy(binaries, BinaryHash)
    }

    constructor (bs: seq<BinaryRow>, ib: seq<ItemBinaryRow>, sb: seq<SnapshotBinaryRow>)
      requires UniqueBy(bs, BinaryHash)
      ensures Valid()
      ensures binaries == bs && itemBinaries == ib && snapshotBinaries == sb
    {
      binaries := bs;
      itemBinaries := ib;
      snapshotBinaries := sb;
    }
  }

  /** `cleanupOrphanedBinariesAsync(db)`: every binary whose hash no binding row refers to is
      deleted, and the number of deleted rows is returned. */
  method CleanupOrphanedBinaries(db: BinaryStore) returns (count: nat)
    requires db.Valid()
    modifies db
    ensures db.Valid()
    ensures db.itemBinaries == old(db.itemBinaries) && db.snapshotBinaries == old(db.snapshotBinaries)
    ensures db.binaries == KeepReferenced(old(db.binaries), ReferencedHashes(old(db.itemBinaries), old(db.snapshotBinaries)))
    ensures forall b :: b in db.binaries ==> b.hash in ReferencedHashes(db.itemBinaries, db.snapshotBinaries)
    ensures forall b :: b in old(db.binaries) && b.hash in ReferencedHashes(db.itemBinaries, db.snapshotBinaries) ==> b in db.binaries
    ensures count == |old(db.binaries)| - |db.binaries|
  {
    var referencedHashes := ReferencedHashes(db.itemBinaries, db.snapshotBinaries);
    if |referencedHashes| == 0 {
      DeleteAllIsCleanup(db.binaries);
      count := |db.binaries|;
      db.binaries := [];
      return;
    }
    var kept := KeepReferenced(db.binaries, referencedHashes);
    KeepReferencedUnique(db.binaries, referencedHashes);
    count := |db.binaries| - |kept|;
    db.binaries := kept;
  }

  /** `addBinaryAsync(db, data, size)`: the hash of the base64 `data` is computed, the row
      `{hash, data, size}` is inserted unless a binary with that hash exists, and the hash is
      returned. */
  method AddBinary(db: BinaryStore, data: string, size: int, atob: string -> Option<string>, digest: seq<Byte> -> seq<Byte>)
    returns (r: Outcome<string>)
    requires db.Valid()
    modifies db
    ensures db.Valid()
    ensures r == HashHex(Base64(data), atob, digest)
    ensures db.itemBinaries == old(db.itemBinaries) && db.snapshotBinaries == old(db.snapshotBinaries)
    ensures r.Threw? ==> db.binaries == old(db.binaries)
    ensures r.Returned? ==> db.binaries == AddedBinary(old(db.binaries), BinaryRow(r.value, data, size))
  {
    r := CalculateBinaryHash(Base64(data), atob, digest);
    if r.Threw? {
      return;
    }
    var hash := r.value;
    var existing := exists x :: x in db.binaries && x.hash == hash;
    if !existing {
      db.binaries := AddedBinary(db.binaries, BinaryRow(hash, data, size));
    }
  }
}
