/** Entries of a file allocation table, as packed into its bytes on FAT12, FAT16 and FAT32 volumes. */
module FatEntry {
  import opened Bytes
  import opened Sectors

  datatype FsType = FAT12 | FAT16 | FAT32

  /** Offset of the first byte of entry c. */
  function Base(ty: FsType, c: nat): nat {
    match ty
    case FAT12 => c + c / 2
    case FAT16 => 2 * c
    case FAT32 => 4 * c
  }

  function Span(ty: FsType): nat { if ty == FAT32 then 4 else 2 }

  /** Number of values an entry can take. */
  function Range(ty: FsType): nat {
    match ty
    case FAT12 => 0x1000
    case FAT16 => 0x1_0000
    case FAT32 => 0x1000_0000
  }

  predicate Holds(ty: FsType, f: seq<byte>, c: nat) { Base(ty, c) + Span(ty) <= |f| }

  /** Value of entry c. */
  function Get(ty: FsType, f: seq<byte>, c: nat): (v: nat)
    requires Holds(ty, f, c)
    ensures v < Range(ty)
  {
    var i := Base(ty, c);
    match ty
    case FAT12 => if c % 2 == 1 then Word16(f, i) / 16 else Word16(f, i) % 0x1000
    case FAT16 => Word16(f, i)
    case FAT32 => Word32(f, i) % 0x1000_0000
  }

  function Low12(c: nat, old0: byte, v: nat): byte {
    if c % 2 == 1 then old0 % 16 + v % 16 * 16 else v % 256
  }

  function High12(c: nat, old1: byte, v: nat): byte {
    if c % 2 == 1 then v / 16 % 256 else old1 / 16 * 16 + v / 256 % 16
  }

  /** The value stored in the 32-bit field: its four reserved bits are those of the old one. */
  function Merge32(old32: nat, v: nat): (w: nat)
    requires old32 < 0x1_0000_0000
    ensures w < 0x1_0000_0000
  {
    v % 0x1000_0000 + old32 / 0x1000_0000 * 0x1000_0000
  }

  /** The bytes entry c takes when v is put into it. */
  ghost function NewBytes(ty: FsType, f: seq<byte>, c: nat, v: nat): (b: seq<byte>)
    requires Holds(ty, f, c)
    ensures |b| == Span(ty)
  {
    var i := Base(ty, c);
    match ty
    case FAT12 => [Low12(c, f[i], v), High12(c, f[i + 1], v)]
    case FAT16 => Le(v, 2)
    case FAT32 => Le(Merge32(Word32(f, i), v), 4)
  }

  ghost function Put(ty: FsType, f: seq<byte>, c: nat, v: nat): (g: seq<byte>)
    requires Holds(ty, f, c)
    ensures |g| == |f|
  {
    Overwrite(f, Base(ty, c), NewBytes(ty, f, c, v))
  }

  /** The bytes of the entry after a put, and the bytes around it. */
  lemma PutAt(ty: FsType, f: seq<byte>, c: nat, v: nat)
    requires Holds(ty, f, c)
    ensures var i, b, g := Base(ty, c), NewBytes(ty, f, c, v), Put(ty, f, c, v);
      && g[i] == b[0] && g[i + 1] == b[1]
      && (ty == FAT32 ==> g[i + 2] == b[2] && g[i + 3] == b[3])
      && forall k :: 0 <= k < |f| && !(i <= k < i + Span(ty)) ==> g[k] == f[k]
  {
    hide NewBytes;
  }

  lemma GetPut32(f: seq<byte>, c: nat, v: nat)
    requires Holds(FAT32, f, c)
    ensures Word32(Put(FAT32, f, c, v), 4 * c) == Merge32(Word32(f, 4 * c), v)
  {
    hide Put;
    PutAt(FAT32, f, c, v);
    Word32OfLe(Merge32(Word32(f, 4 * c), v));
  }

  lemma MergeSplits(old32: nat, v: nat)
    requires old32 < 0x1_0000_0000
    ensures Merge32(old32, v) % 0x1000_0000 == v % 0x1000_0000
    ensures Merge32(old32, v) / 0x1000_0000 == old32 / 0x1000_0000
  {
    Split(Merge32(old32, v), 0x1000_0000, old32 / 0x1000_0000, v % 0x1000_0000);
  }

  lemma GetPut16(f: seq<byte>, c: nat, v: nat)
    requires Holds(FAT16, f, c)
    ensures Get(FAT16, Put(FAT16, f, c, v), c) == v % 0x1_0000
  {
    hide Put;
    PutAt(FAT16, f, c, v);
    Le2(v);
    Split(v, 0x1_0000, v / 0x1_0000, v % 256 + 256 * (v / 256 % 256));
  }

  lemma GetPut12(f: seq<byte>, c: nat, v: nat)
    requires Holds(FAT12, f, c)
    ensures Get(FAT12, Put(FAT12, f, c, v), c) == v % 0x1000
  {
    hide Put, Low12, High12;
    PutAt(FAT12, f, c, v);
    Get12(c, f[Base(FAT12, c)], f[Base(FAT12, c) + 1], v);
  }

  /** What was put into an entry is read back, cut to the width of the entry. */
  lemma GetPut(ty: FsType, f: seq<byte>, c: nat, v: nat)
    requires Holds(ty, f, c)
    ensures Get(ty, Put(ty, f, c, v), c) == v % Range(ty)
  {
    match ty
    case FAT12 => GetPut12(f, c, v);
    case FAT16 => GetPut16(f, c, v);
    case FAT32 =>
      hide Put, Word32, Merge32;
      GetPut32(f, c, v);
      MergeSplits(Word32(f, 4 * c), v);
  }

  lemma Get12(c: nat, b0: byte, b1: byte, v: nat)
    ensures var w: nat := Low12(c, b0, v) as int + 0x100 * (High12(c, b1, v) as int);
      (if c % 2 == 1 then w / 16 else w % 0x1000) == v % 0x1000
  {
    var lo: int, hi: int := Low12(c, b0, v), High12(c, b1, v);
    var w := lo + 0x100 * hi;
    if c % 2 == 1 {
      Split(w, 16, v % 16 + 16 * hi, b0 % 16);
      Nibbles(v);
    } else {
      var top: int := b1 / 16;
      var h := v / 256 % 16;
      Split(w, 0x1000, top, lo + 0x100 * h);
      Nibbles(v);
    }
  }

  lemma Nibbles(v: nat)
    ensures v % 0x1000 == v % 16 + 16 * (v / 16 % 256)
    ensures v % 0x1000 == v % 256 + 256 * (v / 256 % 16)
  {
    var q, r := v / 0x1000, v % 0x1000;
    Split(v, 16, 256 * q + r / 16, r % 16);
    Split(256 * q + r / 16, 256, q, r / 16);
    Split(v, 256, 16 * q + r / 256, r % 256);
    Split(16 * q + r / 256, 16, q, r / 256);
  }

  lemma Other12(f: seq<byte>, c: nat, v: nat, d: nat)
    requires Holds(FAT12, f, c) && Holds(FAT12, f, d) && d != c
    ensures Get(FAT12, Put(FAT12, f, c, v), d) == Get(FAT12, f, d)
  {
    hide Put, Low12, High12;
    PutAt(FAT12, f, c, v);
    var i, j := Base(FAT12, c), Base(FAT12, d);
    if d == c + 1 && c % 2 == 0 {
      High12Even(c, f[i + 1], v);
      Upper12(f[i + 1], f[j + 1], v);
    } else if d + 1 == c && c % 2 == 1 {
      Low12Odd(c, f[i], v);
      Lower12(f[j], f[i], v);
    } else {
      assert j + 1 < i || i + 1 < j;
    }
  }

  lemma High12Even(c: nat, b: byte, v: nat)
    requires c % 2 == 0
    ensures High12(c, b, v) == High12(0, b, v)
  {
  }

  lemma Low12Odd(c: nat, b: byte, v: nat)
    requires c % 2 == 1
    ensures Low12(c, b, v) == Low12(1, b, v)
  {
  }

  /** No other entry changes, even one that shares a byte. */
  lemma GetPutOther(ty: FsType, f: seq<byte>, c: nat, v: nat, d: nat)
    requires Holds(ty, f, c) && Holds(ty, f, d) && d != c
    ensures Get(ty, Put(ty, f, c, v), d) == Get(ty, f, d)
  {
    hide Put;
    if ty == FAT12 {
      Other12(f, c, v, d);
    } else {
      PutAt(ty, f, c, v);
    }
  }

  lemma Upper12(b1: byte, b2: byte, v: nat)
    ensures (High12(0, b1, v) as int + 0x100 * b2 as int) / 16 == (b1 as int + 0x100 * b2 as int) / 16
  {
    var h: int := b1 / 16;
    Split(High12(0, b1, v) as int + 0x100 * b2 as int, 16, h + 16 * b2, v / 256 % 16);
    Split(b1 as int + 0x100 * b2 as int, 16, h + 16 * b2, b1 % 16);
  }

  lemma Lower12(b0: byte, b1: byte, v: nat)
    ensures (b0 as int + 0x100 * Low12(1, b1, v) as int) % 0x1000 == (b0 as int + 0x100 * b1 as int) % 0x1000
  {
    var l: int, h: int := b1 % 16, b1 / 16;
    Split(b0 as int + 0x100 * Low12(1, b1, v) as int, 0x1000, v % 16, b0 + 0x100 * l);
    Split(b0 as int + 0x100 * b1 as int, 0x1000, h, b0 + 0x100 * l);
  }

  /** The four reserved bits of a FAT32 entry survive. */
  lemma ReservedKept(f: seq<byte>, c: nat, v: nat)
    requires Holds(FAT32, f, c)
    ensures Word32(Put(FAT32, f, c, v), 4 * c) / 0x1000_0000 == Word32(f, 4 * c) / 0x1000_0000
  {
    hide Put, Word32, Merge32;
    GetPut32(f, c, v);
    MergeSplits(Word32(f, 4 * c), v);
  }

  /** Most clusters a mounted volume of each type may have. */
  function MaxClusters(ty: FsType): nat {
    match ty
    case FAT12 => 0xFF5
    case FAT16 => 0xFFF5
    case FAT32 => 0x0FFFFFF5
  }

  /** The end-of-chain mark is never mistaken for a cluster. */
  lemma EocReadsBack(ty: FsType, f: seq<byte>, c: nat, nFatent: nat)
    requires Holds(ty, f, c) && nFatent <= MaxClusters(ty) + 2
    ensures Get(ty, Put(ty, f, c, 0xFFFF_FFFF), c) == Range(ty) - 1 >= nFatent
  {
    GetPut(ty, f, c, 0xFFFF_FFFF);
  }

  /** All entries below n. */
  ghost function TableOf(ty: FsType, f: seq<byte>, n: nat): (t: seq<nat>)
    requires n > 0 && Holds(ty, f, n - 1)
    ensures |t| == n
    ensures forall c :: 0 <= c < n ==> t[c] == Get(ty, f, c)
  {
    seq(n, c requires 0 <= c < n => Get(ty, f, c))
  }

  lemma TablePut(ty: FsType, f: seq<byte>, n: nat, c: nat, v: nat)
    requires n > 0 && Holds(ty, f, n - 1) && c < n
    ensures Holds(ty, f, c)
    ensures TableOf(ty, Put(ty, f, c, v), n) == TableOf(ty, f, n)[c := v % Range(ty)]
  {
    hide Put, Get, Range;
    var t, u := TableOf(ty, f, n), TableOf(ty, Put(ty, f, c, v), n);
    GetPut(ty, f, c, v);
    forall d | 0 <= d < n && d != c
      ensures u[d] == t[d]
    {
      GetPutOther(ty, f, c, v, d);
    }
  }
}
