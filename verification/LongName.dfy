/** Long file names on FAT volumes: cut into directory entries when registered, and put together again when read. */
module LongName {
  import opened Bytes

  type unit = x: int | 0 <= x < 0x1_0000

  const MAX_LFN: nat := 255
  const LLEF: nat := 0x40
  const AM_LFN: byte := 0x0F
  const DDEM: byte := 0xE5
  const DOT: byte := 0x2E

  // ----- Layout of an entry -----

  /** Where the j-th unit of an entry lies. */
  function LfnOfs(j: nat): (o: nat)
    requires j < 13
    ensures 0 < o <= 30 && (o + 1 < 11 || (14 <= o && o + 1 < 26) || 28 <= o)
  {
    if j < 5 then 1 + 2 * j else if j < 11 then 14 + 2 * (j - 5) else 28 + 2 * (j - 11)
  }

  /** Five units, six units and two units, between other fields. */
  lemma LfnPlaces(j: nat)
    requires j < 13
    ensures LfnOfs(j) == [1, 3, 5, 7, 9, 14, 16, 18, 20, 22, 24, 28, 30][j]
  {
  }

  lemma Spread(a: nat, b: nat)
    requires a < 13 && b < 13 && a != b
    ensures LfnOfs(a) + 2 <= LfnOfs(b) || LfnOfs(b) + 2 <= LfnOfs(a)
  {
  }

  /** Unit i of a name as it is stored: terminated by 0, and filled up with 0xFFFF. */
  ghost function UnitAt(name: seq<unit>, i: nat): unit {
    if i < |name| then name[i] else if i == |name| then 0 else 0xFFFF
  }

  /** Units that are neither the terminator nor the filler. */
  ghost predicate Plain(name: seq<unit>) {
    0 < |name| <= 255 && forall i :: 0 <= i < |name| ==> name[i] != 0 && name[i] != 0xFFFF
  }

  /** Number of entries a name takes. */
  function Entries(len: nat): nat { (len + 12) / 13 }

  ghost predicate HoldsUnit(e: seq<byte>, name: seq<unit>, ord: nat, j: nat)
    requires |e| == 32 && j < 13 && ord > 0
  {
    Word16(e, LfnOfs(j)) == UnitAt(name, (ord - 1) * 13 + j)
  }

  /** The entry that carries part ord of the name. */
  ghost predicate IsPart(e: seq<byte>, name: seq<unit>, ord: nat, sum: byte) {
    && |e| == 32 && 0 < ord <= Entries(|name|)
    && e[0] as int == ord + (if ord == Entries(|name|) then 0x40 else 0)
    && e[11] == 0x0F && e[12] == 0 && e[13] == sum && e[26] == 0 && e[27] == 0
    && forall j :: 0 <= j < 13 ==> HoldsUnit(e, name, ord, j)
  }

  // ----- Checksum -----

  /** One turn of the loop of sum_sfn, in eight bits. */
  function SumStep(sum: byte, b: byte): byte { (sum as int / 2 + sum as int * 128 + b as int) % 256 }

  function Sum(sfn: seq<byte>): byte {
    if sfn == [] then 0 else SumStep(Sum(sfn[..|sfn| - 1]), sfn[|sfn| - 1])
  }

  /**
   * One step is that of the FAT specification: a rotation to the right by one bit, and the next byte.  Twice a number
   * rotated so is the number itself, but for multiples of 255.
   */
  lemma SumStepRotates(sum: byte, b: byte)
    ensures SumStep(sum, b) as int == ((if sum as int % 2 == 1 then 0x80 else 0) + sum as int / 2 + b as int) % 0x100
    ensures (2 * (SumStep(sum, 0) as int) - sum as int) % 255 == 0
  {
    var q, r := sum as int / 2, sum as int % 2;
    assert sum as int == 2 * q + r;
    CutAway(q, 128 * r + q + b as int);
    CutAway(q, 128 * r + q);
    assert SumStep(sum, 0) as int == 128 * r + q;
  }

  lemma CutAway(q: int, x: int)
    ensures (256 * q + x) % 256 == x % 256
  {
  }

  /** The checksum of a short name of the letter A and ten spaces. */
  lemma SumOfA()
    ensures Sum([0x41, 0x20, 0x20, 0x20, 0x20, 0x20, 0x20, 0x20, 0x20, 0x20, 0x20]) == 0x80
  {
    hide Sum, Spaces, SumStep;
    SumOfLetters(0x41, 0x20);
    StepsOfA();
  }

  lemma StepsOfA()
    ensures SumStep(SumStep(0, 0x41), 0x20) == 0xC0 && Spaces(0xC0, 9) == 0x80
  {
    hide Spaces;
    NineSpaces(0xC0, 0x80, 0x60, 0x50, 0x48, 0x44, 0x42, 0x41, 0xC0, 0x80);
  }

  /** The checksum tells letters apart that have changed places. */
  lemma SumOfTwo()
    ensures Sum([0x41, 0x42, 0x20, 0x20, 0x20, 0x20, 0x20, 0x20, 0x20, 0x20, 0x20]) == 0x91
    ensures Sum([0x42, 0x41, 0x20, 0x20, 0x20, 0x20, 0x20, 0x20, 0x20, 0x20, 0x20]) == 0x51
  {
    hide Sum, Spaces, SumStep;
    SumOfLetters(0x41, 0x42);
    SumOfLetters(0x42, 0x41);
    StepsOfAB();
    StepsOfBA();
  }

  lemma StepsOfAB()
    ensures SumStep(SumStep(0, 0x41), 0x42) == 0xE2 && Spaces(0xE2, 9) == 0x91
  {
    hide Spaces;
    NineSpaces(0xE2, 0x91, 0xE8, 0x94, 0x6A, 0x55, 0xCA, 0x85, 0xE2, 0x91);
  }

  lemma StepsOfBA()
    ensures SumStep(SumStep(0, 0x42), 0x41) == 0x62 && Spaces(0x62, 9) == 0x51
  {
    hide Spaces;
    NineSpaces(0x62, 0x51, 0xC8, 0x84, 0x62, 0x51, 0xC8, 0x84, 0x62, 0x51);
  }

  /** The checksums while nine spaces are added. */
  lemma NineSpaces(a: byte, b: byte, c: byte, d: byte, e: byte, f: byte, g: byte, h: byte, i: byte, j: byte)
    requires b == SumStep(a, 0x20) && c == SumStep(b, 0x20) && d == SumStep(c, 0x20) && e == SumStep(d, 0x20)
    requires f == SumStep(e, 0x20) && g == SumStep(f, 0x20) && h == SumStep(g, 0x20) && i == SumStep(h, 0x20)
    requires j == SumStep(i, 0x20)
    ensures Spaces(a, 9) == j
  {
    hide SumStep;
    assert Spaces(a, 0) == a;
    assert Spaces(a, 1) == b && Spaces(a, 2) == c && Spaces(a, 3) == d && Spaces(a, 4) == e;
    assert Spaces(a, 5) == f && Spaces(a, 6) == g && Spaces(a, 7) == h && Spaces(a, 8) == i;
  }

  function Spaces(sum: byte, n: nat): byte {
    if n == 0 then sum else SumStep(Spaces(sum, n - 1), 0x20)
  }

  lemma SumMore(s: seq<byte>, b: byte)
    ensures Sum(s + [b]) == SumStep(Sum(s), b)
  {
    assert (s + [b])[..|s|] == s;
  }

  lemma SumOfLetters(x: byte, y: byte)
    ensures Sum([x, y, 0x20, 0x20, 0x20, 0x20, 0x20, 0x20, 0x20, 0x20, 0x20]) == Spaces(SumStep(SumStep(0, x), y), 9)
  {
    var t: seq<byte> := [0x20, 0x20, 0x20, 0x20, 0x20, 0x20, 0x20, 0x20, 0x20];
    SumMore([], x);
    SumMore([x], y);
    assert [] + [x] == [x] && [x] + [y] == [x, y] && [x, y] + t[..0] == [x, y];
    hide Sum, SumStep;
    var i := 0;
    while i < 9
      invariant 0 <= i <= 9 && Sum([x, y] + t[..i]) == Spaces(SumStep(SumStep(0, x), y), i)
    {
      assert [x, y] + t[..i + 1] == ([x, y] + t[..i]) + [0x20];
      SumMore([x, y] + t[..i], 0x20);
      i := i + 1;
    }
    assert [x, y] + t[..9] == [x, y, 0x20, 0x20, 0x20, 0x20, 0x20, 0x20, 0x20, 0x20, 0x20];
  }

  /** sum_sfn */
  method SumSfn(dir: array<byte>, p: nat) returns (sum: byte)
    requires p + 11 <= dir.Length
    ensures sum == Sum(dir[p..p + 11])
  {
    sum := 0;
    var n := 0;
    while n < 11
      invariant 0 <= n <= 11 && sum == Sum(dir[p..p + n])
    {
      assert dir[p..p + n + 1][..n] == dir[p..p + n];
      sum := SumStep(sum, dir[p + n]);
      n := n + 1;
    }
  }

  // ----- Words in an array -----

  method StoreWord(dir: array<byte>, p: nat, w: unit)
    requires p + 2 <= dir.Length
    modifies dir
    ensures dir[..] == WithWord(old(dir[..]), p, w)
  {
    dir[p] := w as int % 256;
    dir[p + 1] := w as int / 256;
  }

  ghost function WithWord(d: seq<byte>, p: nat, w: unit): (r: seq<byte>)
    requires p + 2 <= |d|
    ensures |r| == |d| && Word16(r, p) == w
    ensures forall i :: 0 <= i < |d| && i != p && i != p + 1 ==> r[i] == d[i]
  {
    d[..p] + [w as int % 256, w as int / 256] + d[p + 2..]
  }

  method LoadWord(dir: array<byte>, p: nat) returns (w: unit)
    requires p + 2 <= dir.Length
    ensures w == Word16(dir[..], p)
  {
    var b0: int, b1: int := dir[p], dir[p + 1];
    w := b0 + 0x100 * b1;
  }

  // ----- put_lfn -----

  /** The working buffer holds the name and its terminator. */
  ghost predicate InBuffer(b: seq<unit>, name: seq<unit>) {
    |b| == 256 && |name| <= 255 && b[..|name|] == name && b[|name|] == 0
  }

  /** The first k units of part ord are in the entry. */
  ghost predicate Filled(e: seq<byte>, name: seq<unit>, ord: nat, k: nat) {
    |e| == 32 && k <= 13 && ord > 0 && forall j :: 0 <= j < k ==> HoldsUnit(e, name, ord, j)
  }

  lemma FilledMore(e: seq<byte>, name: seq<unit>, ord: nat, k: nat, w: unit)
    requires Filled(e, name, ord, k) && k < 13 && w == UnitAt(name, (ord - 1) * 13 + k)
    ensures var e' := WithWord(e, LfnOfs(k), w);
      && Filled(e', name, ord, k + 1)
      && e'[0] == e[0] && e'[11] == e[11] && e'[12] == e[12] && e'[13] == e[13] && e'[26] == e[26] && e'[27] == e[27]
  {
    hide WithWord, UnitAt;
    var e' := WithWord(e, LfnOfs(k), w);
    forall j | 0 <= j < k
      ensures HoldsUnit(e', name, ord, j)
    {
      Spread(j, k);
      assert HoldsUnit(e, name, ord, j);
    }
  }

  /** put_lfn: part ord of a name goes into an entry. */
  method PutLfn(lfn: array<unit>, dir: array<byte>, ord: nat, sum: byte, ghost name: seq<unit>)
    requires InBuffer(lfn[..], name) && Plain(name) && 0 < ord <= Entries(|name|) && dir.Length == 32
    modifies dir
    ensures IsPart(dir[..], name, ord, sum)
  {
    hide WithWord, UnitAt, LfnOfs;
    dir[13] := sum;
    dir[11] := AM_LFN;
    dir[12] := 0;
    StoreWord(dir, 26, 0);
    ZeroWord(dir[..]);
    var i, s, wc := (ord - 1) * 13, 0, 0;
    ghost var base := (ord - 1) * 13;
    PartBounds(|name|, ord);
    while true
      invariant 0 <= s < 13 && Filled(dir[..], name, ord, s) && base == (ord - 1) * 13 < |name|
      invariant dir[11] == AM_LFN && dir[12] == 0 && dir[13] == sum && dir[26] == 0 && dir[27] == 0
      invariant if base + s <= |name| then i == base + s && wc != 0xFFFF else wc == 0xFFFF
      decreases 13 - s
    {
      NextUnit(lfn[..], name, base + s);
      if wc != 0xFFFF {
        wc := lfn[i];
        i := i + 1;
      }
      FilledMore(dir[..], name, ord, s, wc);
      StoreWord(dir, LfnOfs(s), wc);
      if wc == 0 {
        wc := 0xFFFF;
      }
      s := s + 1;
      if s >= 13 {
        break;
      }
    }
    NextUnit(lfn[..], name, base + 13);
    var o := ord;
    if wc == 0xFFFF || lfn[i] == 0 {
      o := o + LLEF;
    }
    LastPart(|name|, ord);
    ghost var e := dir[..];
    dir[0] := o;
    assert dir[..] == WithOrd(e, o);
    OrdKeeps(e, o, name, ord);
  }

  ghost function WithOrd(e: seq<byte>, o: byte): (r: seq<byte>)
    requires |e| > 0
    ensures |r| == |e| && r[0] == o
  {
    [o] + e[1..]
  }

  lemma OrdKeeps(e: seq<byte>, o: byte, name: seq<unit>, ord: nat)
    requires Filled(e, name, ord, 13)
    ensures Filled(WithOrd(e, o), name, ord, 13)
  {
    forall j | 0 <= j < 13
      ensures HoldsUnit(WithOrd(e, o), name, ord, j)
    {
      assert HoldsUnit(e, name, ord, j);
      assert WithOrd(e, o)[LfnOfs(j)] == e[LfnOfs(j)] && WithOrd(e, o)[LfnOfs(j) + 1] == e[LfnOfs(j) + 1];
    }
  }

  lemma ZeroWord(e: seq<byte>)
    requires |e| == 32 && Word16(e, 26) == 0
    ensures e[26] == 0 && e[27] == 0
  {
  }

  lemma PartBounds(len: nat, ord: nat)
    requires 0 < ord <= Entries(len) && len <= MAX_LFN
    ensures (ord - 1) * 13 < len && ord <= 20
  {
  }

  lemma LastPart(len: nat, ord: nat)
    requires 0 < ord <= Entries(len)
    ensures ord == Entries(len) <==> len <= ord * 13
  {
  }

  /** What the buffer has at position i, as far as it goes. */
  lemma NextUnit(b: seq<unit>, name: seq<unit>, i: nat)
    requires InBuffer(b, name) && Plain(name)
    ensures i <= |name| ==> i < |b| && b[i] == UnitAt(name, i) != 0xFFFF && (b[i] == 0 <==> i == |name|)
    ensures i > |name| ==> UnitAt(name, i) == 0xFFFF
  {
  }

  // ----- pick_lfn -----

  /** What an entry's order byte says about the place of its units: the offset is an unsigned 32-bit number. */
  function PickOffset(b: byte): nat {
    ((b as int % 0x40 + b as int / 0x80 * 0x80 - 1) * 13) % 0x1_0000_0000
  }

  /** The units of parts from number ord on are in the buffer; the last part has brought the terminator. */
  ghost predicate Picked(b: seq<unit>, name: seq<unit>, ord: nat) {
    |b| == MAX_LFN + 1 && |name| <= MAX_LFN && forall i :: ord * 13 <= i <= |name| ==> b[i] == UnitAt(name, i)
  }

  ghost function UnitIn(e: seq<byte>, s: nat): (w: nat)
    requires |e| == 32 && s < 13
  {
    Word16(e, LfnOfs(s))
  }

  /** The first s units go on with the name. */
  ghost predicate NoZero(e: seq<byte>, s: nat)
    requires |e| == 32 && s <= 13
  {
    forall r :: 0 <= r < s ==> UnitIn(e, r) != 0
  }

  /** Behind a terminator there is only filler, and in front of it room in the buffer, among the first s units. */
  ghost predicate PickedSoFar(e: seq<byte>, base: nat, s: nat)
    requires |e| == 32 && s <= 13
  {
    && (forall r, t :: 0 <= r < t < s && UnitIn(e, r) == 0 ==> UnitIn(e, t) == 0xFFFF)
    && (forall r :: 0 <= r < s && NoZero(e, r) ==> base + r <= 255)
  }

  /** The entries pick_lfn accepts. */
  ghost predicate Pickable(e: seq<byte>)
    requires |e| == 32
  {
    && Word16(e, 26) == 0 && PickedSoFar(e, PickOffset(e[0]), 13)
    && (e[0] as int / 0x40 % 2 == 1 && NoZero(e, 13) ==> PickOffset(e[0]) + 13 <= 255)
  }

  /** What the buffer is after an entry has been accepted. */
  ghost predicate TakenIn(b: seq<unit>, b': seq<unit>, e: seq<byte>)
    requires |e| == 32
  {
    var base, ends := PickOffset(e[0]), e[0] as int / 0x40 % 2 == 1 && NoZero(e, 13);
    && |b'| == |b| && UnitsIn(b', e, base, 13)
    && (ends ==> base + 13 < |b'| && b'[base + 13] == 0)
    && forall k :: 0 <= k < |b| && !(base <= k < base + 13) && !(ends && k == base + 13) ==> b'[k] == b[k]
  }

  /** The units of an entry are in their place, up to the terminator. */
  ghost predicate UnitsIn(b: seq<unit>, e: seq<byte>, base: nat, s: nat)
    requires |e| == 32 && s <= 13
  {
    forall r :: 0 <= r < s && NoZero(e, r) ==> base + r < |b| && b[base + r] == UnitIn(e, r)
  }

  lemma NoZeroMore(e: seq<byte>, s: nat)
    requires |e| == 32 && s < 13
    ensures NoZero(e, s + 1) <==> NoZero(e, s) && UnitIn(e, s) != 0
    ensures !NoZero(e, s) ==> exists r :: 0 <= r < s && UnitIn(e, r) == 0
  {
    hide UnitIn;
  }

  lemma PickStep(e: seq<byte>, base: nat, s: nat)
    requires |e| == 32 && s < 13 && PickedSoFar(e, base, s)
    ensures PickedSoFar(e, base, s + 1) <==>
      (if NoZero(e, s) then base + s <= MAX_LFN else UnitIn(e, s) == 0xFFFF)
    ensures !PickedSoFar(e, base, s + 1) ==> !PickedSoFar(e, base, 13)
  {
    hide UnitIn, NoZero;
    NoZeroFacts(e, s);
  }

  lemma NoZeroFacts(e: seq<byte>, s: nat)
    requires |e| == 32 && s <= 13
    ensures NoZero(e, s) <==> forall r :: 0 <= r < s ==> UnitIn(e, r) != 0
  {
  }

  lemma UnitsMore(b: seq<unit>, b': seq<unit>, e: seq<byte>, base: nat, s: nat)
    requires |e| == 32 && s < 13 && |b'| == |b| && UnitsIn(b, e, base, s)
    requires if NoZero(e, s) then base + s < |b| && b' == b[base + s := UnitIn(e, s) % 0x1_0000] else b' == b
    ensures UnitsIn(b', e, base, s + 1)
  {
    hide NoZero;
    UnitSmall(e, s);
    hide UnitIn;
  }

  lemma UnitSmall(e: seq<byte>, s: nat)
    requires |e| == 32 && s < 13
    ensures UnitIn(e, s) < 0x1_0000
  {
  }

  /**
   * pick_lfn: takes the units of an entry into the buffer, up to the terminator, and says whether it is a valid part
   * of a name; nothing else in the buffer changes.
   */
  method PickLfn(lfnbuf: array<unit>, dir: array<byte>) returns (ok: bool)
    requires lfnbuf.Length == MAX_LFN + 1 && dir.Length == 32 && (lfnbuf as object) != dir
    modifies lfnbuf
    ensures ok <==> Pickable(dir[..])
    ensures ok ==> TakenIn(old(lfnbuf[..]), lfnbuf[..], dir[..])
  {
    hide UnitIn, LfnOfs, PickedSoFar, NoZero, UnitsIn, PickOffset, Word16;
    ghost var e, base := dir[..], PickOffset(dir[0]);
    PickNone(e, base, lfnbuf[..]);
    var z := LoadWord(dir, 26);
    if z != 0 {
      return false;
    }
    var i, s, wc := PickOffset(dir[0]), 0, 1;
    while s < 13
      invariant 0 <= s <= 13 && 0 <= i && (wc != 0 <==> NoZero(e, s)) && (wc != 0 ==> i == base + s)
      invariant PickedSoFar(e, base, s) && UnitsIn(lfnbuf[..], e, base, s)
      invariant forall k :: 0 <= k < lfnbuf.Length && !(base <= k < base + 13) ==> lfnbuf[k] == old(lfnbuf[k])
      decreases 13 - s
    {
      PickStep(e, base, s);
      NoZeroMore(e, s);
      ghost var before := lfnbuf[..];
      OffsetInside(s);
      var uc := LoadWord(dir, LfnOfs(s));
      UnitWord(e, s, uc);
      if wc != 0 {
        if i >= MAX_LFN + 1 {
          return false;
        }
        wc := uc;
        lfnbuf[i] := wc;
        i := i + 1;
      } else {
        if uc != 0xFFFF {
          return false;
        }
      }
      UnitsMore(before, lfnbuf[..], e, base, s);
      s := s + 1;
    }
    if dir[0] as int / 0x40 % 2 == 1 && wc != 0 {
      if i >= MAX_LFN + 1 {
        return false;
      }
      ghost var before := lfnbuf[..];
      lfnbuf[i] := 0;
      UnitsKept(before, lfnbuf[..], e, base);
    }
    ok := true;
  }

  lemma PickNone(e: seq<byte>, base: nat, b: seq<unit>)
    requires |e| == 32
    ensures NoZero(e, 0) && PickedSoFar(e, base, 0) && UnitsIn(b, e, base, 0)
  {
  }

  lemma UnitsKept(b: seq<unit>, b': seq<unit>, e: seq<byte>, base: nat)
    requires |e| == 32 && UnitsIn(b, e, base, 13) && base + 13 < |b| && b' == b[base + 13 := 0]
    ensures UnitsIn(b', e, base, 13)
  {
    hide NoZero, UnitIn;
  }

  lemma OffsetInside(s: nat)
    requires s < 13
    ensures LfnOfs(s) + 2 <= 32
  {
  }

  lemma UnitWord(e: seq<byte>, s: nat, w: unit)
    requires |e| == 32 && s < 13 && LfnOfs(s) + 2 <= 32 && w == Word16(e, LfnOfs(s))
    ensures UnitIn(e, s) == w
  {
  }

  /** A part of a name is accepted, and brings the buffer one part further. */
  lemma PartPicked(b: seq<unit>, b': seq<unit>, e: seq<byte>, name: seq<unit>, ord: nat, sum: byte)
    requires Plain(name) && IsPart(e, name, ord, sum) && |b| == MAX_LFN + 1
    requires ord == Entries(|name|) || Picked(b, name, ord)
    ensures |e| == 32 && Pickable(e)
    ensures TakenIn(b, b', e) ==> Picked(b', name, ord - 1)
  {
    PartFacts(e, name, ord, sum);
    var base := (ord - 1) * 13;
    forall s | 0 <= s < 13
      ensures UnitIn(e, s) == UnitAt(name, base + s)
    {
      PartUnit(e, name, ord, sum, s);
    }
    hide IsPart, Word16, LfnOfs, PickOffset, UnitIn, NoZero, TakenIn, Picked, Pickable;
    forall s | 0 <= s <= 13
      ensures NoZero(e, s) <==> base + s <= |name|
    {
      PartNoZero(e, name, base, s);
    }
    PartPickable(e, name, base);
    if TakenIn(b, b', e) {
      PartTaken(b, b', e, name, ord);
      PickedJoin(b', name, ord);
    }
  }

  lemma PartNoZero(e: seq<byte>, name: seq<unit>, base: nat, s: nat)
    requires |e| == 32 && s <= 13 && base < |name| && Plain(name)
    requires forall r :: 0 <= r < 13 ==> UnitIn(e, r) == UnitAt(name, base + r)
    ensures NoZero(e, s) <==> base + s <= |name|
  {
    hide UnitIn;
    if base + s > |name| {
      assert UnitIn(e, |name| - base) == 0;
    }
  }

  lemma PartPickable(e: seq<byte>, name: seq<unit>, base: nat)
    requires |e| == 32 && base < |name| && Plain(name) && Word16(e, 26) == 0 && PickOffset(e[0]) == base
    requires forall r :: 0 <= r < 13 ==> UnitIn(e, r) == UnitAt(name, base + r)
    requires forall r :: 0 <= r <= 13 ==> (NoZero(e, r) <==> base + r <= |name|)
    requires e[0] as int / 0x40 % 2 == 1 <==> |name| <= base + 13
    ensures Pickable(e)
  {
    hide UnitIn, NoZero, PickOffset, Word16;
  }

  lemma PartTaken(b: seq<unit>, b': seq<unit>, e: seq<byte>, name: seq<unit>, ord: nat)
    requires |e| == 32 && 0 < ord <= Entries(|name|) && |name| <= MAX_LFN && |b| == MAX_LFN + 1 && TakenIn(b, b', e)
    requires PickOffset(e[0]) == (ord - 1) * 13
    requires forall r :: 0 <= r < 13 ==> UnitIn(e, r) == UnitAt(name, (ord - 1) * 13 + r)
    requires forall r :: 0 <= r <= 13 ==> (NoZero(e, r) <==> (ord - 1) * 13 + r <= |name|)
    requires e[0] as int / 0x40 % 2 == 1 <==> ord == Entries(|name|)
    requires ord == Entries(|name|) || Picked(b, name, ord)
    ensures PickedPart(b', name, (ord - 1) * 13, 13)
    ensures ord == Entries(|name|) || Picked(b', name, ord)
    ensures |name| == ord * 13 && ord == Entries(|name|) ==> b'[|name|] == 0
  {
    hide UnitIn, NoZero, PickOffset;
    LastPart(|name|, ord);
    var base := (ord - 1) * 13;
    forall i | base <= i < base + 13 && i <= |name|
      ensures i < |b'| && b'[i] == UnitAt(name, i)
    {
      assert base + (i - base) == i;
      assert NoZero(e, i - base) && UnitIn(e, i - base) == UnitAt(name, base + (i - base));
    }
  }

  lemma PickedJoin(b: seq<unit>, name: seq<unit>, ord: nat)
    requires 0 < ord <= Entries(|name|) && |name| <= MAX_LFN && PickedPart(b, name, (ord - 1) * 13, 13)
    requires ord == Entries(|name|) || Picked(b, name, ord)
    requires |name| == ord * 13 && ord == Entries(|name|) ==> b[|name|] == 0
    ensures Picked(b, name, ord - 1)
  {
    LastPart(|name|, ord);
  }

  /** The first s units from base on are in the buffer, as far as the terminator. */
  ghost predicate PickedPart(b: seq<unit>, name: seq<unit>, base: int, s: nat) {
    |b| == MAX_LFN + 1 && 0 <= base && forall i :: base <= i < base + s && i <= |name| && i < |b| ==>
      b[i] == UnitAt(name, i)
  }

  lemma PartFacts(e: seq<byte>, name: seq<unit>, ord: nat, sum: byte)
    requires Plain(name) && IsPart(e, name, ord, sum)
    ensures |e| == 32 && 0 < ord <= Entries(|name|) && 0 <= (ord - 1) * 13 < |name| &&
      PickOffset(e[0]) == (ord - 1) * 13
    ensures Word16(e, 26) == 0 && (e[0] as int / 0x40 % 2 == 1 <==> ord == Entries(|name|)) &&
      (ord == Entries(|name|) <==> |name| <= ord * 13)
  {
    PartBounds(|name|, ord);
    LastPart(|name|, ord);
  }

  lemma PartUnit(e: seq<byte>, name: seq<unit>, ord: nat, sum: byte, s: nat)
    requires Plain(name) && IsPart(e, name, ord, sum) && s < 13
    ensures var i := (ord - 1) * 13 + s;
      && Word16(e, LfnOfs(s)) == UnitAt(name, i)
      && (i <= |name| ==> UnitAt(name, i) != 0xFFFF && (UnitAt(name, i) == 0 <==> i == |name|))
      && (i > |name| ==> UnitAt(name, i) == 0xFFFF)
  {
    assert HoldsUnit(e, name, ord, s);
  }

  // ----- The directory -----

  type Entry = seq<byte>

  const NO_BLOCK: nat := 0xFFFF_FFFF

  /** A short name entry that is not deleted, no dot entry and no volume label. */
  ghost predicate IsShort(e: Entry, sfn: seq<byte>) {
    && |e| == 32 && |sfn| == 11 && e[..11] == sfn && e[11] == 0
    && sfn[0] != 0 && sfn[0] != 0xE5 && sfn[0] != 0x2E
  }

  /** The entries of a name, last part first, and behind them the short name they belong to. */
  ghost predicate IsName(d: seq<Entry>, q: nat, name: seq<unit>, sfn: seq<byte>) {
    var n := Entries(|name|);
    && Plain(name) && q + n < |d| && IsShort(d[q + n], sfn)
    && forall k :: q <= k < q + n ==> IsPart(d[k], name, n - (k - q), Sum(sfn))
  }

  ghost predicate AllEntries(d: seq<Entry>) { forall k :: 0 <= k < |d| ==> |d[k]| == 32 }

  /** An entry of the window, and the window written back. */
  method PutPart(dirs: array<Entry>, pos: nat, lfn: array<unit>, ord: nat, sum: byte, ghost name: seq<unit>)
    requires pos < dirs.Length && |dirs[pos]| == 32
    requires InBuffer(lfn[..], name) && Plain(name) && 0 < ord <= Entries(|name|)
    modifies dirs
    ensures IsPart(dirs[pos], name, ord, sum)
    ensures forall k :: 0 <= k < dirs.Length && k != pos ==> dirs[k] == old(dirs[k])
  {
    hide IsPart, InBuffer, Plain;
    var win := dirs[pos];
    var dir := new byte[32](i requires 0 <= i < 32 reads dirs => win[i]);
    PutLfn(lfn, dir, ord, sum, name);
    dirs[pos] := dir[..];
  }

  /** The part of dir_register that stores a long name and the short name it belongs to, in entries found free. */
  method Register(lfn: array<unit>, len: nat, dirs: array<Entry>, q: nat, fn: array<byte>, ntres: byte,
    ghost name: seq<unit>)
    requires InBuffer(lfn[..], name) && Plain(name) && len == |name|
    requires q + Entries(len) < dirs.Length && AllEntries(dirs[..]) && fn.Length == 12
    requires fn[0] != 0 && fn[0] != DDEM && fn[0] != DOT
    modifies dirs
    ensures IsName(dirs[..], q, name, fn[..11])
    ensures dirs[q + Entries(len)] == fn[..11] + [0, ntres] + seq(19, i => 0)
    ensures forall k :: 0 <= k < dirs.Length && !(q <= k <= q + Entries(len)) ==> dirs[k] == old(dirs[k])
  {
    hide IsPart, InBuffer, Plain, Sum;
    var n_ent := Entries(len);
    ghost var n := n_ent;
    var pos := q;
    var sum := SumSfn(fn, 0);
    assert fn[0..0 + 11] == fn[..11];
    while n_ent > 0
      invariant 0 <= n_ent <= n && pos == q + (n - n_ent)
      invariant forall k :: q <= k < pos ==> IsPart(dirs[k], name, n - (k - q), sum)
      invariant forall k :: 0 <= k < dirs.Length && !(q <= k < pos) ==> dirs[k] == old(dirs[k])
      decreases n_ent
    {
      assert old(dirs[..])[pos] == dirs[pos];
      PutPart(dirs, pos, lfn, n_ent, sum, name);
      pos := pos + 1;
      n_ent := n_ent - 1;
    }
    dirs[pos] := fn[..11] + [0, ntres] + Zeros(19);
  }

  function Zeros(n: nat): (z: seq<byte>)
    ensures |z| == n
  {
    seq(n, i => 0)
  }

  /** What dir_read knows about the long name it is in the middle of. */
  datatype Sequence = Sequence(ord: nat, sum: byte, blk: nat)

  /** The first k entries of a name have been read. */
  ghost predicate Reading(st: Sequence, b: seq<unit>, name: seq<unit>, sfn: seq<byte>, q: nat, k: nat) {
    var n := Entries(|name|);
    && k <= n
    && (k > 0 ==> st.ord == n - k && st.sum == Sum(sfn) && st.blk == q && Picked(b, name, n - k))
  }

  /** How the state changes with a valid entry: it begins a name, or is the next one of the name begun. */
  ghost predicate Taken(e: Entry, pos: nat, st: Sequence, st': Sequence) {
    && |e| == 32 && e[13] == st'.sum
    && if e[0] as int / 0x40 % 2 == 1 then e[0] as int - 0x40 == st'.ord + 1 && st'.blk == pos
       else e[0] as int == st.ord == st'.ord + 1 && st.sum == st'.sum && st'.blk == st.blk
  }

  /** Entries q to p - 1 carry the first parts of one name, counted down, of which ord are still to come. */
  ghost predicate Sequential(d: seq<Entry>, q: nat, p: nat, ord: nat, sum: byte) {
    && q < p <= |d| && AllEntries(d)
    && (forall k :: q <= k < p ==> IsLong(d[k]) && d[k][13] == sum)
    && d[q][0] as int == 0x40 + ord + (p - q)
    && forall k :: q < k < p ==> d[k][0] as int == ord + (p - k)
  }

  ghost predicate IsLong(e: Entry) { |e| == 32 && e[11] as int % 0x40 == 0x0F }

  /** An entry dir_read for files stops at. */
  ghost predicate IsFile(e: Entry) {
    |e| == 32 && e[0] != 0xE5 && e[0] != 0x2E && e[11] as int % 0x40 % 0x20 != 0x08 && !IsLong(e)
  }

  lemma SequentialStep(d: seq<Entry>, pos: nat, st: Sequence, st': Sequence)
    requires AllEntries(d) && pos < |d| && IsLong(d[pos]) && Taken(d[pos], pos, st, st') && st'.ord < 0xFF
    requires st.ord != 0xFF ==> Sequential(d, st.blk, pos, st.ord, st.sum)
    ensures Sequential(d, st'.blk, pos + 1, st'.ord, st'.sum)
  {
  }

  lemma TakenBlock(e: Entry, pos: nat, st: Sequence, st': Sequence)
    requires Taken(e, pos, st, st')
    ensures st'.blk == pos || (st'.blk == st.blk && st.ord != 0xFF)
  {
  }

  /** The long name part of the loop of dir_read, for one entry. */
  method ReadPart(dir: array<byte>, pos: nat, st: Sequence, lfnbuf: array<unit>, ghost name: seq<unit>,
    ghost sfn: seq<byte>, ghost q: nat, ghost k: nat) returns (st': Sequence)
    requires dir.Length == 32 && lfnbuf.Length == MAX_LFN + 1 && (lfnbuf as object) != dir
    modifies lfnbuf
    ensures (Plain(name) && k < Entries(|name|) && pos == q + k && IsPart(dir[..], name, Entries(|name|) - k, Sum(sfn))
             && Reading(st, old(lfnbuf[..]), name, sfn, q, k))
      ==> Reading(st', lfnbuf[..], name, sfn, q, k + 1)
    ensures st'.ord < 256 && (st'.ord != 0xFF ==> Taken(dir[..], pos, st, st'))
  {
    hide Picked, Sum, Pickable, TakenIn;
    ghost var ord := Entries(|name|) - k;
    st' := st;
    var b: nat := dir[0];
    ghost var was, e := lfnbuf[..], dir[..];
    ghost var part := Plain(name) && k < Entries(|name|) && IsPart(e, name, ord, Sum(sfn));
    if part {
      PartBounds(|name|, ord);
    }
    if b / 0x40 % 2 == 1 {
      b := b - 0x40;
      st' := Sequence(b, dir[13], pos);
    }
    var ok := false;
    if b == st'.ord && st'.sum == dir[13] {
      ok := PickLfn(lfnbuf, dir);
      if part && (k == 0 || Picked(was, name, ord)) {
        PartPicked(was, lfnbuf[..], e, name, ord, Sum(sfn));
      }
    }
    st' := st'.(ord := if ok then (st'.ord + 255) % 256 else 0xFF);
  }

  /** A directory as it is met before a name is: no end mark and no file entry, but anything else. */
  ghost predicate NoFile(d: seq<Entry>, p: nat, q: nat) {
    p <= q && forall i :: p <= i < q && i < |d| ==> d[i] != [] && d[i][0] != 0 && !IsFile(d[i])
  }

  /**
   * dir_read for files: gives the next short name and where its long name begins, if it has a valid one.  The entries
   * of a registered name that is the next one are accepted, and put together to that name with its terminator,
   * whatever deleted, dot, label or stray entries stand in front of them.  Whatever the directory holds, a long name
   * is accepted only from entries in front of the short name that are counted down to 1 and all carry its checksum.
   */
  method DirRead(dirs: array<Entry>, pos0: nat, lfnbuf: array<unit>, ghost name: seq<unit>, ghost sfn: seq<byte>,
    ghost q: nat)
    returns (found: bool, pos: nat, blk: nat)
    requires AllEntries(dirs[..]) && lfnbuf.Length == MAX_LFN + 1
    modifies lfnbuf
    ensures NoFile(dirs[..], pos0, q) && IsName(dirs[..], q, name, sfn) ==>
      found && pos == q + Entries(|name|) && blk == q && InBuffer(lfnbuf[..], name)
    ensures found ==> pos0 <= pos < dirs.Length && dirs[pos][0] != 0 && IsFile(dirs[pos])
    ensures found ==> blk == 0xFFFF_FFFF || (pos0 <= blk && Sequential(dirs[..], blk, pos, 0, Sum(dirs[pos][..11])))
    ensures !found ==> pos >= dirs.Length || dirs[pos][0] == 0
    ensures NoFile(dirs[..], pos0, if pos >= pos0 then pos else pos0)
  {
    hide IsPart, Picked, Sum, Plain, InBuffer, Reading, Sequential, Taken, NoFile, IsName;
    ghost var good := NoFile(dirs[..], pos0, q) && IsName(dirs[..], q, name, sfn);
    found, pos := false, pos0;
    var st := Sequence(0xFF, 0xFF, NO_BLOCK);
    ReadingNone(st, lfnbuf[..], name, sfn, q);
    NoFileYet(dirs[..], pos0, q);
    NameFits(dirs[..], q, name, sfn);
    while pos < dirs.Length
      invariant pos0 <= pos && !found
      invariant good ==> pos <= q + Entries(|name|)
      invariant good && q <= pos ==> Reading(st, lfnbuf[..], name, sfn, q, pos - q)
      invariant dirs[..] == old(dirs[..])
      invariant st.ord != 0xFF ==> pos0 <= st.blk && Sequential(dirs[..], st.blk, pos, st.ord, st.sum)
      invariant NoFile(dirs[..], pos0, pos)
      decreases dirs.Length - pos
    {
      assert dirs[..][pos] == dirs[pos];
      var win := dirs[pos];
      var dir := new byte[32](i requires 0 <= i < 32 => win[i]);
      assert dir[..] == win;
      ghost var k: nat := if pos >= q then pos - q else 0;
      if good {
        Meets(dirs[..], pos0, q, name, sfn, pos);
      }
      var b := dir[0];
      if b == 0 {
        break;
      }
      var attr := dir[11] as int % 0x40;
      if b == DDEM || b == DOT || attr % 0x20 == 0x08 {
        st := st.(ord := 0xFF);
      } else if attr == AM_LFN as int {
        ghost var was := st;
        st := ReadPart(dir, pos, st, lfnbuf, name, sfn, q, k);
        if st.ord != 0xFF {
          SequentialStep(dirs[..], pos, was, st);
          TakenBlock(win, pos, was, st);
        }
      } else {
        var sum := SumSfn(dir, 0);
        assert dir[0..0 + 11] == win[..11];
        if good {
          Complete(st, lfnbuf[..], name, sfn, q);
        }
        if st.ord != 0 || st.sum != sum {
          st := st.(blk := NO_BLOCK);
        }
        return true, pos, st.blk;
      }
      NoFileMore(dirs[..], pos0, pos);
      pos := pos + 1;
      ReadingNone(st, lfnbuf[..], name, sfn, q);
    }
    blk := st.blk;
  }

  lemma NoFileYet(d: seq<Entry>, p: nat, q: nat)
    ensures NoFile(d, p, p) && (NoFile(d, p, q) ==> p <= q)
  {
  }

  lemma NameFits(d: seq<Entry>, q: nat, name: seq<unit>, sfn: seq<byte>)
    ensures IsName(d, q, name, sfn) ==> q + Entries(|name|) < |d|
  {
  }

  lemma NoFileMore(d: seq<Entry>, p: nat, pos: nat)
    requires NoFile(d, p, pos) && pos < |d| && d[pos] != [] && d[pos][0] != 0 && !IsFile(d[pos])
    ensures NoFile(d, p, pos + 1)
  {
  }

  /** What is met on the way to a name and in it. */
  lemma Meets(d: seq<Entry>, p: nat, q: nat, name: seq<unit>, sfn: seq<byte>, pos: nat)
    requires NoFile(d, p, q) && IsName(d, q, name, sfn) && p <= pos <= q + Entries(|name|)
    ensures pos < |d| && d[pos] != [] && d[pos][0] != 0 && Plain(name)
    ensures IsFile(d[pos]) <==> pos == q + Entries(|name|)
    ensures q <= pos < q + Entries(|name|) ==>
      IsLong(d[pos]) && d[pos][0] != DDEM && d[pos][0] != DOT &&
        IsPart(d[pos], name, Entries(|name|) - (pos - q), Sum(sfn))
    ensures pos == q + Entries(|name|) ==> d[pos][..11] == sfn
  {
    hide IsPart, Sum, Plain, IsName;
    EntryKind(d, q, name, sfn, 0);
    if pos >= q {
      EntryKind(d, q, name, sfn, pos - q);
    }
  }

  lemma ReadingNone(st: Sequence, b: seq<unit>, name: seq<unit>, sfn: seq<byte>, q: nat)
    ensures Reading(st, b, name, sfn, q, 0)
  {
  }

  lemma Complete(st: Sequence, b: seq<unit>, name: seq<unit>, sfn: seq<byte>, q: nat)
    requires Plain(name) && Reading(st, b, name, sfn, q, Entries(|name|))
    ensures st.ord == 0 && st.sum == Sum(sfn) && st.blk == q && InBuffer(b, name)
  {
    assert forall i :: 0 <= i <= |name| ==> b[i] == UnitAt(name, i);
  }

  /** How dir_read tells the entries of a name apart. */
  lemma EntryKind(d: seq<Entry>, q: nat, name: seq<unit>, sfn: seq<byte>, k: nat)
    requires IsName(d, q, name, sfn) && k <= Entries(|name|)
    ensures q + k < |d| && |d[q + k]| == 32 && d[q + k][0] != 0 && d[q + k][0] != DDEM && d[q + k][0] != DOT
    ensures Plain(name) && d[q + k][11] as int % 0x40 % 0x20 != 0x08
    ensures k < Entries(|name|) ==>
      d[q + k][11] as int % 0x40 == 0x0F && IsPart(d[q + k], name, Entries(|name|) - k, Sum(sfn))
    ensures k == Entries(|name|) ==> d[q + k][11] as int % 0x40 != 0x0F && d[q + k][..11] == sfn
  {
    hide Sum;
    if k < Entries(|name|) {
      PartBounds(|name|, Entries(|name|) - k);
      assert IsPart(d[q + k], name, Entries(|name|) - k, Sum(sfn));
    } else {
      assert d[q + k][0] == d[q + k][..11][0];
    }
  }

  /**
   * Every name of 1 to 255 units, registered and read again from any place with no file in between, is that name.
   */
  method RegisterThenRead(lfn: array<unit>, len: nat, dirs: array<Entry>, q: nat, fn: array<byte>, ntres: byte,
    lfnbuf: array<unit>, start: nat, ghost name: seq<unit>)
    returns (found: bool, pos: nat, blk: nat)
    requires InBuffer(lfn[..], name) && Plain(name) && len == |name| && lfnbuf.Length == MAX_LFN + 1
    requires q + Entries(len) < dirs.Length && AllEntries(dirs[..]) && fn.Length == 12
    requires fn[0] != 0 && fn[0] != DDEM && fn[0] != DOT && NoFile(dirs[..], start, q)
    modifies dirs, lfnbuf
    ensures found && pos == q + Entries(len) && blk == q && InBuffer(lfnbuf[..], name)
  {
    hide InBuffer, Plain, IsPart, Sum;
    ghost var before := dirs[..];
    Register(lfn, len, dirs, q, fn, ntres, name);
    forall k | 0 <= k < dirs.Length
      ensures |dirs[k]| == 32
    {
      Sizes(before, dirs[..], q, name, fn[..11], k);
    }
    assert forall i :: start <= i < q ==> dirs[i] == before[i];
    found, pos, blk := DirRead(dirs, start, lfnbuf, name, fn[..11], q);
  }

  lemma Sizes(before: seq<Entry>, d: seq<Entry>, q: nat, name: seq<unit>, sfn: seq<byte>, k: nat)
    requires AllEntries(before) && |d| == |before| && k < |d| && IsName(d, q, name, sfn)
    requires forall i :: 0 <= i < |d| && !(q <= i <= q + Entries(|name|)) ==> d[i] == before[i]
    ensures |d[k]| == 32
  {
  }
}
