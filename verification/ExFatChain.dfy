/**
 * Cluster chains of exFAT files.  While a file grows, its chain is kept partly in the object: a
 * contiguous chain needs no FAT at all, and of a fragmented one the first and the last fragment are
 * not written to the FAT before the file is synchronised.
 */
module ExFatChain {
  import opened Bytes

  datatype Res = Ok | IntErr

  const EOC := 0x7FFF_FFFF
  const MAX_EXFAT := 0x7FFF_FFFD

  /**
   * What the object knows about its chain: stat is 0 (on the FAT), 2 (contiguous) or 3 (fragmented since it was
   * opened).
   */
  datatype Info = Info(sclust: nat, stat: nat, nCont: nat, nFrag: nat)

  // ----- The allocation bitmap -----

  function Mask(j: nat): (m: nat)
    ensures 0 < m < 256
  {
    if j == 0 then 1 else if j == 1 then 2 else if j == 2 then 4 else if j == 3 then 8
    else if j == 4 then 16 else if j == 5 then 32 else if j == 6 then 64 else 128
  }

  predicate Has(b: byte, m: nat)
    requires m > 0
  {
    var x: int := b;
    x / m % 2 == 1
  }

  /** Is bit k set?  Bit k stands for cluster k + 2. */
  predicate Bit(bm: seq<byte>, k: nat)
    requires k / 8 < |bm|
  {
    Has(bm[k / 8], Mask(k % 8))
  }

  ghost predicate Used(bm: seq<byte>, c: nat) {
    2 <= c && (c - 2) / 8 < |bm| && Bit(bm, c - 2)
  }

  /** The byte with these bits, lowest first. */
  function OfBits(v: seq<nat>): (r: nat)
    requires |v| == 8
  {
    v[0] + 2 * v[1] + 4 * v[2] + 8 * v[3] + 16 * v[4] + 32 * v[5] + 64 * v[6] + 128 * v[7]
  }

  ghost predicate AreBits(v: seq<nat>) {
    |v| == 8 && forall j :: 0 <= j < 8 ==> v[j] <= 1
  }

  function ToBits(b: byte): (v: seq<nat>)
    ensures |v| == 8
  {
    var x: int := b;
    [Rest(x, 1) % 2, Rest(x, 2) % 2, Rest(x, 4) % 2, Rest(x, 8) % 2,
     Rest(x, 16) % 2, Rest(x, 32) % 2, Rest(x, 64) % 2, Rest(x, 128) % 2]
  }

  lemma Halve(x: nat, m: nat)
    requires m > 0
    ensures x / (2 * m) == x / m / 2
  {
    HalveRow(x, m);
  }

  lemma HalveRow(x: nat, m: nat)
    requires m > 0
    ensures Row(x, 2 * m) == Row(Row(x, m), 2)
  {
    RowCol(x, m);
    var q, r := Row(x, m), Col(x, m);
    RowCol(q, 2);
    var a, b := Row(q, 2), Col(q, 2);
    hide Row, Col;
    Regroup(m, a, b);
    RowColOf(a, b * m + r, 2 * m);
  }

  lemma Regroup(m: nat, a: nat, b: nat)
    requires b < 2
    ensures (a * 2 + b) * m == a * (2 * m) + b * m && b * m <= m
  {
    assert b * m == if b == 0 then 0 else m;
  }

  /** The lowest bit and the rest. */
  function Rest(x: nat, m: nat): (q: nat)
    requires m > 0
  {
    x / m
  }

  lemma RestStep(x: nat, m: nat)
    requires m > 0
    ensures Rest(x, m) == 2 * Rest(x, 2 * m) + Rest(x, m) % 2
  {
    Halve(x, m);
  }

  lemma BitsOfByte(b: byte)
    ensures AreBits(ToBits(b)) && OfBits(ToBits(b)) == b
  {
    var x: nat := b;
    RestStep(x, 1);
    RestStep(x, 2);
    RestStep(x, 4);
    RestStep(x, 8);
    RestStep(x, 16);
    RestStep(x, 32);
    RestStep(x, 64);
    RestStep(x, 128);
    RestEnds(x);
    hide Rest;
  }

  lemma RestEnds(x: nat)
    requires x < 256
    ensures Rest(x, 1) == x && Rest(x, 256) == 0
  {
  }

  lemma ByteOfBits(v: seq<nat>, j: nat)
    requires AreBits(v) && j < 8
    ensures OfBits(v) < 256 && (Has(OfBits(v), Mask(j)) <==> v[j] == 1)
  {
    HighLow(v, j);
    HighOdd(v, j);
    hide HighBits, Mask, OfBits;
    Split(OfBits(v), Mask(j), HighBits(v, j), OfBits(v) - Mask(j) * HighBits(v, j));
  }

  lemma HighLow(v: seq<nat>, j: nat)
    requires AreBits(v) && j < 8
    ensures OfBits(v) < 256 && 0 <= OfBits(v) - Mask(j) * HighBits(v, j) < Mask(j)
  {
  }

  lemma HighOdd(v: seq<nat>, j: nat)
    requires AreBits(v) && j < 8
    ensures HighBits(v, j) % 2 == v[j]
  {
    var h := if j < 7 then HighBits(v, j + 1) else 0;
    HighNext(v, j, h);
    hide HighBits;
    Split(HighBits(v, j), 2, h, v[j]);
  }

  lemma HighNext(v: seq<nat>, j: nat, h: nat)
    requires |v| == 8 && j < 8 && h == if j < 7 then HighBits(v, j + 1) else 0
    ensures HighBits(v, j) == 2 * h + v[j]
  {
  }

  /** The bits from j on. */
  function HighBits(v: seq<nat>, j: nat): (r: nat)
    requires |v| == 8
  {
    if j == 0 then OfBits(v)
    else if j == 1 then v[1] + 2 * v[2] + 4 * v[3] + 8 * v[4] + 16 * v[5] + 32 * v[6] + 64 * v[7]
    else if j == 2 then v[2] + 2 * v[3] + 4 * v[4] + 8 * v[5] + 16 * v[6] + 32 * v[7]
    else if j == 3 then v[3] + 2 * v[4] + 4 * v[5] + 8 * v[6] + 16 * v[7]
    else if j == 4 then v[4] + 2 * v[5] + 4 * v[6] + 8 * v[7]
    else if j == 5 then v[5] + 2 * v[6] + 4 * v[7]
    else if j == 6 then v[6] + 2 * v[7]
    else v[7]
  }

  lemma FlippedSum(v: seq<nat>, i: nat, w: seq<nat>)
    requires |v| == |w| == 8 && i < 8 && AreBits(v) && w[i] == 1 - v[i] && forall k :: 0 <= k < 8 && k != i ==>
      w[k] == v[k]
    ensures OfBits(w) == if v[i] == 1 then OfBits(v) - Mask(i) else OfBits(v) + Mask(i)
  {
  }

  /** Flipping one bit flips that bit and no other. */
  lemma FlipBits(b: byte, i: nat, j: nat, r: nat)
    requires i < 8 && j < 8 && r == (if Has(b, Mask(i)) then b as int - Mask(i) else b as int + Mask(i))
    ensures r < 256
    ensures Has(r, Mask(j)) <==> if i == j then !Has(b, Mask(j)) else Has(b, Mask(j))
  {
    hide Has, ToBits, OfBits;
    var v := ToBits(b);
    BitsOfByte(b);
    ByteOfBits(v, i);
    ByteOfBits(v, j);
    var w := v[..i] + [1 - v[i]] + v[i + 1..];
    assert AreBits(w);
    FlippedSum(v, i, w);
    ByteOfBits(w, j);
  }

  /** The bits in the cyclic range from s up to but not including e; the whole circle when they are equal and full. */
  ghost predicate AllUsed(bm: seq<byte>, n: nat, s: nat, e: nat, wrapped: bool)
    requires n <= 8 * |bm|
  {
    if wrapped then (forall k :: s <= k < n ==> Bit(bm, k)) && (forall k :: 0 <= k < e ==> k < n ==> Bit(bm, k))
    else forall k :: s <= k < e && k < n ==> Bit(bm, k)
  }

  /** Bit r is the first clear one met going round from bit s. */
  ghost predicate FirstClear(bm: seq<byte>, n: nat, s: nat, r: nat)
    requires n <= 8 * |bm|
  {
    r < n && !Bit(bm, r) && AllUsed(bm, n, s, r, r < s)
  }

  // ----- The chain an object stands for -----

  ghost predicate InRange(n: nat, cs: seq<nat>) {
    forall i :: 0 <= i < |cs| ==> 2 <= cs[i] < n
  }

  ghost predicate Distinct(cs: seq<nat>) {
    forall i, j :: 0 <= i < j < |cs| ==> cs[i] != cs[j]
  }

  /** Clusters lo to hi of the chain have consecutive numbers. */
  ghost predicate Consecutive(cs: seq<nat>, lo: int, hi: int) {
    0 <= lo <= hi < |cs| && forall i :: lo <= i <= hi ==> cs[i] == cs[lo] + (i - lo)
  }

  /** The FAT entry of cluster i of the chain is the next cluster, for i from lo up to hi. */
  ghost predicate Linked(fat: seq<nat>, cs: seq<nat>, lo: nat, hi: nat) {
    hi < |cs| && InRange(|fat|, cs) && forall i :: lo <= i < hi ==> fat[cs[i]] == cs[i + 1]
  }

  ghost predicate Contiguous(o: Info, cs: seq<nat>) {
    o.stat == 2 && o.nFrag == 0 && Consecutive(cs, 0, |cs| - 1)
  }

  /** Where the links on the FAT begin. */
  ghost function FirstLinked(o: Info): nat { if o.stat == 3 then o.nCont else 0 }

  /** How many clusters there are in front of the last fragment kept in the object, or of the last cluster. */
  ghost function LastLinked(o: Info, cs: seq<nat>): int { if o.nFrag == 0 then |cs| - 1 else |cs| - o.nFrag }

  ghost predicate Fragmented(fat: seq<nat>, o: Info, cs: seq<nat>) {
    && (o.stat == 0 || o.stat == 3) && o.nFrag <= |cs|
    && (o.stat == 3 ==> o.nCont < LastLinked(o, cs) && Consecutive(cs, 0, o.nCont))
    && 0 <= LastLinked(o, cs) && Linked(fat, cs, FirstLinked(o), LastLinked(o, cs))
    && (o.nFrag > 0 ==> Consecutive(cs, |cs| - o.nFrag, |cs| - 1))
    && (o.nFrag == 0 ==> |fat| <= fat[cs[|cs| - 1]] % 0x8000_0000)
  }

  /** The object together with the FAT stands for this list of clusters. */
  ghost predicate Denotes(fat: seq<nat>, o: Info, cs: seq<nat>) {
    && |fat| <= MAX_EXFAT + 2
    && cs != [] && InRange(|fat|, cs) && Distinct(cs) && o.sclust == cs[0]
    && (Contiguous(o, cs) || Fragmented(fat, o, cs))
  }

  /** The FAT alone spells the list. */
  ghost predicate Spelled(fat: seq<nat>, cs: seq<nat>) {
    cs != [] && Linked(fat, cs, 0, |cs| - 1) && |fat| <= fat[cs[|cs| - 1]] % 0x8000_0000
  }

  // ----- get_fat -----

  /** get_fat for an exFAT file of size objsize, in clusters of csize sectors of ss bytes. */
  function GetFat(fat: seq<nat>, o: Info, objsize: nat, ss: nat, csize: nat, clst: nat): nat
    requires ss > 0 && csize > 0
  {
    if clst < 2 || clst >= |fat| then 1
    else if (objsize != 0 && o.sclust != 0) || o.stat == 0 then
      var cofs := (clst as int - o.sclust) % 0x1_0000_0000;
      var clen := Row(Row((objsize as int - 1) % 0x1_0000_0000_0000_0000, ss) % 0x1_0000_0000, csize);
      if o.stat == 2 && cofs <= clen then (if cofs == clen then EOC else clst + 1)
      else if o.stat == 3 && cofs < o.nCont then clst + 1
      else if o.stat != 2 then (if o.nFrag != 0 then EOC else fat[clst] % 0x8000_0000)
      else 1
    else 1
  }

  /** The size lies in the last cluster of the chain, and its sectors can be counted in 32 bits. */
  ghost predicate SizeFits(objsize: nat, ss: nat, csize: nat, n: nat) {
    && ss > 0 && csize > 0 && 0 < objsize <= 0x1_0000_0000_0000_0000
    && Row(objsize - 1, ss) < 0x1_0000_0000 && Row(Row(objsize - 1, ss), csize) == n - 1
  }

  lemma Offset(a: nat, b: nat)
    requires a < 0x1_0000_0000 && b < 0x1_0000_0000
    ensures (a as int - b) % 0x1_0000_0000 == if a >= b then a - b else a - b + 0x1_0000_0000
  {
  }

  lemma SmallMod(a: nat, m: nat)
    requires a < m
    ensures a % m == a
  {
  }

  lemma DistinctCount(cs: seq<nat>, n: nat)
    requires InRange(n, cs) && Consecutive(cs, 0, |cs| - 1)
    ensures |cs| <= n
  {
    assert cs[|cs| - 1] == cs[0] + (|cs| - 1);
  }

  lemma GetFatContiguous(fat: seq<nat>, o: Info, cs: seq<nat>, objsize: nat, ss: nat, csize: nat, i: nat)
    requires Denotes(fat, o, cs) && o.stat == 2 && SizeFits(objsize, ss, csize, |cs|) && i < |cs|
    ensures GetFat(fat, o, objsize, ss, csize, cs[i]) == if i == |cs| - 1 then EOC else cs[i + 1]
  {
    hide Row;
    DistinctCount(cs, |fat|);
    Offset(cs[i], o.sclust);
    SmallMod(objsize - 1, 0x1_0000_0000_0000_0000);
    SmallMod(Row(objsize - 1, ss), 0x1_0000_0000);
    assert i < |cs| - 1 ==> cs[i + 1] == cs[0] + (i + 1);
  }

  /** No cluster behind the first fragment looks as if it were in it. */
  lemma OutsideFirst(cs: seq<nat>, n: nat, k: nat, i: nat)
    requires InRange(n, cs) && Distinct(cs) && n <= MAX_EXFAT + 2 && Consecutive(cs, 0, k) && i < |cs|
    ensures (cs[i] as int - cs[0]) % 0x1_0000_0000 < k <==> i < k
  {
    Offset(cs[i], cs[0]);
    assert i < k ==> cs[i] == cs[0] + i;
    assert cs[k] == cs[0] + k;
    var d: int := cs[i] as int - cs[0];
    assert 0 <= d < k ==> cs[d] == cs[0] + d;
  }

  /** What get_fat answers for cluster i of the list. */
  lemma GetFatFragmented(fat: seq<nat>, o: Info, cs: seq<nat>, objsize: nat, ss: nat, csize: nat, i: nat)
    requires Denotes(fat, o, cs) && o.stat != 2 && SizeFits(objsize, ss, csize, |cs|) && i < |cs|
    ensures var v := GetFat(fat, o, objsize, ss, csize, cs[i]);
      && (i < |cs| - 1 && (o.nFrag == 0 || (o.stat == 3 && i < o.nCont)) ==> v == cs[i + 1])
      && (i == |cs| - 1 && o.nFrag == 0 ==> v >= |fat|)
      && (o.nFrag != 0 && !(o.stat == 3 && i < o.nCont) ==> v == EOC)
  {
    hide Row;
    if o.stat == 3 {
      OutsideFirst(cs, |fat|, o.nCont, i);
      assert i < o.nCont ==> cs[i] == cs[0] + i && cs[i + 1] == cs[0] + (i + 1);
    }
    if i < |cs| - 1 && o.nFrag == 0 {
      assert i >= FirstLinked(o) ==> fat[cs[i]] == cs[i + 1];
      SmallMod(cs[i + 1], 0x8000_0000);
    }
  }

  /** At the end of the list get_fat answers an end mark, whatever the state. */
  lemma GetFatAtEnd(fat: seq<nat>, o: Info, cs: seq<nat>, objsize: nat, ss: nat, csize: nat)
    requires Denotes(fat, o, cs) && SizeFits(objsize, ss, csize, |cs|)
    ensures |fat| <= GetFat(fat, o, objsize, ss, csize, cs[|cs| - 1])
    ensures o.stat == 2 || o.nFrag != 0 ==> GetFat(fat, o, objsize, ss, csize, cs[|cs| - 1]) == 0x7FFF_FFFF
  {
    hide GetFat, Denotes;
    DenotesFacts(fat, o, cs);
    if o.stat == 2 {
      GetFatContiguous(fat, o, cs, objsize, ss, csize, |cs| - 1);
    } else {
      GetFatFragmented(fat, o, cs, objsize, ss, csize, |cs| - 1);
    }
  }

  /** Numbers that no cluster has are answered by 1, and so is everything about an object without clusters. */
  lemma GetFatOutside(fat: seq<nat>, o: Info, objsize: nat, ss: nat, csize: nat, clst: nat)
    requires ss > 0 && csize > 0
    requires clst < 2 || clst >= |fat| || (o.stat != 0 && (objsize == 0 || o.sclust == 0))
    ensures GetFat(fat, o, objsize, ss, csize, clst) == 1
  {
  }

  lemma DenotesFacts(fat: seq<nat>, o: Info, cs: seq<nat>)
    requires Denotes(fat, o, cs)
    ensures cs != [] && |fat| <= MAX_EXFAT + 2 && o.sclust == cs[0] && (o.stat == 0 || o.stat == 2 || o.stat == 3)
    ensures forall i :: 0 <= i < |cs| ==> 2 <= cs[i] < |fat|
    ensures o.stat == 3 ==> o.nCont < |cs| - 1
  {
  }

  /**
   * In the middle of the list get_fat follows it unless the last fragment is still kept in the object; then it
   * does so in the first fragment only.
   */
  lemma GetFatFollows(fat: seq<nat>, o: Info, cs: seq<nat>, objsize: nat, ss: nat, csize: nat, i: nat)
    requires Denotes(fat, o, cs) && SizeFits(objsize, ss, csize, |cs|) && i < |cs| - 1
    ensures GetFat(fat, o, objsize, ss, csize, cs[i]) == cs[i + 1] <==>
      o.stat == 2 || o.nFrag == 0 || (o.stat == 3 && i < o.nCont)
  {
    hide GetFat, Denotes;
    DenotesFacts(fat, o, cs);
    if o.stat == 2 {
      GetFatContiguous(fat, o, cs, objsize, ss, csize, i);
    } else {
      GetFatFragmented(fat, o, cs, objsize, ss, csize, i);
    }
  }

  // ----- Filling in what the object keeps -----

  /** Clusters 5, 2 and 3, the last two not yet on the FAT: from 2, get_fat does not lead to 3. */
  lemma LastFragmentHidden()
    ensures var fat, o, cs := [0, 0, 0, 0, 0, 2], Info(5, 0, 0, 2), [5, 2, 3];
      Denotes(fat, o, cs) && SizeFits(1536, 512, 1, 3) && GetFat(fat, o, 1536, 512, 1, 2) == EOC != 3
  {
    var fat, o, cs: seq<nat> := [0, 0, 0, 0, 0, 2], Info(5, 0, 0, 2), [5, 2, 3];
    assert Linked(fat, cs, 0, 1) && Consecutive(cs, 1, 2);
  }

  /** The FAT after fill_last_frag of m clusters ending with lcl. */
  ghost function FilledLast(fat: seq<nat>, m: nat, lcl: nat, term: nat): (u: seq<nat>)
    requires m <= lcl + 1 && lcl < |fat|
    ensures |u| == |fat|
    ensures forall c :: 0 <= c < |fat| ==>
      u[c] == if lcl - m < c < lcl then c + 1 else if m > 0 && c == lcl then term else fat[c]
    decreases m
  {
    if m == 0 then fat
    else FilledLast(fat[lcl - m + 1 := if m > 1 then lcl - m + 2 else term], m - 1, lcl, term)
  }

  /** The FAT after fill_first_frag of k clusters from c on. */
  ghost function FilledFirst(fat: seq<nat>, c: nat, k: nat): (u: seq<nat>)
    requires c + k <= |fat|
    ensures |u| == |fat|
    ensures forall i :: 0 <= i < |fat| ==> u[i] == if c <= i < c + k then i + 1 else fat[i]
    decreases k
  {
    if k == 0 then fat else FilledFirst(fat[c := c + 1], c + 1, k - 1)
  }

  /** A run of the list ends with its last cluster and spans as many numbers as clusters. */
  lemma RunSpan(cs: seq<nat>, n: nat, lo: nat, hi: nat, i: nat)
    requires InRange(n, cs) && Distinct(cs) && Consecutive(cs, lo, hi) && i < |cs|
    ensures cs[lo] + (hi - lo) == cs[hi]
    ensures cs[lo] <= cs[i] <= cs[hi] <==> lo <= i <= hi
    ensures lo <= i < hi ==> cs[i + 1] == cs[i] + 1
  {
    assert lo <= i < hi ==> cs[i + 1] == cs[lo] + (i + 1 - lo);
    var d: int := lo + (cs[i] as int - cs[lo]);
    assert lo <= d <= hi ==> cs[d] == cs[lo] + (d - lo);
  }

  /** Filling the last fragment links the list up to its last cluster, which gets the given entry. */
  lemma LastFilled(fat: seq<nat>, cs: seq<nat>, k: nat, m: nat, term: nat)
    requires InRange(|fat|, cs) && Distinct(cs) && 0 < m <= |cs| && Linked(fat, cs, k, |cs| - m) &&
      Consecutive(cs, |cs| - m, |cs| - 1)
    ensures m <= cs[|cs| - 1] + 1 && cs[|cs| - 1] < |fat|
    ensures var u := FilledLast(fat, m, cs[|cs| - 1], term);
      && Linked(u, cs, k, |cs| - 1) && u[cs[|cs| - 1]] == term
      && forall c :: 0 <= c < |fat| && c !in cs ==> u[c] == fat[c]
  {
    var n := |cs|;
    RunSpan(cs, |fat|, n - m, n - 1, n - 1);
    var u := FilledLast(fat, m, cs[n - 1], term);
    forall i | k <= i < n - 1
      ensures u[cs[i]] == cs[i + 1]
    {
      RunSpan(cs, |fat|, n - m, n - 1, i);
    }
    forall c | 0 <= c < |fat| && c !in cs
      ensures u[c] == fat[c]
    {
      NotInRun(cs, n - m, n - 1, c);
    }
  }

  lemma {:induction false} NotInRun(cs: seq<nat>, lo: nat, hi: nat, c: nat)
    requires Consecutive(cs, lo, hi) && c !in cs
    ensures !(cs[lo] <= c <= cs[lo] + (hi - lo))
    decreases hi
  {
    assert cs[hi] in cs && cs[hi] == cs[lo] + (hi - lo);
    if lo < hi {
      NotInRun(cs, lo, hi - 1, c);
    }
  }

  /** What create_chain leaves in the object and on the FAT when it hands out cluster ncl behind clst. */
  ghost function Stretched(fat: seq<nat>, o: Info, clst: nat, ncl: nat): (r: (seq<nat>, Info))
    requires clst < |fat| && (o.nFrag <= clst + 1) && (clst != 0 && o.stat == 2 && ncl != clst + 1 ==> o.sclust <= clst)
    ensures |r.0| == |fat|
  {
    if clst == 0 then (fat, o.(stat := 2))
    else
      var o1 := if o.stat == 2 && ncl != clst + 1 then o.(nCont := clst - o.sclust, stat := 3) else o;
      if o1.stat == 2 then (fat, o1)
      else if ncl == clst + 1 then (fat, o1.(nFrag := if o1.nFrag > 0 then o1.nFrag + 1 else 2))
      else (FilledLast(fat, if o1.nFrag == 0 then 1 else o1.nFrag, clst, ncl), o1.(nFrag := 1))
  }

  ghost predicate Fresh(n: nat, cs: seq<nat>, ncl: nat) {
    2 <= ncl < n && ncl !in cs
  }

  lemma Appended(n: nat, cs: seq<nat>, ncl: nat)
    requires InRange(n, cs) && Distinct(cs) && Fresh(n, cs, ncl)
    ensures InRange(n, cs + [ncl]) && Distinct(cs + [ncl])
  {
  }

  lemma ConsecutiveSame(cs: seq<nat>, lo: int, hi: int, ncl: nat)
    requires Consecutive(cs, lo, hi)
    ensures Consecutive(cs + [ncl], lo, hi)
  {
  }

  lemma LinkedSame(fat: seq<nat>, cs: seq<nat>, lo: nat, hi: nat, ncl: nat)
    requires Linked(fat, cs, lo, hi) && Fresh(|fat|, cs, ncl)
    ensures Linked(fat, cs + [ncl], lo, hi)
  {
    var ds := cs + [ncl];
    forall i | lo <= i < hi
      ensures fat[ds[i]] == ds[i + 1]
    {
      assert ds[i] == cs[i] && ds[i + 1] == cs[i + 1];
    }
  }

  lemma ConsecutiveMore(cs: seq<nat>, lo: nat, ncl: nat)
    requires lo < |cs| && Consecutive(cs, lo, |cs| - 1) && ncl == cs[|cs| - 1] + 1
    ensures Consecutive(cs + [ncl], lo, |cs|)
  {
  }

  /** A contiguous file goes on contiguously, or has just become fragmented. */
  lemma StretchContiguous(fat: seq<nat>, o: Info, cs: seq<nat>, ncl: nat)
    requires Denotes(fat, o, cs) && o.stat == 2 && Fresh(|fat|, cs, ncl)
    ensures o.nFrag == 0 && o.sclust <= cs[|cs| - 1]
    ensures var r := Stretched(fat, o, cs[|cs| - 1], ncl);
      && Denotes(r.0, r.1, cs + [ncl])
      && forall c :: 0 <= c < |fat| && c !in cs ==> r.0[c] == fat[c]
  {
    hide Linked, Distinct, InRange;
    var l := cs[|cs| - 1];
    RunSpan(cs, |fat|, 0, |cs| - 1, |cs| - 1);
    Appended(|fat|, cs, ncl);
    if ncl == l + 1 {
      ConsecutiveMore(cs, 0, ncl);
    } else {
      LinkedNone(fat, cs, |cs| - 1);
      LastFilled(fat, cs, |cs| - 1, 1, ncl);
      LinkedMore(FilledLast(fat, 1, l, ncl), cs, |cs| - 1, ncl);
    }
  }

  lemma LinkedNone(fat: seq<nat>, cs: seq<nat>, k: nat)
    requires InRange(|fat|, cs) && k < |cs|
    ensures Linked(fat, cs, k, k)
  {
  }

  lemma LinkedMore(u: seq<nat>, cs: seq<nat>, k: nat, ncl: nat)
    requires cs != [] && Fresh(|u|, cs, ncl) && Linked(u, cs, k, |cs| - 1) && u[cs[|cs| - 1]] == ncl
    ensures Linked(u, cs + [ncl], k, |cs|)
  {
    var ds := cs + [ncl];
    forall i | k <= i < |cs|
      ensures u[ds[i]] == ds[i + 1]
    {
      assert ds[i] == cs[i] && (i + 1 < |cs| ==> ds[i + 1] == cs[i + 1]);
    }
  }

  /** The last fragment goes on. */
  lemma StretchNext(fat: seq<nat>, o: Info, cs: seq<nat>, m: nat)
    requires Denotes(fat, o, cs) && o.stat != 2 && Fresh(|fat|, cs, cs[|cs| - 1] + 1)
    requires m == if o.nFrag == 0 then 1 else o.nFrag
    ensures Denotes(fat, o.(nFrag := m + 1), cs + [cs[|cs| - 1] + 1])
  {
    hide Linked, Distinct, InRange, Consecutive, Fresh;
    var ncl := cs[|cs| - 1] + 1;
    OneCluster(cs);
    Appended(|fat|, cs, ncl);
    ConsecutiveMore(cs, |cs| - m, ncl);
    LinkedSame(fat, cs, FirstLinked(o), LastLinked(o, cs), ncl);
    if o.stat == 3 {
      ConsecutiveSame(cs, 0, o.nCont, ncl);
    }
  }

  lemma OneCluster(cs: seq<nat>)
    requires cs != []
    ensures Consecutive(cs, |cs| - 1, |cs| - 1)
  {
  }

  /** A new fragment begins: the last one goes onto the FAT. */
  lemma StretchNew(fat: seq<nat>, o: Info, cs: seq<nat>, m: nat, ncl: nat)
    requires Denotes(fat, o, cs) && o.stat != 2 && Fresh(|fat|, cs, ncl)
    requires m == if o.nFrag == 0 then 1 else o.nFrag
    ensures m <= cs[|cs| - 1] + 1
    ensures var u := FilledLast(fat, m, cs[|cs| - 1], ncl);
      && Denotes(u, o.(nFrag := 1), cs + [ncl])
      && forall c :: 0 <= c < |fat| && c !in cs ==> u[c] == fat[c]
  {
    hide Linked, Distinct, InRange, Consecutive, Fresh, FilledLast;
    OneCluster(cs);
    OneCluster(cs + [ncl]);
    Appended(|fat|, cs, ncl);
    LastFilled(fat, cs, FirstLinked(o), m, ncl);
    LinkedMore(FilledLast(fat, m, cs[|cs| - 1], ncl), cs, FirstLinked(o), ncl);
    if o.stat == 3 {
      ConsecutiveSame(cs, 0, o.nCont, ncl);
    }
  }

  lemma StretchFragmented(fat: seq<nat>, o: Info, cs: seq<nat>, ncl: nat)
    requires Denotes(fat, o, cs) && o.stat != 2 && Fresh(|fat|, cs, ncl)
    ensures o.nFrag <= cs[|cs| - 1] + 1
    ensures var r := Stretched(fat, o, cs[|cs| - 1], ncl);
      && Denotes(r.0, r.1, cs + [ncl])
      && forall c :: 0 <= c < |fat| && c !in cs ==> r.0[c] == fat[c]
  {
    hide Denotes, Fresh, FilledLast;
    LastBound(fat, o, cs);
    var l, m := cs[|cs| - 1], if o.nFrag == 0 then 1 else o.nFrag;
    if ncl == l + 1 {
      StretchNext(fat, o, cs, m);
    } else {
      StretchNew(fat, o, cs, m, ncl);
    }
  }

  /**
   * Growing at the end: the object goes on to denote exactly the clusters handed out, and no other chain is touched.
   */
  lemma StretchDenotes(fat: seq<nat>, o: Info, cs: seq<nat>, ncl: nat)
    requires Denotes(fat, o, cs) && Fresh(|fat|, cs, ncl)
    ensures o.nFrag <= cs[|cs| - 1] + 1 && (o.stat == 2 ==> o.sclust <= cs[|cs| - 1])
    ensures var r := Stretched(fat, o, cs[|cs| - 1], ncl);
      && Denotes(r.0, r.1, cs + [ncl])
      && forall c :: 0 <= c < |fat| && c !in cs ==> r.0[c] == fat[c]
  {
    hide Denotes, Stretched;
    if o.stat == 2 {
      StretchContiguous(fat, o, cs, ncl);
    } else {
      StretchFragmented(fat, o, cs, ncl);
    }
  }

  /** The first cluster of a new file, once the caller has made it the start cluster. */
  lemma FirstDenotes(fat: seq<nat>, o: Info, ncl: nat)
    requires |fat| <= MAX_EXFAT + 2 && 2 <= ncl < |fat| && o.nFrag == 0
    ensures Stretched(fat, o, 0, ncl).0 == fat && Denotes(fat, Stretched(fat, o, 0, ncl).1.(sclust := ncl), [ncl])
  {
  }

  /** The FAT after both fragments kept in the object have been written. */
  ghost function Synced(fat: seq<nat>, o: Info, lcl: nat): (u: seq<nat>)
    requires o.nFrag <= lcl + 1 && lcl < |fat| && (o.stat == 3 ==> o.sclust + o.nCont <= |fat|)
    ensures |u| == |fat|
  {
    var f := if o.stat == 3 then FilledFirst(fat, o.sclust, o.nCont) else fat;
    FilledLast(f, o.nFrag, lcl, 0xFFFF_FFFF)
  }

  lemma FirstFilled(fat: seq<nat>, cs: seq<nat>, k: nat, h: nat)
    requires InRange(|fat|, cs) && Distinct(cs) && Consecutive(cs, 0, k) && k <= h && Linked(fat, cs, k, h)
    ensures cs[0] + k <= |fat|
    ensures var u := FilledFirst(fat, cs[0], k);
      && Linked(u, cs, 0, h) && (h == |cs| - 1 ==> u[cs[h]] == fat[cs[h]])
      && forall c :: 0 <= c < |fat| && c !in cs ==> u[c] == fat[c]
  {
    RunSpan(cs, |fat|, 0, k, k);
    var u := FilledFirst(fat, cs[0], k);
    forall i | 0 <= i <= h && i < |cs|
      ensures i < h ==> u[cs[i]] == cs[i + 1]
      ensures i >= k ==> u[cs[i]] == fat[cs[i]]
    {
      RunSpan(cs, |fat|, 0, k, i);
    }
    forall c | 0 <= c < |fat| && c !in cs
      ensures u[c] == fat[c]
    {
      NotInRun(cs, 0, k, c);
    }
  }

  /**
   * After f_sync, a file that is not marked contiguous is spelled by the FAT alone, and nothing else is changed there.
   */
  lemma SyncSpells(fat: seq<nat>, o: Info, cs: seq<nat>)
    requires Denotes(fat, o, cs) && o.stat != 2
    ensures o.nFrag <= cs[|cs| - 1] + 1 && (o.stat == 3 ==> o.sclust + o.nCont <= |fat|)
    ensures var u := Synced(fat, o, cs[|cs| - 1]);
      && Spelled(u, cs)
      && forall c :: 0 <= c < |fat| && c !in cs ==> u[c] == fat[c]
  {
    hide Linked, Distinct, InRange;
    var l := cs[|cs| - 1];
    var f := fat;
    if o.stat == 3 {
      FirstFilled(fat, cs, o.nCont, LastLinked(o, cs));
      f := FilledFirst(fat, o.sclust, o.nCont);
    }
    if o.nFrag > 0 {
      RunSpan(cs, |fat|, |cs| - o.nFrag, |cs| - 1, |cs| - 1);
      LastFilled(f, cs, 0, o.nFrag, 0xFFFF_FFFF);
    }
  }

  /** With its last fragment on the FAT, a file denotes what it did. */
  lemma LastKept(fat: seq<nat>, o: Info, cs: seq<nat>)
    requires Denotes(fat, o, cs) && o.stat != 2
    ensures cs != [] && o.nFrag <= cs[|cs| - 1] + 1 && cs[|cs| - 1] < |fat|
    ensures var u := FilledLast(fat, o.nFrag, cs[|cs| - 1], 0xFFFF_FFFF);
      && Denotes(u, o.(nFrag := 0), cs)
      && forall c :: 0 <= c < |fat| && c !in cs ==> u[c] == fat[c]
  {
    hide Linked, Distinct, InRange, FilledLast, Consecutive;
    LastInside(fat, o, cs);
    if o.nFrag > 0 {
      LastFilled(fat, cs, FirstLinked(o), o.nFrag, 0xFFFF_FFFF);
    } else {
      NothingToFill(fat, cs[|cs| - 1]);
    }
  }

  lemma LastInside(fat: seq<nat>, o: Info, cs: seq<nat>)
    requires Denotes(fat, o, cs)
    ensures cs != [] && cs[|cs| - 1] < |fat|
  {
  }

  /** A file found on the drive, with its clusters on the FAT or in one run, denotes them. */
  lemma Reopened(fat: seq<nat>, o: Info, cs: seq<nat>)
    requires |fat| <= MAX_EXFAT + 2 && InRange(|fat|, cs) && Distinct(cs) && cs != [] && o.sclust == cs[0] &&
      o.nFrag == 0
    requires if o.stat == 2 then Consecutive(cs, 0, |cs| - 1) else o.stat == 0 && Spelled(fat, cs)
    ensures Denotes(fat, o, cs)
  {
  }

  /** A file still marked contiguous after any run of growth is one run of clusters from its start cluster. */
  lemma ContiguousMeans(fat: seq<nat>, o: Info, cs: seq<nat>)
    requires Denotes(fat, o, cs) && o.stat == 2
    ensures forall i :: 0 <= i < |cs| ==> cs[i] == o.sclust + i
  {
  }

  // ----- The volume -----

  /** The chain status of an open file. */
  class Object {
    var sclust: nat
    var stat: nat
    var nCont: nat
    var nFrag: nat
    var objsize: nat

    constructor (sclust: nat, stat: nat, objsize: nat)
      ensures State() == Info(sclust, stat, 0, 0) && this.objsize == objsize
    {
      this.sclust, this.stat, nCont, nFrag, this.objsize := sclust, stat, 0, 0, objsize;
    }

    function State(): (o: Info)
      reads this
    {
      Info(sclust, stat, nCont, nFrag)
    }
  }

  class Volume {
    const nFatent: nat
    const ss: nat
    const csize: nat
    const fat: array<nat>
    const bitmap: array<byte>
    var lastClst: nat
    var freeClst: nat

    ghost predicate Valid()
      reads this
    {
      && 2 < nFatent <= MAX_EXFAT + 2 && fat.Length == nFatent && nFatent - 2 <= 8 * bitmap.Length
      && ss > 0 && csize > 0
    }

    constructor (ss: nat, csize: nat, fat: array<nat>, bitmap: array<byte>)
      requires 2 < fat.Length <= MAX_EXFAT + 2 && fat.Length - 2 <= 8 * bitmap.Length && ss > 0 && csize > 0
      ensures Valid() && this.fat == fat && this.bitmap == bitmap && this.ss == ss && this.csize == csize
      ensures lastClst == freeClst == 0xFFFF_FFFF
    {
      nFatent, this.ss, this.csize, this.fat, this.bitmap := fat.Length, ss, csize, fat, bitmap;
      lastClst, freeClst := 0xFFFF_FFFF, 0xFFFF_FFFF;
    }

    /** Where the scan for a clear bit is: bits from s on up to val, going round, are set. */
    ghost predicate Scanned(s: nat, val: nat, wrapped: bool)
      requires Valid()
      reads this, bitmap
    {
      && s < nFatent - 2 && val < nFatent - 2
      && (if wrapped then val < s else s <= val)
      && AllUsed(bitmap[..], nFatent - 2, s, val, wrapped)
    }

    ghost predicate AllSet()
      requires Valid()
      reads this, bitmap
    {
      forall k :: 0 <= k < nFatent - 2 ==> Bit(bitmap[..], k)
    }

    /** One bit further. */
    lemma ScanStep(s: nat, val: nat, wrapped: bool)
      requires Valid() && Scanned(s, val, wrapped)
      ensures !Bit(bitmap[..], val) ==> FirstClear(bitmap[..], nFatent - 2, s, val)
      ensures var v := if val + 1 >= nFatent - 2 then 0 else val + 1;
        var w := wrapped || v == 0;
        Bit(bitmap[..], val) ==> if v == s then AllSet() else Scanned(s, v, w)
    {
      hide Bit;
    }

    /** The bits of one byte, from the one at mask bm on. */
    method ScanByte(s: nat, val0: nat, i: nat, at: nat, bm0: nat, ghost wrapped0: bool)
      returns (done: bool, scl: nat, val: nat, i': nat, ghost wrapped: bool)
      requires Valid() && Scanned(s, val0, wrapped0) && i < ss && at == val0 / 8 && bm0 == Mask(val0 % 8)
      ensures done && scl != 0 ==> 2 <= scl && FirstClear(bitmap[..], nFatent - 2, s, scl - 2)
      ensures done && scl == 0 ==> AllSet()
      ensures !done ==> Scanned(s, val, wrapped) && (wrapped0 ==> wrapped)
      ensures !done ==>
        if i' == i then val % 8 == 0 && val / 8 == at + 1 && val0 < val && wrapped == wrapped0
        else i' == ss && val == 0 && wrapped && !wrapped0
    {
      hide Bit, FirstClear, AllUsed;
      val, i', wrapped := val0, i, wrapped0;
      var bm := bm0;
      while true
        invariant Scanned(s, val, wrapped) && wrapped == wrapped0 && val0 <= val && i' == i
        invariant bm == Mask(val % 8) && at == val / 8
        decreases nFatent - val
      {
        ScanStep(s, val, wrapped);
        MaskStep(val);
        BitAt(bitmap[..], val);
        var bv := Has(bitmap[at], bm);
        bm := bm * 2 % 256;
        scl := val;
        val := val + 1;
        if val >= nFatent - 2 {
          val, bm, i' := 0, 0, ss;
          wrapped := true;
        }
        if !bv {
          return true, scl + 2, val, i', wrapped;
        }
        if val == s {
          return true, 0, val, i', wrapped;
        }
        if bm == 0 {
          return false, 0, val, i', wrapped;
        }
      }
    }

    /** The bytes of the bitmap sector that holds bit val0. */
    method ScanSector(s: nat, val0: nat, ghost wrapped0: bool)
      returns (done: bool, scl: nat, val: nat, ghost wrapped: bool)
      requires Valid() && Scanned(s, val0, wrapped0)
      ensures done && scl != 0 ==> 2 <= scl && FirstClear(bitmap[..], nFatent - 2, s, scl - 2)
      ensures done && scl == 0 ==> AllSet()
      ensures !done ==> Scanned(s, val, wrapped) && (wrapped0 ==> wrapped) && (wrapped == wrapped0 ==> val0 < val)
    {
      hide Bit, FirstClear, AllUsed;
      var base := val0 / 8 / ss;
      var i := val0 / 8 % ss;
      var bm := Mask(val0 % 8);
      val, wrapped := val0, wrapped0;
      SectorByte(val0 / 8, ss);
      while true
        invariant i < ss && base * ss + i == val / 8 && bm == Mask(val % 8)
        invariant Scanned(s, val, wrapped) && wrapped == wrapped0 && val0 <= val
        decreases nFatent - val
      {
        ghost var before := val;
        done, scl, val, i, wrapped := ScanByte(s, val, i, base * ss + i, bm, wrapped);
        if done {
          return;
        }
        bm := 1;
        i := i + 1;
        if i >= ss {
          break;
        }
      }
      done, scl := false, 0;
    }

    /** find_bitmap for one cluster: the first free one going round from clst; 0 when there is none. */
    method FindBitmap(clst: nat) returns (r: nat)
      requires Valid()
      ensures r == 0 ==> AllSet()
      ensures r != 0 ==>
        2 <= r < nFatent && !Bit(bitmap[..], r - 2) &&
        FirstClear(bitmap[..], nFatent - 2, if 2 <= clst < nFatent then clst - 2 else 0, r - 2)
    {
      hide Bit;
      var s: nat := if clst < 2 || clst - 2 >= nFatent - 2 then 0 else clst - 2;
      var val := s;
      ghost var wrapped := false;
      while true
        invariant Scanned(s, val, wrapped)
        decreases !wrapped, nFatent - val
      {
        var done;
        done, r, val, wrapped := ScanSector(s, val, wrapped);
        if done {
          return;
        }
      }
    }

    /** change_bitmap for one cluster to be marked in use. */
    method SetBit(clst: nat) returns (res: Res)
      requires Valid() && 2 <= clst < nFatent
      modifies bitmap
      ensures res == IntErr <==> old(Bit(bitmap[..], clst - 2))
      ensures res == IntErr ==> bitmap[..] == old(bitmap[..])
      ensures res == Ok ==> OneMore(old(bitmap[..]), bitmap[..], clst - 2)
    {
      hide Has;
      var k := clst - 2;
      var b := bitmap[k / 8];
      var bm := Mask(k % 8);
      if Has(b, bm) {
        return IntErr;
      }
      SetIsFlip(bitmap[..], k);
      bitmap[k / 8] := b + bm;
      assert bitmap[..] == WithByte(old(bitmap[..]), k / 8, b + bm);
      res := Ok;
    }

    /** put_fat. */
    method PutFat(clst: nat, val: nat) returns (res: Res)
      requires Valid()
      modifies fat
      ensures res == (if 2 <= clst < nFatent then Ok else IntErr)
      ensures res == IntErr ==> fat[..] == old(fat[..])
      ensures res == Ok ==> fat[..] == WithEntry(old(fat[..]), clst, val)
    {
      res := IntErr;
      if clst >= 2 && clst < nFatent {
        fat[clst] := val;
        res := Ok;
      }
    }

    method FillFirstFrag(o: Object) returns (res: Res)
      requires Valid() && (o.stat == 3 ==> 2 <= o.sclust && o.sclust + o.nCont <= nFatent)
      modifies fat, o`stat
      ensures res == Ok && o.stat == if old(o.stat) == 3 then 0 else old(o.stat)
      ensures fat[..] == if old(o.stat) == 3 then FilledFirst(old(fat[..]), o.sclust, o.nCont) else old(fat[..])
    {
      if o.stat == 3 {
        var cl, n := o.sclust, o.nCont;
        while n > 0
          invariant 0 <= n && o.sclust <= cl && cl + n == o.sclust + o.nCont
          invariant FilledFirst(fat[..], cl, n) == FilledFirst(old(fat[..]), o.sclust, o.nCont)
        {
          res := PutFat(cl, cl + 1);
          if res != Ok {
            return;
          }
          cl := cl + 1;
          n := n - 1;
        }
        o.stat := 0;
      }
      res := Ok;
    }

    method FillLastFrag(o: Object, lcl: nat, term: nat) returns (res: Res)
      requires Valid() && o.nFrag + 1 <= lcl && lcl < nFatent
      modifies fat, o`nFrag
      ensures res == Ok && o.nFrag == 0
      ensures fat[..] == FilledLast(old(fat[..]), old(o.nFrag), lcl, term)
    {
      while o.nFrag > 0
        invariant 0 <= o.nFrag && o.nFrag + 1 <= lcl
        invariant FilledLast(fat[..], o.nFrag, lcl, term) == FilledLast(old(fat[..]), old(o.nFrag), lcl, term)
      {
        res := PutFat(lcl - o.nFrag + 1, if o.nFrag > 1 then lcl - o.nFrag + 2 else term);
        if res != Ok {
          return;
        }
        o.nFrag := o.nFrag - 1;
      }
      res := Ok;
    }

    /** The part of create_chain that keeps account of a cluster ncl just taken behind clst. */
    method Extend(o: Object, clst: nat, ncl: nat) returns (res: Res)
      requires Valid() && clst < nFatent && (clst == 0 ==> o.nFrag == 0)
      requires clst != 0 ==> 2 <= clst && o.nFrag + 1 <= clst && (o.stat == 2 ==> o.sclust <= clst)
      modifies o, fat
      ensures res == Ok && (fat[..], o.State()) == Stretched(old(fat[..]), old(o.State()), clst, ncl)
      ensures o.objsize == old(o.objsize)
    {
      hide FilledLast;
      if clst == 0 {
        o.stat := 2;
      } else {
        if o.stat == 2 && ncl != clst + 1 {
          o.nCont := clst - o.sclust;
          o.stat := 3;
        }
      }
      res := Ok;
      if o.stat != 2 {
        if ncl == clst + 1 {
          o.nFrag := if o.nFrag > 0 then o.nFrag + 1 else 2;
        } else {
          if o.nFrag == 0 {
            o.nFrag := 1;
          }
          res := FillLastFrag(o, clst, ncl);
          if res == Ok {
            o.nFrag := 1;
          }
        }
      }
    }

    /** Every cluster of the list is marked in use. */
    ghost predicate InUse(cs: seq<nat>)
      requires Valid()
      reads this, bitmap
    {
      forall i :: 0 <= i < |cs| ==> Used(bitmap[..], cs[i])
    }

    /** The count of free clusters is right, or unknown. */
    ghost predicate CountOk()
      requires Valid()
      reads this, bitmap
    {
      freeClst == Clear(bitmap[..], nFatent - 2) || freeClst > nFatent - 2
    }

    /**
     * The object and the FAT stand for this list, whose clusters are marked in use; the empty list is that of a file
     * without any.
     */
    ghost predicate Holds(o: Object, cs: seq<nat>)
      requires Valid()
      reads this, fat, bitmap, o
    {
      InUse(cs) && if cs == [] then o.nFrag == 0 else Denotes(fat[..], o.State(), cs)
    }

    /** May get_fat be asked for cluster i of the list?  Not while a last fragment behind it is kept in the object. */
    ghost predicate Followable(o: Object, cs: seq<nat>, i: nat)
      reads o
    {
      i < |cs| && (i < |cs| - 1 ==> o.stat == 2 || o.nFrag == 0 || (o.stat == 3 && i < o.nCont))
    }

    /**
     * create_chain called for cluster i of a file's list, or for none: follows the list, or takes the first free
     * cluster behind its end.  A new file's start cluster is set by the caller.
     */
    method CreateChain(o: Object, clst: nat, ghost cs: seq<nat>, ghost i: nat) returns (r: nat)
      requires Valid() && CountOk() && Holds(o, cs)
      requires if cs == [] then clst == 0
        else Followable(o, cs, i) && clst == cs[i] && SizeFits(o.objsize, ss, csize, |cs|)
      modifies o, fat, bitmap, `lastClst, `freeClst
      ensures CountOk() && o.objsize == old(o.objsize)
      ensures i + 1 < |cs| ==> r == cs[i + 1]
      ensures i + 1 >= |cs| ==> (r == 0 <==> old(AllSet()))
      ensures r == 0 || i + 1 < |cs| ==>
        fat[..] == old(fat[..]) && bitmap[..] == old(bitmap[..]) && o.State() == old(o.State())
      ensures i + 1 >= |cs| && r != 0 ==> 2 <= r && OneMore(old(bitmap[..]), bitmap[..], r - 2) && lastClst == r
      ensures i + 1 >= |cs| && r != 0 ==> (var last := if clst != 0 then clst else old(lastClst);
        FirstClear(old(bitmap[..]), nFatent - 2, if 2 <= last < nFatent then last - 2 else 0, r - 2))
      ensures i + 1 >= |cs| && r != 0 ==>
        InUse(cs + [r]) && Denotes(fat[..], if cs == [] then o.State().(sclust := r) else o.State(), cs + [r])
      ensures forall c :: 0 <= c < nFatent && c !in cs ==> fat[c] == old(fat[c])
    {
      hide Bit, Denotes, FirstClear, AllUsed, GetFat, Clear, OneMore, Stretched, Used;
      var scl: nat;
      NoneDenotes(fat[..], o.State(), cs);
      if clst == 0 {
        scl := lastClst;
        if scl == 0 || scl >= nFatent {
          scl := 1;
        }
      } else {
        GetFatAt(fat[..], o.State(), cs, o.objsize, ss, csize, i);
        var st := GetFat(fat[..], o.State(), o.objsize, ss, csize, clst);
        if st < nFatent {
          return Sane(st);
        }
        scl := clst;
      }
      ClearNone(bitmap[..], nFatent - 2);
      if freeClst == 0 {
        return 0;
      }
      var ncl := FindBitmap(scl);
      if ncl == 0 {
        return 0;
      }
      r := Take(o, clst, ncl, cs);
    }

    /** The rest of create_chain, for a free cluster. */
    method Take(o: Object, clst: nat, ncl: nat, ghost cs: seq<nat>) returns (r: nat)
      requires Valid() && CountOk() && Holds(o, cs)
      requires 2 <= ncl < nFatent && !Bit(bitmap[..], ncl - 2)
      requires if cs == [] then clst == 0 else clst == cs[|cs| - 1]
      modifies o, fat, bitmap, `lastClst, `freeClst
      ensures CountOk() && o.objsize == old(o.objsize)
      ensures r == ncl && OneMore(old(bitmap[..]), bitmap[..], r - 2) && lastClst == r
      ensures InUse(cs + [r]) && Denotes(fat[..], if cs == [] then o.State().(sclust := r) else o.State(), cs + [r])
      ensures forall c :: 0 <= c < nFatent && c !in cs ==> fat[c] == old(fat[c])
    {
      hide Bit, Denotes, Clear, OneMore, Stretched, Used;
      ghost var bm, f, st := bitmap[..], fat[..], o.State();
      FreshIn(bm, nFatent, cs, ncl);
      if cs == [] {
        FirstDenotes(f, st, ncl);
        assert cs + [ncl] == [ncl];
      } else {
        StretchDenotes(f, st, cs, ncl);
        LastBound(f, st, cs);
      }
      ClearOneMore(bm, nFatent - 2, ncl - 2);
      var res := SetBit(ncl);
      assert res == Ok;
      ClearStep(bm, bitmap[..], nFatent - 2, ncl - 2);
      StillUsed(bm, bitmap[..], cs, ncl);
      assert fat[..] == f;
      res := Extend(o, clst, ncl);
      lastClst := ncl;
      if freeClst <= nFatent - 2 {
        freeClst := freeClst - 1;
      }
      r := ncl;
    }

    /** What f_sync does about the chain: afterwards a file not marked contiguous is spelled by the FAT alone. */
    method Sync(o: Object, clust: nat, ghost cs: seq<nat>) returns (res: Res)
      requires Valid() && cs != [] && Holds(o, cs) && clust == cs[|cs| - 1]
      modifies fat, o`stat, o`nFrag
      ensures res == Ok && (o.stat == 2 <==> old(o.stat) == 2) && o.nFrag == 0
      ensures o.stat == 2 ==> fat[..] == old(fat[..]) && forall i :: 0 <= i < |cs| ==> cs[i] == o.sclust + i
      ensures o.stat != 2 ==> o.stat == 0 && Spelled(fat[..], cs)
      ensures forall c :: 0 <= c < nFatent && c !in cs ==> fat[c] == old(fat[c])
    {
      hide Denotes, Used, Spelled, FilledLast, FilledFirst;
      ghost var f, st := fat[..], o.State();
      LastBound(f, st, cs);
      if o.stat == 2 {
        ContiguousMeans(f, st, cs);
      } else {
        SyncSpells(f, st, cs);
      }
      res := FillFirstFrag(o);
      if res == Ok {
        NothingToFill(fat[..], clust);
        res := FillLastFrag(o, clust, 0xFFFF_FFFF);
      }
    }

    /**
     * What f_lseek does before it moves: the last fragment goes onto the FAT.  The object denotes the same list, and
     * from then on every cluster of it can be followed.
     */
    method SeekBegin(o: Object, clust: nat, ghost cs: seq<nat>) returns (res: Res)
      requires Valid() && cs != [] && Holds(o, cs) && clust == cs[|cs| - 1]
      modifies fat, o`nFrag
      ensures res == Ok && Holds(o, cs) && o.nFrag == 0 && forall i :: 0 <= i < |cs| ==> Followable(o, cs, i)
      ensures forall c :: 0 <= c < nFatent && c !in cs ==> fat[c] == old(fat[c])
    {
      hide Denotes, Used, FilledLast;
      LastBound(fat[..], o.State(), cs);
      if o.stat != 2 {
        LastKept(fat[..], o.State(), cs);
      }
      NothingToFill(fat[..], clust);
      res := FillLastFrag(o, clust, 0xFFFF_FFFF);
    }
  }

  lemma NoneDenotes(fat: seq<nat>, o: Info, cs: seq<nat>)
    ensures cs == [] ==> !Denotes(fat, o, cs)
    ensures Denotes(fat, o, cs) ==> forall i :: 0 <= i < |cs| ==> cs[i] != 0
  {
  }

  lemma GetFatAt(fat: seq<nat>, o: Info, cs: seq<nat>, objsize: nat, ss: nat, csize: nat, i: nat)
    requires Denotes(fat, o, cs) && SizeFits(objsize, ss, csize, |cs|) && i < |cs|
    ensures i == |cs| - 1 ==> GetFat(fat, o, objsize, ss, csize, cs[i]) >= |fat|
    ensures i < |cs| - 1 && (o.stat == 2 || o.nFrag == 0 || (o.stat == 3 && i < o.nCont)) ==>
      GetFat(fat, o, objsize, ss, csize, cs[i]) == cs[i + 1] && 2 <= cs[i + 1] < |fat|
  {
    hide Denotes, GetFat;
    DenotesFacts(fat, o, cs);
    if i == |cs| - 1 {
      GetFatAtEnd(fat, o, cs, objsize, ss, csize);
    } else {
      GetFatFollows(fat, o, cs, objsize, ss, csize, i);
    }
  }

  /** A cluster status below 2 is an internal error, reported as 1. */
  function Sane(st: nat): nat { if st < 2 then 1 else st }

  lemma NothingToFill(fat: seq<nat>, lcl: nat)
    requires lcl < |fat|
    ensures FilledLast(fat, 0, lcl, 0xFFFF_FFFF) == fat
  {
  }

  lemma LastBound(fat: seq<nat>, o: Info, cs: seq<nat>)
    requires Denotes(fat, o, cs)
    ensures cs != [] && 2 <= cs[|cs| - 1] < |fat| && o.nFrag + 1 <= cs[|cs| - 1]
    ensures o.stat == 0 || o.stat == 2 || o.stat == 3
    ensures o.stat == 2 ==> o.sclust <= cs[|cs| - 1] && o.nFrag == 0
    ensures o.stat == 3 ==> 2 <= o.sclust && o.sclust + o.nCont <= |fat|
  {
    hide Linked;
    if o.nFrag > 0 {
      RunSpan(cs, |fat|, |cs| - o.nFrag, |cs| - 1, |cs| - 1);
    }
    if o.stat == 3 {
      RunSpan(cs, |fat|, 0, o.nCont, o.nCont);
    } else if o.stat == 2 {
      RunSpan(cs, |fat|, 0, |cs| - 1, |cs| - 1);
    }
  }

  lemma FreshIn(bm: seq<byte>, n: nat, cs: seq<nat>, ncl: nat)
    requires 2 <= ncl < n <= 8 * |bm| + 2 && !Bit(bm, ncl - 2) && forall i :: 0 <= i < |cs| ==> Used(bm, cs[i])
    ensures Fresh(n, cs, ncl)
  {
    hide Bit;
  }

  lemma ClearOneMore(bm: seq<byte>, n: nat, k: nat)
    requires n <= 8 * |bm| && k < n && !Bit(bm, k)
    ensures 0 < Clear(bm, n) <= n
  {
    ClearNone(bm, n);
  }

  lemma StillUsed(bm: seq<byte>, bm': seq<byte>, cs: seq<nat>, ncl: nat)
    requires 2 <= ncl && OneMore(bm, bm', ncl - 2) && forall i :: 0 <= i < |cs| ==> Used(bm, cs[i])
    ensures forall i :: 0 <= i < |cs| + 1 ==> Used(bm', (cs + [ncl])[i])
  {
    hide Bit;
  }

  // ----- Changing one bit -----

  ghost function WithByte(bm: seq<byte>, i: nat, b: byte): (r: seq<byte>)
    requires i < |bm|
    ensures |r| == |bm|
  {
    bm[..i] + [b] + bm[i + 1..]
  }

  ghost function WithEntry(fat: seq<nat>, c: nat, v: nat): (u: seq<nat>)
    requires c < |fat|
  {
    fat[c := v]
  }

  /** Bit k is set in the second bitmap, and nothing else has changed. */
  ghost predicate OneMore(bm: seq<byte>, bm': seq<byte>, k: nat) {
    && |bm'| == |bm| && k / 8 < |bm| && !Bit(bm, k) && Bit(bm', k)
    && forall j :: 0 <= j < 8 * |bm| && j != k ==> (Bit(bm', j) <==> Bit(bm, j))
  }

  lemma SetIsFlip(bm: seq<byte>, k: nat)
    requires k / 8 < |bm| && !Bit(bm, k)
    ensures bm[k / 8] as int + Mask(k % 8) < 256
    ensures OneMore(bm, WithByte(bm, k / 8, bm[k / 8] as int + Mask(k % 8)), k)
  {
    hide Has, Mask;
    var r := bm[k / 8] as int + Mask(k % 8);
    FlipBits(bm[k / 8], k % 8, k % 8, r);
    var u := WithByte(bm, k / 8, r);
    forall j | 0 <= j < 8 * |bm|
      ensures Bit(u, j) <==> (Bit(bm, j) || j == k)
    {
      if j / 8 == k / 8 {
        FlipBits(bm[k / 8], k % 8, j % 8, r);
      }
    }
  }

  /** Number of clear bits below n. */
  ghost function Clear(bm: seq<byte>, n: nat): (c: nat)
    requires n <= 8 * |bm|
    ensures c <= n
  {
    if n == 0 then 0 else Clear(bm, n - 1) + if Bit(bm, n - 1) then 0 else 1
  }

  lemma {:induction false} ClearStep(bm: seq<byte>, bm': seq<byte>, n: nat, k: nat)
    requires OneMore(bm, bm', k) && n <= 8 * |bm|
    ensures Clear(bm', n) == Clear(bm, n) - if k < n then 1 else 0
  {
    hide Bit;
    if n > 0 {
      ClearStep(bm, bm', n - 1, k);
    }
  }

  lemma {:induction false} ClearNone(bm: seq<byte>, n: nat)
    requires n <= 8 * |bm|
    ensures Clear(bm, n) == 0 <==> forall k :: 0 <= k < n ==> Bit(bm, k)
  {
    hide Bit;
    if n > 0 {
      ClearNone(bm, n - 1);
    }
  }

  lemma MaskStep(val: nat)
    ensures var m := Mask(val % 8) * 2 % 256;
      if (val + 1) % 8 == 0 then m == 0 && (val + 1) / 8 == val / 8 + 1
        else m == Mask((val + 1) % 8) > 0 && (val + 1) / 8 == val / 8
  {
  }

  lemma BitAt(bm: seq<byte>, k: nat)
    requires k / 8 < |bm|
    ensures Bit(bm, k) == Has(bm[k / 8], Mask(k % 8))
  {
  }

  lemma SectorByte(k: nat, ss: nat)
    requires ss > 0
    ensures k / ss * ss + k % ss == k && k % ss < ss
  {
  }

  // ----- The life of a new file -----

  /** The second bitmap has the clusters of the list in addition, all of which were free. */
  ghost predicate Added(bm: seq<byte>, bm': seq<byte>, cs: seq<nat>) {
    && |bm'| == |bm|
    && (forall i :: 0 <= i < |cs| ==> 2 <= cs[i] && (cs[i] - 2) / 8 < |bm| && !Bit(bm, cs[i] - 2))
    && forall k :: 0 <= k < 8 * |bm| ==> (Bit(bm', k) <==> Bit(bm, k) || k + 2 in cs)
  }

  lemma AddedMore(bm: seq<byte>, bm': seq<byte>, bm'': seq<byte>, cs: seq<nat>, r: nat)
    requires Added(bm, bm', cs) && 2 <= r && OneMore(bm', bm'', r - 2)
    ensures Added(bm, bm'', cs + [r])
  {
    hide Bit;
  }

  /** A file one cluster larger. */
  lemma GrownFits(objsize: nat, ss: nat, csize: nat, m: nat, limit: nat)
    requires 0 < ss <= 4096 && csize > 0 && m < limit && csize * limit <= 0x1_0000_0000
    requires if m == 0 then objsize == 0 else SizeFits(objsize, ss, csize, m)
    ensures csize * ss > 0 && SizeFits(objsize + csize * ss, ss, csize, m + 1)
  {
    MulStep(ss, 0, csize);
    MulComm(csize, ss);
    if m == 0 {
      RowColOf(csize - 1, ss - 1, ss);
      MulNext(csize - 1, ss);
      RowColOf(0, csize - 1, csize);
      Ordered(csize, 1, limit);
      SizeBound(csize, ss);
    } else {
      var q, c := Row(objsize - 1, ss), Col(objsize - 1, ss);
      RowCol(objsize - 1, ss);
      RowCol(q, csize);
      var d := Col(q, csize);
      SumProduct(q, csize, ss);
      RowColOf(q + csize, c, ss);
      MulNext(m - 1, csize);
      RowColOf(m, d, csize);
      Ordered(csize, m + 1, limit);
      MulNext(m, csize);
      MulComm(m, csize);
      SizeBound(q + csize, ss);
    }
  }

  lemma SumProduct(q: nat, c: nat, s: nat)
    ensures (q + c) * s == q * s + c * s
  {
  }

  lemma SizeBound(n: nat, ss: nat)
    requires n <= 0x1_0000_0000 && ss <= 4096
    ensures n * ss + ss <= 0x1_0000_0000_0000_0000
  {
    Ordered(ss, n, 0x1_0000_0000);
    MulComm(n, ss);
  }

  lemma Ordered(c: nat, a: nat, b: nat)
    requires a <= b
    ensures c * a <= c * b
  {
  }

  ghost function Below(n: nat): (s: set<nat>)
    ensures |s| == n && forall i: nat :: i in s <==> i < n
  {
    if n == 0 then {} else Below(n - 1) + {n - 1}
  }

  ghost function Elements(cs: seq<nat>): (s: set<nat>)
    ensures forall c :: c in s <==> c in cs
    ensures Distinct(cs) ==> |s| == |cs|
  {
    if cs == [] then {} else Elements(cs[..|cs| - 1]) + {cs[|cs| - 1]}
  }

  /** Distinct clusters are no more than there are. */
  lemma FewClusters(cs: seq<nat>, n: nat)
    requires InRange(n, cs) && Distinct(cs)
    ensures |cs| <= n
  {
    var s, t := Below(n), Elements(cs);
    assert t <= s;
    assert s == t + (s - t);
  }

  /** The file may grow: it holds its clusters, and its size is in the last of them. */
  ghost predicate Growable(v: Volume, o: Object, cs: seq<nat>)
    requires v.Valid()
    reads v, v.fat, v.bitmap, o
  {
    v.CountOk() && v.Holds(o, cs) && Distinct(cs) && (cs != [] ==> SizeFits(o.objsize, v.ss, v.csize, |cs|))
  }

  ghost function LastOf(cs: seq<nat>): (c: nat) { if cs == [] then 0 else cs[|cs| - 1] }

  /** One cluster more, and the size and start cluster brought up to date. */
  method GrowOne(v: Volume, o: Object, last: nat, ghost cs: seq<nat>) returns (r: nat)
    requires v.Valid() && Growable(v, o, cs) && last == LastOf(cs) && v.ss <= 4096 &&
      v.csize * v.nFatent <= 0x1_0000_0000
    modifies o, v.fat, v.bitmap, v`lastClst, v`freeClst
    ensures r == 0 ==> v.AllSet() && Growable(v, o, cs) && v.bitmap[..] == old(v.bitmap[..])
    ensures r != 0 ==> 2 <= r && Growable(v, o, cs + [r]) && OneMore(old(v.bitmap[..]), v.bitmap[..], r - 2)
    ensures forall c :: 0 <= c < v.nFatent && c !in cs ==> v.fat[c] == old(v.fat[c])
  {
    hide Volume.CountOk, Denotes, Distinct, Bit, OneMore, FirstClear, SizeFits, Used, Clear;
    NoneDenotes(v.fat[..], o.State(), cs);
    r := v.CreateChain(o, last, cs, if cs == [] then 0 else |cs| - 1);
    if r != 0 {
      if last == 0 {
        o.sclust := r;
        o.objsize := 0;
      }
      DenotesDistinct(v.fat[..], o.State(), cs + [r]);
      GrownFits(o.objsize, v.ss, v.csize, |cs|, v.nFatent);
      o.objsize := o.objsize + v.csize * v.ss;
    }
  }

  /**
   * A file, new or opened again, grown cluster by cluster and then synchronised: the clusters handed out are distinct
   * and were free, they stop only when all are in use, and in the end the FAT alone spells the former clusters and
   * these in the order they were handed out, unless the file is marked contiguous and they are all one run.  Nothing
   * else has changed on the FAT or in the bitmap.
   */
  method GrowThenSync(v: Volume, o: Object, clust: nat, n: nat, ghost cs0: seq<nat>)
    returns (full: bool, ghost given: seq<nat>)
    requires v.Valid() && Growable(v, o, cs0) && clust == LastOf(cs0) && v.ss <= 4096 &&
      v.csize * v.nFatent <= 0x1_0000_0000
    modifies o, v.fat, v.bitmap, v`lastClst, v`freeClst
    ensures |given| <= n && (full <==> |given| < n) && (full ==> v.AllSet())
    ensures Distinct(cs0 + given) && Added(old(v.bitmap[..]), v.bitmap[..], given) && v.CountOk()
    ensures cs0 + given != [] && o.stat == 2 ==> forall i :: 0 <= i < |cs0 + given| ==> (cs0 + given)[i] == o.sclust + i
    ensures cs0 + given != [] && o.stat != 2 ==> o.stat == 0 && Spelled(v.fat[..], cs0 + given)
    ensures forall c :: 0 <= c < v.nFatent && c !in cs0 + given ==> v.fat[c] == old(v.fat[c])
  {
    hide Growable, Distinct, Bit, Added, OneMore, Spelled;
    given, full := [], false;
    AddedNone(v.bitmap[..]);
    assert cs0 + given == cs0;
    var last, i := clust, 0;
    while i < n && !full
      invariant 0 <= i <= n && |given| == i && (full ==> i < n && v.AllSet())
      invariant Growable(v, o, cs0 + given) && last == LastOf(cs0 + given)
      invariant Added(old(v.bitmap[..]), v.bitmap[..], given)
      invariant forall c :: 0 <= c < v.nFatent && c !in cs0 + given ==> v.fat[c] == old(v.fat[c])
      decreases n - i, !full
    {
      ghost var bm := v.bitmap[..];
      var r := GrowOne(v, o, last, cs0 + given);
      if r == 0 {
        full := true;
      } else {
        AddedMore(old(v.bitmap[..]), bm, v.bitmap[..], given, r);
        assert cs0 + given + [r] == cs0 + (given + [r]);
        given := given + [r];
        i, last := i + 1, r;
      }
    }
    Grown(v, o, cs0 + given);
    if last != 0 {
      var res := v.Sync(o, last, cs0 + given);
    }
  }

  lemma Grown(v: Volume, o: Object, cs: seq<nat>)
    requires v.Valid() && Growable(v, o, cs)
    ensures v.CountOk() && v.Holds(o, cs) && Distinct(cs) && (cs == [] <==> LastOf(cs) == 0)
  {
    NoneDenotes(v.fat[..], o.State(), cs);
    hide Denotes;
  }

  lemma AddedNone(bm: seq<byte>)
    ensures Added(bm, bm, [])
  {
  }

  lemma DenotesDistinct(fat: seq<nat>, o: Info, cs: seq<nat>)
    requires Denotes(fat, o, cs)
    ensures Distinct(cs) && |cs| <= |fat| && forall i :: 0 <= i < |cs| ==> cs[i] != 0
  {
    FewClusters(cs, |fat|);
  }
}
