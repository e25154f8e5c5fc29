/** The geometry f_mkfs chooses for a FAT12/16/32 volume. */
module FatGeometry {
  import opened Bytes
  import opened FatEntry

  const DWORD: nat := 0x1_0000_0000

  ghost predicate SectorSize(ss: nat) { ss == 512 || ss == 1024 || ss == 2048 || ss == 4096 }

  predicate PowerOfTwo(n: nat) { n == 1 || n == 2 || n == 4 || n == 8 || n == 16 || n == 32 || n == 64 || n == 128 }

  /** Sub-type by the number of clusters. */
  function SubType(n: nat): FsType {
    if n <= MaxClusters(FAT12) then FAT12 else if n <= MaxClusters(FAT16) then FAT16 else FAT32
  }

  /** Bytes of a FAT with so many entries, as mounting computes them. */
  function FatSize(ty: FsType, nFatent: nat): nat {
    match ty
    case FAT12 => nFatent * 3 / 2 + nFatent % 2
    case FAT16 => nFatent * 2
    case FAT32 => nFatent * 4
  }

  /** x divided by y, rounded up. */
  function Ceil(x: nat, y: nat): nat
    requires y > 0
  {
    (x + (y - 1)) / y
  }

  lemma CeilFits(x: nat, y: nat)
    requires y > 0
    ensures x <= Ceil(x, y) * y && (x > 0 ==> Ceil(x, y) > 0)
  {
    var q, r := (x + (y - 1)) / y, (x + (y - 1)) % y;
    assert x + (y - 1) == y * q + r;
    MulComm(y, q);
    if q == 0 {
      assert y * q == 0;
    }
  }

  lemma CeilMono(x: nat, z: nat, y: nat)
    requires y > 0 && x <= z
    ensures Ceil(x, y) <= Ceil(z, y)
  {
    DivMono(x + (y - 1), z + (y - 1), y);
  }

  lemma DivMono(x: nat, z: nat, y: nat)
    requires y > 0 && x <= z
    ensures x / y <= z / y
  {
    var p, q := x / y, z / y;
    assert x == y * p + x % y && z == y * q + z % y;
    if q < p {
      MulStep(y, q, p);
    }
  }

  lemma DivAtLeast(x: nat, k: nat, y: nat)
    requires y > 0 && y * k <= x
    ensures k <= x / y
  {
    DivMono(y * k, x, y);
    Split(y * k, y, k, 0);
  }

  /** Taking d off x takes at most d + 1 off the quotient. */
  lemma DivDrop(x: nat, d: nat, y: nat)
    requires y > 0 && d <= x
    ensures x / y <= (x - d) / y + d + 1
  {
    var q := (x - d) / y;
    assert x - d == y * q + (x - d) % y;
    assert y * (q + d + 1) == y * q + y * d + y;
    assert y * d >= d by {
      MulStep(1, 0, y);
      assert y * d == d + (y - 1) * d;
    }
    assert x == y * (x / y) + x % y;
    if x / y > q + d + 1 {
      MulStep(y, q + d + 1, x / y);
    }
  }

  // ----- Geometry -----

  datatype Geometry = Geometry(ty: FsType, pau: nat, szRsv: nat, szFat: nat, szDir: nat, nClst: nat)

  /** Sectors in front of the data area. */
  function Overhead(g: Geometry, nFat: nat): nat { g.szRsv + g.szFat * nFat + g.szDir }

  /** A consistent geometry for a volume of so many sectors. */
  ghost predicate Suits(g: Geometry, szVol: nat, ss: nat, nFat: nat, nRoot: nat) {
    && SectorSize(ss) && PowerOfTwo(g.pau)
    && g.szRsv == (if g.ty == FAT32 then 32 else 1)
    && g.szDir == (if g.ty == FAT32 then 0 else nRoot * 32 / ss)
    && 0 < g.szFat && (g.ty != FAT32 ==> g.szFat < 0x1_0000) && g.szFat < 0x100_0000
    && Overhead(g, nFat) <= szVol
    && g.nClst == (szVol - Overhead(g, nFat)) / g.pau && 16 <= g.nClst <= MaxClusters(g.ty) && SubType(g.nClst) == g.ty
    && Ceil(FatSize(g.ty, g.nClst + 2), ss) <= g.szFat
  }

  const POWERS: seq<nat> := [1, 2, 4, 8, 16, 32, 64]

  /** The cluster size doubles with each boundary up to the first one above n. */
  function SizeFor(table: seq<nat>, n: nat, i: nat): (pau: nat)
    requires |table| == 7 && i <= 6
    decreases 6 - i
  {
    if i == 6 || table[i] > n then POWERS[i] else SizeFor(table, n, i + 1)
  }

  const FAT32_SIZES: seq<nat> := [1, 2, 4, 8, 16, 32, 0]
  const FAT_SIZES: seq<nat> := [1, 4, 16, 64, 256, 512, 0]

  /** The loop over a table of boundaries. */
  method AutoSize(table: seq<nat>, n: nat) returns (pau: nat)
    requires |table| == 7 && table[6] == 0 && forall i :: 0 <= i < 6 ==> table[i] > 0
    ensures pau == SizeFor(table, n, 0) && PowerOfTwo(pau) && pau <= 64
  {
    var i := 0;
    pau := 1;
    while table[i] != 0 && table[i] <= n
      invariant 0 <= i <= 6 && pau == POWERS[i] && SizeFor(table, n, i) == SizeFor(table, n, 0)
      decreases 6 - i
    {
      i := i + 1;
      pau := pau * 2;
    }
  }

  /** The cluster size tried first when the caller asks for none. */
  function DefaultSize(szVol: nat, fsty: FsType): (pau: nat) {
    if fsty == FAT32 then SizeFor(FAT32_SIZES, szVol / 0x2_0000, 0) else SizeFor(FAT_SIZES, szVol / 0x1000, 0)
  }

  /** The sub-type tried with a cluster size, by the number of clusters before the FAT is laid out. */
  function TypeTried(szVol: nat, pau: nat, fsty: FsType): (ty: FsType)
    requires pau > 0
  {
    if fsty == FAT32 then FAT32 else if Row(szVol, pau) > MaxClusters(FAT12) then FAT16 else FAT12
  }

  /** Number of clusters before the FAT is laid out, and the size it takes from them. */
  method Preliminary(szVol: nat, szAu: nat, ss: nat, fsty: FsType) returns (ty: FsType, pau: nat, n0: nat, szFat: nat)
    requires szVol < DWORD && SectorSize(ss) && (szAu == 0 || PowerOfTwo(szAu))
    ensures PowerOfTwo(pau) && pau <= 128 && (szAu != 0 ==> pau == szAu) && (szAu == 0 ==> pau <= 64) &&
      n0 == Row(szVol, pau)
    ensures ty == if fsty == FAT32 then FAT32 else if n0 > MaxClusters(FAT12) then FAT16 else FAT12
    ensures szFat == FatSectors(ty, n0, ss)
    ensures szAu == 0 ==> pau == DefaultSize(szVol, fsty)
  {
    hide PowerOfTwo, FatSectors, MaxClusters, Row, SizeFor;
    pau := szAu;
    ty := fsty;
    if fsty == FAT32 {
      if pau == 0 {
        var n := szVol / 0x2_0000;
        pau := AutoSize(FAT32_SIZES, n);
      }
      Positive(pau);
      n0 := Row(szVol, pau);
      szFat := FatSectors(ty, n0, ss);
    } else {
      if pau == 0 {
        var n := szVol / 0x1000;
        pau := AutoSize(FAT_SIZES, n);
      }
      Positive(pau);
      n0 := Row(szVol, pau);
      ty := if n0 > MaxClusters(FAT12) then FAT16 else FAT12;
      szFat := FatSectors(ty, n0, ss);
    }
  }

  /** Sectors of a FAT for n0 clusters, in 32-bit arithmetic. */
  function FatSectors(ty: FsType, n0: nat, ss: nat): nat
    requires ss > 0
  {
    match ty
    case FAT12 => Row((n0 * 3 + 1) / 2 + 3 + (ss - 1), ss)
    case FAT16 => Row(((n0 * 2 + 4) % DWORD + (ss - 1)) % DWORD, ss)
    case FAT32 => Row((n0 * 4 + 8 + (ss - 1)) % DWORD, ss)
  }

  /** What one turn of the loop lays out for a sub-type and a cluster size. */
  ghost function LaidOut(ty: FsType, pau: nat, szVol: nat, ss: nat, nFat: nat, nRoot: nat): Geometry
    requires pau > 0 && ss > 0
  {
    var szFat := FatSectors(ty, Row(szVol, pau), ss);
    var g := Geometry(ty, pau, if ty == FAT32 then 32 else 1, szFat, if ty == FAT32 then 0 else nRoot * 32 / ss, 0);
    if Overhead(g, nFat) <= szVol then g.(nClst := Row(szVol - Overhead(g, nFat), pau)) else g
  }

  /**
   * A sub-type is possible with a cluster size: so says the number of clusters before and after the FAT is laid out.
   */
  ghost predicate Viable(ty: FsType, pau: nat, szVol: nat, ss: nat, nFat: nat, nRoot: nat)
    requires pau > 0 && ss > 0
  {
    var g, n0 := LaidOut(ty, pau, szVol, ss, nFat, nRoot), Row(szVol, pau);
    && (ty == FAT12 ==> n0 <= MaxClusters(FAT12)) && (ty == FAT16 ==> n0 > MaxClusters(FAT12))
    && (ty == FAT32 ==> MaxClusters(FAT16) < n0 <= MaxClusters(FAT32))
    && Overhead(g, nFat) + pau * 16 <= szVol && SubType(g.nClst) == ty
  }

  /** The sub-types a caller allows. */
  predicate Allowed(ty: FsType, fsty0: FsType, fat32: bool) {
    if ty == FAT32 then fsty0 == FAT32 || fat32 else fsty0 != FAT32
  }

  /** Some sub-type the caller allows is possible. */
  ghost predicate Possible(fsty0: FsType, fat32: bool, pau: nat, szVol: nat, ss: nat, nFat: nat, nRoot: nat)
    requires pau > 0 && ss > 0
  {
    exists ty :: Allowed(ty, fsty0, fat32) && Viable(ty, pau, szVol, ss, nFat, nRoot)
  }

  /** At most one of FAT12 and FAT16 is possible, and FAT32 is not where FAT12 is in question. */
  lemma OneSmallType(pau: nat, szVol: nat, ss: nat, nFat: nat, nRoot: nat)
    requires pau > 0 && ss > 0
    ensures Row(szVol, pau) <= MaxClusters(FAT12) ==>
      !Viable(FAT16, pau, szVol, ss, nFat, nRoot) && !Viable(FAT32, pau, szVol, ss, nFat, nRoot)
    ensures Row(szVol, pau) > MaxClusters(FAT12) ==> !Viable(FAT12, pau, szVol, ss, nFat, nRoot)
  {
    hide LaidOut, Row, SubType;
  }

  /** Where FAT16 leaves no room, or too few clusters even for FAT16, FAT32 is out as well. */
  lemma TooSmallForBoth(pau: nat, szVol: nat, ss: nat, nFat: nat, nRoot: nat)
    requires PowerOfTwo(pau) && SectorSize(ss) && (nFat == 1 || nFat == 2) && nRoot <= 32768
    requires Viable(FAT32, pau, szVol, ss, nFat, nRoot)
    ensures var g := LaidOut(FAT16, pau, szVol, ss, nFat, nRoot);
      Overhead(g, nFat) + pau * 16 <= szVol && g.nClst > MaxClusters(FAT12)
  {
    hide PowerOfTwo, FatSectors, Row;
    Positive(pau);
    var n0 := Row(szVol, pau);
    var g, h := LaidOut(FAT16, pau, szVol, ss, nFat, nRoot), LaidOut(FAT32, pau, szVol, ss, nFat, nRoot);
    SmallerFat(n0, ss);
    RootSectors(nRoot, ss);
    assert Overhead(g, nFat) <= Overhead(h, nFat) + 2048;
    var room := szVol - Overhead(h, nFat);
    ClustersFit(room, pau);
    MulStep(pau, 0xFFF5, Row(room, pau));
    assert pau * 0xFFF5 >= pau * 0x2000 + 2048;
    AtLeastRow(szVol - Overhead(g, nFat), 0x2000, pau);
  }

  lemma ClustersFit(x: nat, csize: nat)
    requires csize > 0
    ensures csize * Row(x, csize) <= x
  {
    RowCol(x, csize);
    MulComm(csize, Row(x, csize));
  }

  lemma AtLeastRow(x: nat, k: nat, y: nat)
    requires y > 0 && y * k <= x
    ensures k <= Row(x, y)
  {
    DivAtLeast(x, k, y);
  }

  /** A FAT16 never takes more sectors than a FAT32 for as many clusters. */
  lemma SmallerFat(n0: nat, ss: nat)
    requires SectorSize(ss) && n0 <= MaxClusters(FAT32)
    ensures FatSectors(FAT16, n0, ss) <= FatSectors(FAT32, n0, ss)
  {
    Split(n0 * 2 + 4, DWORD, 0, n0 * 2 + 4);
    Split(n0 * 2 + 4 + (ss - 1), DWORD, 0, n0 * 2 + 4 + (ss - 1));
    Split(n0 * 4 + 8 + (ss - 1), DWORD, 0, n0 * 4 + 8 + (ss - 1));
    DivMono(n0 * 2 + 4 + (ss - 1), n0 * 4 + 8 + (ss - 1), ss);
  }

  // ----- The attempts -----

  /** A sub-type and a cluster size that formatting tries. */
  datatype Attempt = Attempt(ty: FsType, pau: nat)

  /**
   * What is tried, in this order.  A cluster size asked for is kept; otherwise the table gives the first one, and it is
   * halved for FAT32 and doubled for the others, up to where FAT32 takes over or 128 sectors are reached.
   */
  function Attempts(szVol: nat, szAu: nat, fsty: FsType, fat32: bool): (s: seq<Attempt>) {
    if szAu == 0 && fsty == FAT32 then Attempts32(szVol) else
      var pau := if szAu != 0 then szAu else DefaultSize(szVol, fsty);
      if pau == 0 then [] else
        var ty := TypeTried(szVol, pau, fsty);
        [Attempt(ty, pau)] +
          if szAu != 0 then (if ty == FAT16 && fat32 then [Attempt(FAT32, pau)] else [])
          else if ty == FAT12 then []
          else if pau < 64 then [Attempt(TypeTried(szVol, 2 * pau, FAT16), 2 * pau)]
          else if fat32 then Attempts32(szVol)
          else [Attempt(FAT16, 128)]
  }

  function Attempts32(szVol: nat): (s: seq<Attempt>) {
    var pau := DefaultSize(szVol, FAT32);
    [Attempt(FAT32, pau)] + if pau > 1 then [Attempt(FAT32, pau / 2)] else []
  }

  /** The volume to be formatted. */
  datatype Target = Target(szVol: nat, ss: nat, nFat: nat, nRoot: nat)

  ghost predicate Sane(v: Target) {
    128 <= v.szVol < DWORD && SectorSize(v.ss) && (v.nFat == 1 || v.nFat == 2) && 0 < v.nRoot <= 32768
  }

  ghost predicate Works(a: Attempt, v: Target) {
    a.pau > 0 && v.ss > 0 && Viable(a.ty, a.pau, v.szVol, v.ss, v.nFat, v.nRoot)
  }

  /** The k-th attempt is the first that is possible. */
  ghost predicate FirstWorks(s: seq<Attempt>, v: Target, k: nat) {
    k < |s| && Works(s[k], v) && forall j :: 0 <= j < k ==> !Works(s[j], v)
  }

  ghost predicate NoneWorks(s: seq<Attempt>, v: Target) {
    forall j :: 0 <= j < |s| ==> !Works(s[j], v)
  }

  // ----- The loop -----

  datatype Verdict = Accept | GiveUp | Again(szAu: nat, fsty: FsType)

  /**
   * The tests at the end of a turn of the loop of f_mkfs, on the sub-type and cluster size tried and the clusters left.
   */
  function Judge(ty: FsType, pau: nat, nClst: nat, szAu: nat, fat32: bool): (v: Verdict) {
    if ty == FAT32 && nClst <= MaxClusters(FAT16) then
      if szAu == 0 && pau / 2 != 0 then Again(pau / 2, FAT32) else GiveUp
    else if ty == FAT16 && nClst > MaxClusters(FAT16) then
      if szAu == 0 && pau * 2 <= 64 then Again(pau * 2, FAT16)
      else if fat32 then Again(szAu, FAT32)
      else if szAu == 0 && pau * 2 <= 128 then Again(pau * 2, FAT16)
      else GiveUp
    else if ty == FAT16 && nClst <= MaxClusters(FAT12) then
      if szAu == 0 && pau * 2 <= 128 then Again(pau * 2, FAT16) else GiveUp
    else if ty == FAT12 && nClst > MaxClusters(FAT12) then GiveUp
    else Accept
  }

  /** The settings with which a turn of the loop makes the k-th attempt. */
  ghost predicate Tries(v: Target, szAu0: nat, fsty0: FsType, fat32: bool, k: nat, szAu: nat, fsty: FsType) {
    var s := Attempts(v.szVol, szAu0, fsty0, fat32);
    k < |s| && fsty != FAT12 &&
    var a := s[k];
    && a.pau == (if szAu == 0 then DefaultSize(v.szVol, fsty) else szAu) && a.pau > 0
    && a.ty == TypeTried(v.szVol, a.pau, fsty) && PowerOfTwo(a.pau)
    && (szAu == 0 <==> szAu0 == 0 && (k == 0 || (fsty == FAT32 && fsty0 != FAT32 && k == 1)))
  }

  /** What a turn of the loop has to find out about an attempt. */
  ghost predicate HasRoom(v: Target, a: Attempt)
    requires a.pau > 0 && v.ss > 0
  {
    var n0 := Row(v.szVol, a.pau);
    && (a.ty == FAT32 ==> MaxClusters(FAT16) < n0 <= MaxClusters(FAT32))
    && Overhead(LaidOut(a.ty, a.pau, v.szVol, v.ss, v.nFat, v.nRoot), v.nFat) + a.pau * 16 <= v.szVol
  }

  /** The tests of a turn find out whether its attempt is possible. */
  lemma TurnDecides(v: Target, a: Attempt, szAu: nat, fsty: FsType, fat32: bool)
    requires Sane(v) && a.pau > 0 && fsty != FAT12 && a.ty == TypeTried(v.szVol, a.pau, fsty)
    ensures Works(a, v) <==>
      HasRoom(v, a) &&
        Judge(a.ty, a.pau, LaidOut(a.ty, a.pau, v.szVol, v.ss, v.nFat, v.nRoot).nClst, szAu, fat32) == Accept
  {
    hide FatSectors, Row;
  }

  /** A turn that does not succeed goes on with the next attempt, or none of the others is possible. */
  lemma TurnGoesOn(v: Target, szAu0: nat, fsty0: FsType, fat32: bool, k: nat, szAu: nat, fsty: FsType)
    requires Sane(v) && (szAu0 == 0 || PowerOfTwo(szAu0)) && fsty0 != FAT12 &&
      Tries(v, szAu0, fsty0, fat32, k, szAu, fsty)
    requires !Works(Attempts(v.szVol, szAu0, fsty0, fat32)[k], v)
    ensures GoesOn(v, szAu0, fsty0, fat32, k, szAu)
  {
    hide Works, HasRoom, LaidOut, DefaultSize, Row, Attempts, Tries, Judge;
    if szAu0 != 0 {
      AskedTurn(v, szAu0, fsty0, fat32, k, szAu, fsty);
    } else if fsty == FAT32 {
      AutoTurn32(v, fsty0, fat32, k, szAu);
    } else {
      AutoTurn16(v, fsty0, fat32, k, szAu, fsty);
    }
  }

  /** What follows attempt k. */
  ghost predicate GoesOn(v: Target, szAu0: nat, fsty0: FsType, fat32: bool, k: nat, szAu: nat)
    requires v.ss > 0
  {
    var s := Attempts(v.szVol, szAu0, fsty0, fat32);
    k < |s| && s[k].pau > 0 &&
    var a := s[k];
    var w := Judge(a.ty, a.pau, LaidOut(a.ty, a.pau, v.szVol, v.ss, v.nFat, v.nRoot).nClst, szAu, fat32);
    if HasRoom(v, a) && w.Again? then Tries(v, szAu0, fsty0, fat32, k + 1, w.szAu, w.fsty)
    else forall j :: k < j < |s| ==> !Works(s[j], v)
  }

  lemma AskedTurn(v: Target, szAu0: nat, fsty0: FsType, fat32: bool, k: nat, szAu: nat, fsty: FsType)
    requires Sane(v) && PowerOfTwo(szAu0) && szAu0 != 0 && fsty0 != FAT12 &&
      Tries(v, szAu0, fsty0, fat32, k, szAu, fsty)
    requires !Works(Attempts(v.szVol, szAu0, fsty0, fat32)[k], v)
    ensures GoesOn(v, szAu0, fsty0, fat32, k, szAu)
  {
    hide Works, HasRoom, LaidOut, DefaultSize, Row, PowerOfTwo;
    TurnDecides(v, Attempts(v.szVol, szAu0, fsty0, fat32)[k], szAu, fsty, fat32);
    if Works(Attempt(FAT32, szAu0), v) {
      AskedGoesOn(v, szAu0);
    }
  }

  lemma AutoTurn32(v: Target, fsty0: FsType, fat32: bool, k: nat, szAu: nat)
    requires Sane(v) && fsty0 != FAT12 && Tries(v, 0, fsty0, fat32, k, szAu, FAT32)
    requires !Works(Attempts(v.szVol, 0, fsty0, fat32)[k], v)
    ensures GoesOn(v, 0, fsty0, fat32, k, szAu)
  {
    hide Works, HasRoom, LaidOut, DefaultSize, Row, PowerOfTwo;
    TurnDecides(v, Attempts(v.szVol, 0, fsty0, fat32)[k], szAu, FAT32, fat32);
    Fat32SizeRange(v.szVol);
    Auto32(v);
    hide Sane;
  }

  lemma AutoTurn16(v: Target, fsty0: FsType, fat32: bool, k: nat, szAu: nat, fsty: FsType)
    requires Sane(v) && fsty0 != FAT12 && fsty != FAT32 && Tries(v, 0, fsty0, fat32, k, szAu, fsty)
    requires !Works(Attempts(v.szVol, 0, fsty0, fat32)[k], v)
    ensures GoesOn(v, 0, fsty0, fat32, k, szAu)
  {
    hide Works, HasRoom, LaidOut, DefaultSize, Row;
    TurnDecides(v, Attempts(v.szVol, 0, fsty0, fat32)[k], szAu, fsty, fat32);
    Fat32SizeRange(v.szVol);
    Positive(DefaultSize(v.szVol, FAT32));
    Auto16(v);
    Positive(DefaultSize(v.szVol, FAT16));
    hide Sane;
  }

  /**
   * With a cluster size asked for, only too many clusters for FAT16 lead on to FAT32; in other cases it is out as well.
   */
  lemma AskedGoesOn(v: Target, pau: nat)
    requires Sane(v) && PowerOfTwo(pau) && Works(Attempt(FAT32, pau), v)
    ensures HasRoom(v, Attempt(FAT16, pau))
    ensures LaidOut(FAT16, pau, v.szVol, v.ss, v.nFat, v.nRoot).nClst > MaxClusters(FAT12)
  {
    hide LaidOut, Viable, Row, PowerOfTwo;
    Positive(pau);
    TooSmallForBoth(pau, v.szVol, v.ss, v.nFat, v.nRoot);
  }

  /** What the first table gives, and how many clusters that makes. */
  lemma FatSizeRange(szVol: nat)
    ensures var p := DefaultSize(szVol, FAT16);
      && PowerOfTwo(p) && p <= 64 && (p < 64 ==> szVol < 0x1_0000 * p) && (p == 64 ==> szVol >= 0x20_0000)
  {
    var n, t := szVol / 0x1000, FAT_SIZES;
    assert SizeFor(t, n, 6) == 64 && SizeFor(t, n, 5) == (if 512 > n then 32 else 64);
    assert SizeFor(t, n, 4) == if 256 > n then 16 else SizeFor(t, n, 5);
    assert SizeFor(t, n, 3) == if 64 > n then 8 else SizeFor(t, n, 4);
    assert SizeFor(t, n, 2) == if 16 > n then 4 else SizeFor(t, n, 3);
    assert SizeFor(t, n, 1) == if 4 > n then 2 else SizeFor(t, n, 2);
    assert SizeFor(t, n, 0) == if 1 > n then 1 else SizeFor(t, n, 1);
  }

  lemma Fat32SizeRange(szVol: nat)
    requires szVol < DWORD
    ensures var q := DefaultSize(szVol, FAT32);
      && PowerOfTwo(q) && q <= 64 && (q == 1 <==> szVol < 0x2_0000)
      && (q > 1 ==> 0x1_0000 * q <= szVol < 0x400_0000 * q && PowerOfTwo(q / 2) && q == 2 * (q / 2))
  {
    var n, t := szVol / 0x2_0000, FAT32_SIZES;
    assert SizeFor(t, n, 6) == 64 && SizeFor(t, n, 5) == (if 32 > n then 32 else 64);
    assert SizeFor(t, n, 4) == if 16 > n then 16 else SizeFor(t, n, 5);
    assert SizeFor(t, n, 3) == if 8 > n then 8 else SizeFor(t, n, 4);
    assert SizeFor(t, n, 2) == if 4 > n then 4 else SizeFor(t, n, 3);
    assert SizeFor(t, n, 1) == if 2 > n then 2 else SizeFor(t, n, 2);
    assert SizeFor(t, n, 0) == if 1 > n then 1 else SizeFor(t, n, 1);
  }

  /** The FAT has room for the entries of all clusters there would be without it, and the two in front, and no more. */
  ghost predicate JustEnough(ty: FsType, szFat: nat, n0: nat, ss: nat) {
    var size := match ty case FAT12 => ((n0 + 2) * 12 + 7) / 8 case FAT16 => (n0 + 2) * 2 case FAT32 => (n0 + 2) * 4;
    (szFat - 1) * ss < size <= szFat * ss
  }

  lemma FewestSectors(ty: FsType, n0: nat, ss: nat)
    requires SectorSize(ss) && n0 < 0x1000_0000
    ensures JustEnough(ty, FatSectors(ty, n0, ss), n0, ss)
  {
    hide Row;
    var size := match ty case FAT12 => ((n0 + 2) * 12 + 7) / 8 case FAT16 => (n0 + 2) * 2 case FAT32 => (n0 + 2) * 4;
    assert FatSectors(ty, n0, ss) == Row(size + (ss - 1), ss);
    CeilTight(size, ss);
  }

  lemma RowIs(x: nat, c: nat)
    requires c > 0
    ensures Row(x, c) == x / c
  {
  }

  lemma CeilTight(x: nat, y: nat)
    requires x > 0 && y > 0
    ensures (Row(x + (y - 1), y) - 1) * y < x <= Row(x + (y - 1), y) * y
  {
    var z := x + (y - 1);
    var q := z / y;
    assert z == q * y + z % y;
    assert (q - 1) * y == q * y - y;
  }

  /** A FAT takes no more than one sector for 128 clusters, and one. */
  lemma FatSectorsBound(ty: FsType, n0: nat, ss: nat)
    requires SectorSize(ss)
    ensures FatSectors(ty, n0, ss) <= n0 / 128 + 3
  {
    var x := match ty case FAT12 => (n0 * 3 + 1) / 2 + 3 case FAT16 => n0 * 2 + 4 case FAT32 => n0 * 4 + 8;
    assert FatSectors(ty, n0, ss) <= Ceil(x, ss) by {
      match ty {
        case FAT12 =>
        case FAT16 =>
          CutLess(x);
          CutLess(x % DWORD + (ss - 1));
          DivMono((x % DWORD + (ss - 1)) % DWORD, x + (ss - 1), ss);
        case FAT32 =>
          CutLess(x + (ss - 1));
          DivMono((x + (ss - 1)) % DWORD, x + (ss - 1), ss);
      }
    }
    CeilBound(x, ss);
  }

  lemma CutLess(x: nat)
    ensures x % DWORD <= x
  {
  }

  lemma OverheadBound(v: Target, a: Attempt)
    requires Sane(v) && a.pau > 0
    ensures Overhead(LaidOut(a.ty, a.pau, v.szVol, v.ss, v.nFat, v.nRoot), v.nFat) <= Row(v.szVol, a.pau) / 64 + 2086
  {
    hide FatSectors, Row;
    FatSectorsBound(a.ty, Row(v.szVol, a.pau), v.ss);
    RootSectors(v.nRoot, v.ss);
  }

  /** Clusters before and after the FAT is laid out. */
  lemma Counts(v: Target, a: Attempt)
    requires Sane(v) && PowerOfTwo(a.pau)
    ensures var n0, g := Row(v.szVol, a.pau), LaidOut(a.ty, a.pau, v.szVol, v.ss, v.nFat, v.nRoot);
      && g.nClst <= n0 && Overhead(g, v.nFat) <= n0 / 64 + 2086
      && (n0 >= 0xFF6 ==> Overhead(g, v.nFat) + a.pau * 16 <= v.szVol)
      && (Overhead(g, v.nFat) <= v.szVol ==> n0 <= g.nClst + n0 / 64 + 2087)
  {
    hide FatSectors, PowerOfTwo;
    Positive(a.pau);
    var n0, g := Row(v.szVol, a.pau), LaidOut(a.ty, a.pau, v.szVol, v.ss, v.nFat, v.nRoot);
    RowCol(v.szVol, a.pau);
    MulComm(a.pau, n0);
    OverheadBound(v, a);
    hide LaidOut, Overhead;
    LaidOutMeans(v, a);
    var o := Overhead(g, v.nFat);
    if n0 >= 0xFF6 {
      RoomFor(a.pau, n0);
    }
    if o <= v.szVol {
      DivDrop(v.szVol, o, a.pau);
      DivMono(v.szVol - o, v.szVol, a.pau);
    }
  }

  lemma RoomFor(p: nat, n0: nat)
    requires p > 0 && n0 >= 0xFF6
    ensures n0 / 64 + 2086 + p * 16 <= p * n0
  {
    assert p * n0 == p * (n0 - 16) + p * 16;
    MulStep(n0 - 16, 0, p);
    MulComm(n0 - 16, p);
  }

  /** A size from the second table is never too large, and too small only where it is 1. */
  lemma Auto32(v: Target)
    requires Sane(v)
    ensures var q := DefaultSize(v.szVol, FAT32); q > 1 ==> HasRoom(v, Attempt(FAT32, q))
  {
    hide DefaultSize, LaidOut, Row, PowerOfTwo, SectorSize;
    var q := DefaultSize(v.szVol, FAT32);
    Fat32SizeRange(v.szVol);
    Counts(v, Attempt(FAT32, q));
    if q > 1 {
      RowBetween(v.szVol, q, 0x1_0000, 0x400_0000);
    }
  }

  lemma RowBetween(x: nat, p: nat, low: nat, high: nat)
    requires p > 0 && low * p <= x < high * p
    ensures low <= Row(x, p) < high
  {
    MulComm(low, p);
    MulComm(high, p);
    DivAtLeast(x, low, p);
    if Row(x, p) >= high {
      RowCol(x, p);
      if Row(x, p) > high {
        MulStep(p, high, Row(x, p));
      }
    }
  }

  /** With a size from the first table there is room for a FAT16, and twice the size leaves few enough clusters. */
  lemma Auto16(v: Target)
    requires Sane(v)
    ensures var p := DefaultSize(v.szVol, FAT16);
      && PowerOfTwo(p) && p <= 64
      && (TypeTried(v.szVol, p, FAT16) == FAT16 ==> HasRoom(v, Attempt(FAT16, p)))
      && (p < 64 ==>
        PowerOfTwo(2 * p) && LaidOut(FAT16, 2 * p, v.szVol, v.ss, v.nFat, v.nRoot).nClst <= MaxClusters(FAT16))
      && (p == 64 ==> TypeTried(v.szVol, 64, FAT16) == FAT16 && TypeTried(v.szVol, 128, FAT16) == FAT16)
      && (p == 64 ==> LaidOut(FAT16, 64, v.szVol, v.ss, v.nFat, v.nRoot).nClst > MaxClusters(FAT12))
  {
    hide DefaultSize, LaidOut, Row, SectorSize;
    var p := DefaultSize(v.szVol, FAT16);
    FatSizeRange(v.szVol);
    Positive(p);
    Counts(v, Attempt(FAT16, p));
    if p < 64 {
      Counts(v, Attempt(FAT16, 2 * p));
      RowBetween(v.szVol, 2 * p, 0, 0x8000);
    } else {
      RowBetween(v.szVol, 64, 0x8000, DWORD);
      RowBetween(v.szVol, 128, 0x4000, DWORD);
    }
  }

  /** All attempts are allowed. */
  lemma AttemptsAllowed(szVol: nat, szAu: nat, fsty: FsType, fat32: bool)
    requires fsty != FAT12
    ensures forall a :: a in Attempts(szVol, szAu, fsty, fat32) ==>
      Allowed(a.ty, fsty, fat32) && (szAu != 0 ==> a.pau == szAu)
  {
    hide DefaultSize, Row;
  }

  /** With a cluster size asked for, the attempts are as good as all sub-types allowed. */
  lemma AskedPossible(v: Target, szAu: nat, fsty: FsType, fat32: bool)
    requires Sane(v) && PowerOfTwo(szAu) && fsty != FAT12
    ensures NoneWorks(Attempts(v.szVol, szAu, fsty, fat32), v) <==>
      !Possible(fsty, fat32, szAu, v.szVol, v.ss, v.nFat, v.nRoot)
  {
    hide Viable, Row, PowerOfTwo;
    Positive(szAu);
    OneSmallType(szAu, v.szVol, v.ss, v.nFat, v.nRoot);
    AttemptsAllowed(v.szVol, szAu, fsty, fat32);
    var s := Attempts(v.szVol, szAu, fsty, fat32);
    var ty := TypeTried(v.szVol, szAu, fsty);
    assert s[0] == Attempt(ty, szAu) && s[0] in s;
    if ty == FAT16 && fat32 {
      assert s[1] == Attempt(FAT32, szAu) && s[1] in s;
    }
    if !NoneWorks(s, v) {
      var j :| 0 <= j < |s| && Works(s[j], v);
      assert s[j] in s;
    }
  }

  // ----- When a size chosen automatically is found -----

  /**
   * The volumes for which formatting with an automatic cluster size succeeds: small ones for which FAT12 is tried, if
   * there is room; for FAT32 alone all from 131072 sectors on, and others if they have enough clusters of one sector;
   * and else all for which a cluster size below 64 is suggested or FAT32 is allowed, and others up to FAT16's limit.
   */
  ghost predicate Automatic(v: Target, fsty: FsType, fat32: bool)
    requires v.ss > 0
  {
    var p := DefaultSize(v.szVol, fsty);
    if fsty == FAT32 then v.szVol >= 0x2_0000 || Works(Attempt(FAT32, 1), v)
    else if p > 0 && Row(v.szVol, p) <= MaxClusters(FAT12) then Works(Attempt(FAT12, p), v)
    else p < 64 || fat32 || Works(Attempt(FAT16, 64), v) || Works(Attempt(FAT16, 128), v)
  }

  /** Half the size suggested for FAT32 always leaves enough clusters. */
  lemma HalfWorks(v: Target)
    requires Sane(v)
    ensures var q := DefaultSize(v.szVol, FAT32); q > 1 ==> Works(Attempt(FAT32, q / 2), v)
  {
    hide DefaultSize, LaidOut, Row, PowerOfTwo;
    var q := DefaultSize(v.szVol, FAT32);
    Fat32SizeRange(v.szVol);
    if q > 1 {
      var a := Attempt(FAT32, q / 2);
      Counts(v, a);
      RowBetween(v.szVol, q / 2, 0x2_0000, 0x800_0000);
      TurnDecides(v, a, 1, FAT32, false);
    }
  }

  /** Twice the size suggested for FAT16 works where that is too small or too large, below 64. */
  lemma DoubleWorks(v: Target)
    requires Sane(v)
    ensures var p := DefaultSize(v.szVol, FAT16);
      p < 64 && TypeTried(v.szVol, p, FAT16) == FAT16 && !Works(Attempt(FAT16, p), v) ==>
        Works(Attempt(TypeTried(v.szVol, 2 * p, FAT16), 2 * p), v)
  {
    hide DefaultSize, LaidOut, Row, Sane, PowerOfTwo, Works;
    var p := DefaultSize(v.szVol, FAT16);
    Auto16(v);
    FatSizeRange(v.szVol);
    Positive(p);
    if p < 64 && TypeTried(v.szVol, p, FAT16) == FAT16 && !Works(Attempt(FAT16, p), v) {
      DoubleSize(v, p);
    }
  }

  lemma DoubleSize(v: Target, p: nat)
    requires Sane(v) && PowerOfTwo(p) && PowerOfTwo(2 * p) && 0 < p && v.szVol < 0x1_0000 * p
    requires TypeTried(v.szVol, p, FAT16) == FAT16 && HasRoom(v, Attempt(FAT16, p)) && !Works(Attempt(FAT16, p), v)
    ensures Works(Attempt(TypeTried(v.szVol, 2 * p, FAT16), 2 * p), v)
  {
    hide LaidOut, Row, PowerOfTwo, Works, Overhead;
    var a, b := Attempt(FAT16, p), Attempt(TypeTried(v.szVol, 2 * p, FAT16), 2 * p);
    TurnDecides(v, a, 1, FAT16, false);
    TurnDecides(v, b, 1, FAT16, false);
    Counts(v, a);
    Counts(v, b);
    HalfRow(v.szVol, p);
    RowReaches(v.szVol, p, 0xFF6);
    RowBetween(v.szVol, 2 * p, 0, 0x8000);
    var n0, m0 := Row(v.szVol, p), Row(v.szVol, 2 * p);
    var g, h := LaidOut(FAT16, p, v.szVol, v.ss, v.nFat, v.nRoot), LaidOut(b.ty, 2 * p, v.szVol, v.ss, v.nFat, v.nRoot);
    DoubleNumbers(v.szVol, p, n0, g.nClst, m0, h.nClst, Overhead(h, v.nFat));
  }

  lemma DoubleNumbers(x: nat, p: nat, n0: nat, n: nat, m0: nat, m: nat, o: nat)
    requires p * 0xFF6 <= x && p > 0 && n0 > 0xFF5 && n0 <= n + n0 / 64 + 2087 && n <= n0 && 2 * m0 <= n0 <= 2 * m0 + 1
    requires m <= m0 < 0x8000 && o <= m0 / 64 + 2086 && (m0 >= 0xFF6 ==> o + 2 * p * 16 <= x)
    requires o <= x ==> m0 <= m + m0 / 64 + 2087
    ensures n > 0xFFF5 ==> 0xFF5 < m0 && o + 2 * p * 16 <= x && 0xFF5 < m <= 0xFFF5
    ensures n <= 0xFF5 ==> m0 <= 0xFF5 && o + 2 * p * 16 <= x && m <= 0xFF5
  {
  }

  lemma RowReaches(x: nat, p: nat, k: nat)
    requires p > 0 && k <= Row(x, p)
    ensures p * k <= x
  {
    RowCol(x, p);
    MulComm(Row(x, p), p);
    if k < Row(x, p) {
      MulStep(p, k, Row(x, p));
    }
  }

  lemma HalfRow(x: nat, p: nat)
    requires p > 0
    ensures 2 * Row(x, 2 * p) <= Row(x, p) <= 2 * Row(x, 2 * p) + 1
  {
    RowCol(x, 2 * p);
    var k := Row(x, 2 * p);
    MulComm(k, 2 * p);
    assert p * (2 * k) <= x < p * (2 * k + 2);
    MulComm(p, 2 * k);
    MulComm(p, 2 * k + 2);
    RowBetween(x, p, 2 * k, 2 * k + 2);
  }

  /** With a size chosen automatically, formatting finds a geometry exactly for these volumes. */
  lemma AutomaticIff(v: Target, fsty: FsType, fat32: bool)
    requires Sane(v) && fsty != FAT12
    ensures NoneWorks(Attempts(v.szVol, 0, fsty, fat32), v) <==> !Automatic(v, fsty, fat32)
  {
    hide DefaultSize, Row, Works, PowerOfTwo, HasRoom;
    var s := Attempts(v.szVol, 0, fsty, fat32);
    Attempts32Work(v);
    if fsty != FAT32 {
      SameSize(v.szVol, fsty);
      DoubleWorks(v);
      Auto16(v);
      FatSizeRange(v.szVol);
      Positive(DefaultSize(v.szVol, FAT16));
      SomeWorks(s, v);
      if |s| > 1 {
        SomeWorks(s[1..], v);
        assert DefaultSize(v.szVol, fsty) == 64 && fat32 ==> s[1..] == Attempts32(v.szVol);
      }
    }
  }

  lemma SomeWorks(s: seq<Attempt>, v: Target)
    requires s != []
    ensures NoneWorks(s, v) <==> !Works(s[0], v) && NoneWorks(s[1..], v)
  {
    hide Works;
    assert forall j :: 1 <= j < |s| ==> s[j] == s[1..][j - 1];
  }

  lemma Attempts32Work(v: Target)
    requires Sane(v)
    ensures NoneWorks(Attempts32(v.szVol), v) <==> v.szVol < 0x2_0000 && !Works(Attempt(FAT32, 1), v)
  {
    hide DefaultSize, Works, PowerOfTwo;
    HalfWorks(v);
    Fat32SizeRange(v.szVol);
    var s := Attempts32(v.szVol);
    SomeWorks(s, v);
    if |s| > 1 {
      SomeWorks(s[1..], v);
    }
  }

  /**
   * The loop of f_mkfs that settles sub-type and cluster size, for block alignment 1.  It makes the attempts in their
   * order, and ends with a consistent geometry for the first that is possible, or with none if none is.
   */
  method Determine(szVol: nat, ss: nat, nFat: nat, nRoot: nat, szAu0: nat, fsty0: FsType, fat32: bool)
    returns (ok: bool, g: Geometry, ghost k: nat)
    requires Sane(Target(szVol, ss, nFat, nRoot)) && (szAu0 == 0 || PowerOfTwo(szAu0)) && fsty0 != FAT12
    ensures ok ==> Suits(g, szVol, ss, nFat, nRoot) && g.pau > 0 && JustEnough(g.ty, g.szFat, szVol / g.pau, ss)
    ensures var s, v := Attempts(szVol, szAu0, fsty0, fat32), Target(szVol, ss, nFat, nRoot);
      if ok then FirstWorks(s, v, k) && s[k] == Attempt(g.ty, g.pau) else NoneWorks(s, v)
  {
    hide PowerOfTwo, FatSectors, Viable, LaidOut, Row, DefaultSize, Attempts, Tries, Works, Suits, HasRoom, JustEnough;
    ghost var v := Target(szVol, ss, nFat, nRoot);
    ghost var s := Attempts(szVol, szAu0, fsty0, fat32);
    var szAu, fsty := szAu0, fsty0;
    g, k := Geometry(FAT12, 1, 0, 0, 0, 0), 0;
    FirstTry(v, szAu0, fsty0, fat32);
    TryMeans(v, szAu0, fsty0, fat32, k, szAu, fsty);
    while true
      invariant Tries(v, szAu0, fsty0, fat32, k, szAu, fsty) && k < |s| && forall j :: 0 <= j < k ==> !Works(s[j], v)
      decreases |s| - k
    {
      TryMeans(v, szAu0, fsty0, fat32, k, szAu, fsty);
      var ty, pau, n0, szFat := Preliminary(szVol, szAu, ss, fsty);
      ghost var laid := LaidOut(ty, pau, szVol, ss, nFat, nRoot);
      LaidOutMeans(v, s[k]);
      TurnDecides(v, s[k], szAu, fsty, fat32);
      if !Works(s[k], v) {
        TurnGoesOn(v, szAu0, fsty0, fat32, k, szAu, fsty);
      }
      if ty == FAT32 && (n0 <= MaxClusters(FAT16) || n0 > MaxClusters(FAT32)) {
        return false, g, k;
      }
      var szRsv := if ty == FAT32 then 32 else 1;
      var szDir := if ty == FAT32 then 0 else nRoot * 32 / ss;
      var overhead := szRsv + szFat * nFat + szDir;
      if szVol < overhead + pau * 16 {
        return false, g, k;
      }
      g := Geometry(ty, pau, szRsv, szFat, szDir, Row(szVol - overhead, pau));
      assert g.nClst == laid.nClst;
      var verdict := Judge(ty, pau, g.nClst, szAu, fat32);
      match verdict {
        case Accept =>
          GoodGeometry(g, szVol, ss, nFat, nRoot, n0);
          FewestSectors(ty, n0, ss);
          RowIs(szVol, pau);
          return true, g, k;
        case GiveUp =>
          return false, g, k;
        case Again(nextAu, nextType) =>
          szAu, fsty, k := nextAu, nextType, k + 1;
      }
      TryMeans(v, szAu0, fsty0, fat32, k, szAu, fsty);
    }
  }

  /** What it means that the first possible attempt is made. */
  lemma Determined(v: Target, szAu: nat, fsty: FsType, fat32: bool, ok: bool, k: nat)
    requires Sane(v) && (szAu == 0 || PowerOfTwo(szAu)) && fsty != FAT12
    requires var s := Attempts(v.szVol, szAu, fsty, fat32); if ok then FirstWorks(s, v, k) else NoneWorks(s, v)
    ensures ok ==> var s := Attempts(v.szVol, szAu, fsty, fat32);
      k < |s| && Allowed(s[k].ty, fsty, fat32) && (szAu != 0 ==> s[k].pau == szAu)
    ensures szAu != 0 ==> (ok <==> Possible(fsty, fat32, szAu, v.szVol, v.ss, v.nFat, v.nRoot))
    ensures szAu == 0 ==> (ok <==> Automatic(v, fsty, fat32))
  {
    hide Attempts, Works, Possible, Automatic, Allowed, PowerOfTwo;
    AttemptsAllowed(v.szVol, szAu, fsty, fat32);
    if szAu != 0 {
      AskedPossible(v, szAu, fsty, fat32);
    } else {
      AutomaticIff(v, fsty, fat32);
    }
  }

  lemma FirstTry(v: Target, szAu: nat, fsty: FsType, fat32: bool)
    requires Sane(v) && (szAu == 0 || PowerOfTwo(szAu)) && fsty != FAT12
    ensures Tries(v, szAu, fsty, fat32, 0, szAu, fsty)
  {
    hide DefaultSize, Row, MaxClusters;
    FatSizeRange(v.szVol);
    Fat32SizeRange(v.szVol);
    SameSize(v.szVol, fsty);
    if szAu != 0 {
      Positive(szAu);
    }
  }

  lemma SameSize(szVol: nat, fsty: FsType)
    ensures fsty != FAT32 ==> DefaultSize(szVol, fsty) == DefaultSize(szVol, FAT16)
  {
    hide SizeFor;
  }

  lemma TryMeans(v: Target, szAu0: nat, fsty0: FsType, fat32: bool, k: nat, szAu: nat, fsty: FsType)
    requires Tries(v, szAu0, fsty0, fat32, k, szAu, fsty)
    ensures var s := Attempts(v.szVol, szAu0, fsty0, fat32);
      && k < |s| && fsty != FAT12 && PowerOfTwo(s[k].pau) && 0 < s[k].pau <= 128 && (szAu == 0 || szAu == s[k].pau)
      && s[k].pau == (if szAu == 0 then DefaultSize(v.szVol, fsty) else szAu)
      && s[k].ty == TypeTried(v.szVol, s[k].pau, fsty)
  {
    hide DefaultSize, Attempts;
  }

  /** What is laid out is what the turn computes. */
  lemma LaidOutMeans(v: Target, a: Attempt)
    requires a.pau > 0 && v.ss > 0
    ensures var g, n0 := LaidOut(a.ty, a.pau, v.szVol, v.ss, v.nFat, v.nRoot), Row(v.szVol, a.pau);
      var o := (if a.ty == FAT32 then 32 else 1) + FatSectors(a.ty, n0, v.ss) * v.nFat
        + (if a.ty == FAT32 then 0 else v.nRoot * 32 / v.ss);
      && Overhead(g, v.nFat) == o && g.nClst == (if o <= v.szVol then Row(v.szVol - o, a.pau) else 0)
      && (HasRoom(v, a) <==>
        (a.ty == FAT32 ==> MaxClusters(FAT16) < n0 <= MaxClusters(FAT32)) && o + a.pau * 16 <= v.szVol)
  {
    hide FatSectors, Row, MaxClusters;
  }

  lemma Positive(pau: nat)
    requires PowerOfTwo(pau)
    ensures 0 < pau <= 128
  {
  }

  /** What the checks at the end of the loop leave is consistent; above all, the FAT is large enough. */
  lemma GoodGeometry(g: Geometry, szVol: nat, ss: nat, nFat: nat, nRoot: nat, n0: nat)
    requires szVol < DWORD && SectorSize(ss) && (nFat == 1 || nFat == 2) && 0 < nRoot <= 32768 && PowerOfTwo(g.pau)
    requires n0 == Row(szVol, g.pau)
    requires g.ty == FAT32 ==> MaxClusters(FAT16) < n0 <= MaxClusters(FAT32)
    requires g.ty == FAT12 ==> n0 <= MaxClusters(FAT12)
    requires g.szRsv == (if g.ty == FAT32 then 32 else 1) && g.szDir == (if g.ty == FAT32 then 0 else nRoot * 32 / ss)
    requires g.szFat == FatSectors(g.ty, n0, ss)
    requires Overhead(g, nFat) + g.pau * 16 <= szVol && g.nClst == Row(szVol - Overhead(g, nFat), g.pau)
    requires g.ty == FAT32 ==> g.nClst > MaxClusters(FAT16)
    requires g.ty == FAT16 ==> MaxClusters(FAT12) < g.nClst <= MaxClusters(FAT16)
    requires g.ty == FAT12 ==> g.nClst <= MaxClusters(FAT12)
    ensures Suits(g, szVol, ss, nFat, nRoot) && n0 < 0x1000_0000
  {
    hide PowerOfTwo, Ceil, FatSize;
    Positive(g.pau);
    DivAtLeast(szVol - Overhead(g, nFat), 16, g.pau);
    DivMono(szVol - Overhead(g, nFat), szVol, g.pau);
    DivDrop(szVol, Overhead(g, nFat), g.pau);
    RootSectors(nRoot, ss);
    match g.ty {
      case FAT12 => Fat12Fits(g.szFat, g.nClst, ss, n0);
      case FAT16 => Fat16Fits(g.szFat, g.nClst, ss, n0, Overhead(g, nFat));
      case FAT32 => Fat32Fits(g.szFat, g.nClst, ss, n0);
    }
  }

  lemma RootSectors(nRoot: nat, ss: nat)
    requires SectorSize(ss) && nRoot <= 32768
    ensures nRoot * 32 / ss <= 2048
  {
  }

  /** Sectors are at least 512 bytes. */
  lemma CeilBound(x: nat, ss: nat)
    requires SectorSize(ss)
    ensures Ceil(x, ss) <= x / 512 + 1
  {
  }

  lemma Fat12Fits(szFat: nat, nClst: nat, ss: nat, n0: nat)
    requires SectorSize(ss) && nClst <= n0 <= MaxClusters(FAT12) && szFat == ((n0 * 3 + 1) / 2 + 3 + (ss - 1)) / ss
    ensures Ceil(FatSize(FAT12, nClst + 2), ss) <= szFat && 0 < szFat < 0x1_0000
  {
    var x := (n0 * 3 + 1) / 2 + 3;
    assert szFat == Ceil(x, ss);
    assert FatSize(FAT12, nClst + 2) <= x;
    CeilMono(FatSize(FAT12, nClst + 2), x, ss);
    CeilFits(x, ss);
    CeilBound(x, ss);
  }

  /** Had the size of the FAT been cut off at 32 bits, there would be far too many clusters left for FAT16. */
  lemma Fat16Fits(szFat: nat, nClst: nat, ss: nat, n0: nat, overhead: nat)
    requires SectorSize(ss) && nClst <= n0 <= nClst + overhead + 1 && nClst <= MaxClusters(FAT16) && n0 < DWORD
    requires szFat == ((n0 * 2 + 4) % DWORD + (ss - 1)) % DWORD / ss && overhead <= 2 * szFat + 2049
    ensures Ceil(FatSize(FAT16, nClst + 2), ss) <= szFat && 0 < szFat < 0x1_0000 && n0 <= 0x300_0000
  {
    var x := (n0 * 2 + 4) % DWORD;
    CutBound(x, ss);
    assert n0 <= 0x300_0000;
    Split(n0 * 2 + 4, DWORD, 0, n0 * 2 + 4);
    Split(x + (ss - 1), DWORD, 0, x + (ss - 1));
    assert szFat == Ceil(x, ss);
    CeilMono(FatSize(FAT16, nClst + 2), x, ss);
    CeilFits(x, ss);
    CeilBound(x, ss);
  }

  lemma CutBound(x: nat, ss: nat)
    requires SectorSize(ss)
    ensures (x + (ss - 1)) % DWORD / ss <= 0x80_0000
  {
    var y := (x + (ss - 1)) % DWORD;
    assert y < DWORD;
    if ss == 512 {
      assert y / 512 <= 0x80_0000;
    } else if ss == 1024 {
      assert y / 1024 <= 0x80_0000;
    } else if ss == 2048 {
      assert y / 2048 <= 0x80_0000;
    } else {
      assert y / 4096 <= 0x80_0000;
    }
  }

  lemma Fat32Fits(szFat: nat, nClst: nat, ss: nat, n0: nat)
    requires SectorSize(ss) && nClst <= n0 <= MaxClusters(FAT32) && szFat == (n0 * 4 + 8 + (ss - 1)) % DWORD / ss
    ensures Ceil(FatSize(FAT32, nClst + 2), ss) <= szFat && 0 < szFat < 0x100_0000
  {
    var x := n0 * 4 + 8;
    Split(x + (ss - 1), DWORD, 0, x + (ss - 1));
    assert szFat == Ceil(x, ss);
    CeilMono(FatSize(FAT32, nClst + 2), x, ss);
    CeilFits(x, ss);
    CeilBound(x, ss);
  }
}
