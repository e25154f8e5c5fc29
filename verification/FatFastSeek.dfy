/**
 * Fast seek: a table of the fragments of a cluster chain, and finding the cluster of a file offset in
 * it without following the FAT.
 */
module FatFastSeek {
  import opened Bytes
  import opened Sectors
  import opened FatEntry
  import opened FatFileData
  import opened FatVolume
  import opened FatTable
  import opened FatChain

  /** A run of clusters with consecutive numbers. */
  datatype Fragment = Fragment(ncl: nat, top: nat)

  datatype MapResult = MapOk | MapIntErr | NotEnoughCore

  // ----- Fragments of a chain -----

  /** One cluster more: it prolongs the last fragment if it is the next number, and else starts a new one. */
  ghost function Grown(fr: seq<Fragment>, c: nat): (r: seq<Fragment>)
    ensures r != []
  {
    if fr == [] then [Fragment(1, c)] else
      var n := |fr| - 1;
      var f := fr[n];
      if c == f.top + f.ncl then fr[..n] + [Fragment(f.ncl + 1, f.top)] else fr + [Fragment(1, c)]
  }

  /** The fragments of a chain, in order. */
  ghost function Fragments(cs: seq<nat>): (fr: seq<Fragment>)
    ensures fr == [] <==> cs == []
  {
    if cs == [] then [] else Grown(Fragments(cs[..|cs| - 1]), cs[|cs| - 1])
  }

  ghost function Run(f: Fragment): (cs: seq<nat>)
    ensures |cs| == f.ncl
  {
    seq(f.ncl, i requires 0 <= i < f.ncl => f.top + i)
  }

  /** The clusters a list of fragments stands for. */
  ghost function Expanded(fr: seq<Fragment>): seq<nat> {
    if fr == [] then [] else Run(fr[0]) + Expanded(fr[1..])
  }

  lemma {:induction false} ExpandedAppend(a: seq<Fragment>, b: seq<Fragment>)
    ensures Expanded(a + b) == Expanded(a) + Expanded(b)
  {
    if a == [] {
      assert a + b == b;
    } else {
      assert (a + b)[1..] == a[1..] + b;
      ExpandedAppend(a[1..], b);
    }
  }

  lemma ExpandedOne(f: Fragment)
    ensures Expanded([f]) == Run(f)
  {
    assert Expanded([f]) == Run(f) + Expanded([]);
  }

  ghost predicate AllPositive(fr: seq<Fragment>) {
    forall i :: 0 <= i < |fr| ==> fr[i].ncl > 0
  }

  lemma GrownSpells(fr: seq<Fragment>, c: nat)
    requires AllPositive(fr)
    ensures Expanded(Grown(fr, c)) == Expanded(fr) + [c] && AllPositive(Grown(fr, c))
  {
    hide Expanded;
    var n, one := |fr| - 1, Fragment(1, c);
    ExpandedOne(one);
    assert Run(one) == [c];
    if fr == [] {
      FragmentsEmpty();
    } else if c == fr[n].top + fr[n].ncl {
      var f, g := fr[n], Fragment(fr[n].ncl + 1, fr[n].top);
      assert fr == fr[..n] + [f];
      ExpandedAppend(fr[..n], [f]);
      ExpandedAppend(fr[..n], [g]);
      ExpandedOne(f);
      ExpandedOne(g);
      assert Run(g) == Run(f) + [c];
    } else {
      ExpandedAppend(fr, [one]);
    }
  }

  /** The last fragment ends with the last cluster. */
  lemma GrownEnd(fr: seq<Fragment>, c: nat)
    ensures var f := Grown(fr, c)[|Grown(fr, c)| - 1]; f.top + f.ncl == c + 1
  {
  }

  lemma FragmentsStep(cs: seq<nat>, c: nat)
    ensures Fragments(cs + [c]) == Grown(Fragments(cs), c)
  {
    assert (cs + [c])[..|cs|] == cs;
  }

  /** The fragments stand for the chain. */
  lemma {:induction false} FragmentsSpell(cs: seq<nat>)
    ensures Expanded(Fragments(cs)) == cs && AllPositive(Fragments(cs))
    decreases |cs|
  {
    hide Grown, AllPositive;
    if cs == [] {
      hide *;
      FragmentsEmpty();
    } else {
      var n := |cs| - 1;
      FragmentsSpell(cs[..n]);
      GrownSpells(Fragments(cs[..n]), cs[n]);
      assert cs == cs[..n] + [cs[n]];
    }
  }

  /** Number of places where the chain does not go on with the next number. */
  ghost function Breaks(cs: seq<nat>): nat {
    if |cs| <= 1 then 0 else Breaks(cs[1..]) + (if cs[1] == cs[0] + 1 then 0 else 1)
  }

  lemma {:induction false} BreaksAppend(a: seq<nat>, b: seq<nat>)
    requires a != [] && b != []
    ensures Breaks(a + b) == Breaks(a) + Breaks(b) + (if b[0] == a[|a| - 1] + 1 then 0 else 1)
    decreases |a|
  {
    if |a| == 1 {
      assert (a + b)[1..] == b;
    } else {
      assert (a + b)[1..] == a[1..] + b;
      BreaksAppend(a[1..], b);
    }
  }

  lemma {:induction false} RunBreaks(f: Fragment)
    ensures Breaks(Run(f)) == 0
    decreases f.ncl
  {
    if f.ncl > 1 {
      RunBreaks(Fragment(f.ncl - 1, f.top + 1));
      assert Run(f)[1..] == Run(Fragment(f.ncl - 1, f.top + 1));
    }
  }

  lemma FragmentsEnd(cs: seq<nat>)
    requires cs != []
    ensures var f := Fragments(cs)[|Fragments(cs)| - 1]; f.top + f.ncl == cs[|cs| - 1] + 1
  {
    GrownEnd(Fragments(cs[..|cs| - 1]), cs[|cs| - 1]);
  }

  lemma {:induction false} FragmentsCount(cs: seq<nat>)
    requires cs != []
    ensures |Fragments(cs)| == Breaks(cs) + 1
    decreases |cs|
  {
    hide Fragments;
    var n := |cs| - 1;
    assert cs == cs[..n] + [cs[n]];
    FragmentsStep(cs[..n], cs[n]);
    if n > 0 {
      FragmentsCount(cs[..n]);
      BreaksAppend(cs[..n], [cs[n]]);
      FragmentsEnd(cs[..n]);
    } else {
      FragmentsEmpty();
    }
  }

  lemma {:induction false} AtLeastBreaks(fr: seq<Fragment>)
    requires fr != [] && AllPositive(fr)
    ensures |fr| >= Breaks(Expanded(fr)) + 1 && Expanded(fr) != []
  {
    RunBreaks(fr[0]);
    if |fr| > 1 {
      AtLeastBreaks(fr[1..]);
      BreaksAppend(Run(fr[0]), Expanded(fr[1..]));
    } else {
      ExpandedOne(fr[0]);
      assert fr == [fr[0]];
    }
  }

  /** No list of fragments for the same chain is shorter: the reported table size is exactly what is needed. */
  lemma FewestFragments(cs: seq<nat>, fr: seq<Fragment>)
    requires AllPositive(fr) && Expanded(fr) == cs
    ensures |Fragments(cs)| <= |fr|
  {
    if fr != [] {
      AtLeastBreaks(fr);
      FragmentsCount(cs);
    }
  }

  // ----- Lookup -----

  /** The cluster number k of the chain, by its fragments; 0 behind the last. */
  ghost function Lookup(fr: seq<Fragment>, k: nat): nat {
    if fr == [] then 0 else if k < fr[0].ncl then fr[0].top + k else Lookup(fr[1..], k - fr[0].ncl)
  }

  lemma {:induction false} LookupIs(fr: seq<Fragment>, k: nat)
    ensures Lookup(fr, k) == if k < |Expanded(fr)| then Expanded(fr)[k] else 0
  {
    if fr != [] {
      LookupIs(fr[1..], if k < fr[0].ncl then 0 else k - fr[0].ncl);
    }
  }

  /** Looking up and following the chain give the same cluster. */
  lemma LookupChain(cs: seq<nat>, k: nat)
    ensures Lookup(Fragments(cs), k) == if k < |cs| then cs[k] else 0
  {
    FragmentsSpell(cs);
    LookupIs(Fragments(cs), k);
  }

  // ----- The table -----

  /** The fragments as far as the table has room for them and its terminator. */
  ghost predicate Stored(tbl: seq<nat>, fr: seq<Fragment>, tlen: nat) {
    && 0 < |tbl| && tlen <= |tbl|
    && forall m :: 0 <= m < |fr| && 4 + 2 * m <= tlen ==> tbl[1 + 2 * m] == fr[m].ncl && tbl[2 + 2 * m] == fr[m].top
  }

  /** A complete link map. */
  ghost predicate LinkMap(tbl: seq<nat>, fr: seq<Fragment>) {
    Stored(tbl, fr, 2 + 2 * |fr|) && AllPositive(fr) && tbl[1 + 2 * |fr|] == 0
  }

  /** Two items of a table set. */
  ghost function Two(tbl: seq<nat>, p: nat, a: nat, b: nat): (u: seq<nat>)
    requires p + 2 <= |tbl|
    ensures |u| == |tbl|
  {
    tbl[..p] + [a, b] + tbl[p + 2..]
  }

  lemma StoredNone(tbl: seq<nat>, tlen: nat)
    requires 0 < |tbl| && tlen <= |tbl|
    ensures Stored(tbl, [], tlen)
  {
  }

  lemma StoredMore(tbl: seq<nat>, fr: seq<Fragment>, tlen: nat, f: Fragment, p: nat)
    requires Stored(tbl, fr, tlen) && p == 1 + 2 * |fr|
    ensures p + 3 <= tlen ==> Stored(Two(tbl, p, f.ncl, f.top), fr + [f], tlen)
    ensures p + 3 > tlen ==> Stored(tbl, fr + [f], tlen)
  {
  }

  /**
   * The CREATE_LINKMAP part of f_lseek.  The first item of the table is its size on entry and the size needed on exit.
   * It fails where the entry of the last cluster ends the chain, but is that cluster's number plus one; no mark that
   * the FAT specification has for the end of a chain is.
   */
  method CreateLinkMap(fs: Volume, tbl: array<nat>, sclust: nat, ghost cs: seq<nat>) returns (res: MapResult)
    requires fs.Valid() && 0 < tbl.Length && tbl[0] <= tbl.Length
    requires if cs == [] then sclust == 0 else Chain(fs.Table(), cs) && sclust == cs[0]
    modifies tbl, fs`disk, fs`wflag, fs`winsect, fs.win
    ensures fs.Valid() && fs.Sight() == old(fs.Sight())
    ensures res == MapIntErr <==> cs != [] && fs.Table()[cs[|cs| - 1]] == cs[|cs| - 1] + 1
    ensures var ulen := 2 + 2 * |Fragments(cs)|;
      res != MapIntErr ==> tbl[0] == ulen && (res == MapOk <==> ulen <= old(tbl[0]))
    ensures res == MapOk ==> LinkMap(tbl[..], Fragments(cs))
    ensures cs == [] || EndMark(fs.g.ty, fs.Table()[cs[|cs| - 1]]) ==> res != MapIntErr
  {
    hide View, FatBytes, TableOf, Coherent, Uniform, Fragments, Linked, ValidLayout, Stored, Expanded, EndMark;
    fs.Facts();
    if cs != [] {
      LastInside(fs.Table(), cs);
      if EndMark(fs.g.ty, fs.Table()[cs[|cs| - 1]]) {
        NoEndMark(fs.g, cs[|cs| - 1], fs.Table()[cs[|cs| - 1]]);
      }
    }
    FragmentsEmpty();
    FragmentsSpell(cs);
    StoredNone(tbl[..], tbl[0]);
    if cs != [] {
      ChainNext(fs.Table(), cs, 0);
    }
    var p, tlen, ulen := 1, tbl[0], 2;
    ghost var i: nat := 0;
    var cl := sclust;
    if cl != 0 {
      assert cs[..0] == [];
      while true
        invariant fs.Valid() && fs.Sight() == old(fs.Sight())
        invariant i < |cs| && cl == cs[i] && (i > 0 ==> cs[i] != cs[i - 1] + 1)
        invariant ulen == 2 + 2 * |Fragments(cs[..i])| && Stored(tbl[..], Fragments(cs[..i]), tlen)
        invariant ulen <= tlen ==> p == ulen - 1
        decreases |cs| - i
      {
        ghost var fr := Fragments(cs[..i]);
        var tcl := cl;
        var ncl;
        cl, ncl, i := FollowRun(fs, cl, cs, i);
        if cl <= 1 {
          return MapIntErr;
        }
        ulen := ulen + 2;
        p := StoreFragment(tbl, p, ulen, tlen, ncl, tcl, fr);
        if cl >= fs.g.nFatent {
          break;
        }
      }
      assert cs[..|cs|] == cs;
    }
    res := Finish(tbl, p, ulen, tlen, Fragments(cs));
  }

  lemma FragmentsEmpty()
    ensures Fragments([]) == [] && Expanded(Fragments([])) == [] && AllPositive(Fragments([]))
  {
  }

  /** A fragment goes into the table if there is room for it and the terminator. */
  method StoreFragment(tbl: array<nat>, p: nat, ulen: nat, tlen: nat, ncl: nat, tcl: nat, ghost fr: seq<Fragment>)
    returns (q: nat)
    requires Stored(tbl[..], fr, tlen) && ulen == 4 + 2 * |fr| && (ulen <= tlen ==> p == 1 + 2 * |fr|)
    modifies tbl
    ensures Stored(tbl[..], fr + [Fragment(ncl, tcl)], tlen) && (ulen <= tlen ==> q == p + 2)
  {
    StoredMore(tbl[..], fr, tlen, Fragment(ncl, tcl), 1 + 2 * |fr|);
    q := p;
    if ulen <= tlen {
      tbl[q] := ncl;
      tbl[q + 1] := tcl;
      q := q + 2;
      assert tbl[..] == Two(old(tbl[..]), p, ncl, tcl);
    }
  }

  method Finish(tbl: array<nat>, p: nat, ulen: nat, tlen: nat, ghost fr: seq<Fragment>) returns (res: MapResult)
    requires ulen == 2 + 2 * |fr| && Stored(tbl[..], fr, tlen) && (ulen <= tlen ==> p == ulen - 1) && AllPositive(fr)
    modifies tbl
    ensures tbl[0] == ulen && res == (if ulen <= tlen then MapOk else NotEnoughCore)
    ensures res == MapOk ==> LinkMap(tbl[..], fr)
  {
    tbl[0] := ulen;
    if ulen <= tlen {
      tbl[p] := 0;
      res := MapOk;
    } else {
      res := NotEnoughCore;
    }
  }

  /** Follows the FAT to the end of a run; gives the cluster behind it, and how long it was. */
  method FollowRun(fs: Volume, start: nat, ghost cs: seq<nat>, ghost i0: nat) returns (cl: nat, ncl: nat, ghost i: nat)
    requires fs.Valid() && Chain(fs.Table(), cs) && i0 < |cs| && start == cs[i0] &&
      (i0 > 0 ==> cs[i0] != cs[i0 - 1] + 1)
    modifies fs`disk, fs`wflag, fs`winsect, fs.win
    ensures fs.Valid() && fs.Sight() == old(fs.Sight()) && i0 < i <= |cs|
    ensures cl <= 1 <==> i == |cs| && fs.Table()[cs[|cs| - 1]] == cs[|cs| - 1] + 1
    ensures cl > 1 ==> Fragments(cs[..i]) == Fragments(cs[..i0]) + [Fragment(ncl, start)]
    ensures cl > 1 && i < |cs| ==> cl == cs[i] && cl < fs.g.nFatent && cs[i] != cs[i - 1] + 1
    ensures cl > 1 && i == |cs| ==> cl >= fs.g.nFatent
  {
    hide View, FatBytes, TableOf, Coherent, Uniform, Fragments, Linked, ValidLayout;
    fs.Facts();
    cl, ncl, i := start, 0, i0;
    ghost var t := fs.Table();
    ChainNext(t, cs, |cs| - 1);
    while true
      invariant fs.Valid() && fs.Sight() == old(fs.Sight()) && i0 <= i <= |cs|
      invariant if i < |cs| then cl == cs[i] else cl == t[cs[|cs| - 1]] == cs[|cs| - 1] + 1
      invariant i == i0 ==> ncl == 0
      invariant i0 < i < |cs| ==> cs[i] == cs[i - 1] + 1
      invariant i > i0 ==> Fragments(cs[..i]) == Fragments(cs[..i0]) + [Fragment(ncl, start)]
      decreases |cs| - i
    {
      var pcl := cl;
      ncl := ncl + 1;
      ghost var last := i == |cs|;
      if i < |cs| {
        RunStep(cs, i0, i, ncl - 1);
        i := i + 1;
      }
      ChainNext(t, cs, i - 1);
      cl := fs.GetFat(cl);
      if cl <= 1 {
        return;
      }
      if cl != pcl + 1 {
        break;
      }
    }
  }

  lemma ChainNext(t: Table, cs: seq<nat>, i: nat)
    requires Chain(t, cs) && i < |cs|
    ensures 2 <= cs[i] < |t| && t[cs[i]] == if i + 1 < |cs| then cs[i + 1] else t[cs[|cs| - 1]]
    ensures i + 1 < |cs| ==> 2 <= cs[i + 1] < |t|
    ensures t[cs[|cs| - 1]] >= |t|
  {
  }

  /** The fragment that began with cluster i0 goes on with cluster i, or begins with it. */
  lemma RunStep(cs: seq<nat>, i0: nat, i: nat, ncl: nat)
    requires i0 <= i < |cs| && (i0 > 0 ==> cs[i0] != cs[i0 - 1] + 1) && (i == i0 ==> ncl == 0)
    requires i > i0 ==> cs[i] == cs[i - 1] + 1 && Fragments(cs[..i]) == Fragments(cs[..i0]) + [Fragment(ncl, cs[i0])]
    ensures Fragments(cs[..i + 1]) == Fragments(cs[..i0]) + [Fragment(ncl + 1, cs[i0])]
  {
    hide Fragments;
    assert cs[..i] + [cs[i]] == cs[..i + 1];
    FragmentsStep(cs[..i], cs[i]);
    if i > 0 {
      FragmentsEnd(cs[..i]);
    } else {
      FragmentsEmpty();
    }
  }

  /** clmt_clust: the cluster of the byte at offset ofs; 0 when the map does not reach that far. */
  method ClmtClust(tbl: array<nat>, ofs: nat, ss: nat, csize: nat, ghost fr: seq<Fragment>) returns (cl: nat)
    requires ss > 0 && csize > 0 && LinkMap(tbl[..], fr)
    ensures cl == Lookup(fr, Row(ofs, ss * csize))
  {
    hide Row, Col, Lookup, LinkMap;
    SectorRow(ofs, ss, csize);
    LookupStep(fr, Row(ofs, ss * csize));
    var p := 1;
    ghost var m: nat := 0;
    assert fr[0..] == fr;
    cl := Row(Row(ofs, ss), csize);
    while true
      invariant 0 <= m <= |fr| && p == 1 + 2 * m
      invariant Lookup(fr, Row(ofs, ss * csize)) == Lookup(fr[m..], cl)
      decreases |fr| - m
    {
      LookupStep(fr[m..], cl);
      LinkMapAt(tbl[..], fr, m);
      var ncl := tbl[p];
      p := p + 1;
      if ncl == 0 {
        return 0;
      }
      if cl < ncl {
        break;
      }
      cl := cl - ncl;
      p := p + 1;
      m := m + 1;
      assert fr[m - 1..][1..] == fr[m..];
    }
    cl := cl + tbl[p];
  }

  lemma LinkMapAt(tbl: seq<nat>, fr: seq<Fragment>, m: nat)
    requires LinkMap(tbl, fr) && m <= |fr|
    ensures m == |fr| ==> 1 + 2 * m < |tbl| && tbl[1 + 2 * m] == 0
    ensures m < |fr| ==> 2 + 2 * m < |tbl| && tbl[1 + 2 * m] == fr[m].ncl > 0 && tbl[2 + 2 * m] == fr[m].top
  {
  }

  lemma LookupStep(fr: seq<Fragment>, k: nat)
    ensures Lookup(fr, k) == if fr == [] then 0 else if k < fr[0].ncl then fr[0].top + k
      else Lookup(fr[1..], k - fr[0].ncl)
  {
  }

  // ----- End marks -----

  /** The marks that the FAT specification has for the end of a chain; this code writes the last of them. */
  ghost predicate EndMark(ty: FsType, v: nat) {
    Range(ty) - 8 <= v < Range(ty)
  }

  /** No such mark is the number behind a cluster. */
  lemma NoEndMark(g: Layout, c: nat, v: nat)
    requires ValidLayout(g) && c < g.nFatent && EndMark(g.ty, v)
    ensures v != c + 1 && EndMark(g.ty, Eoc(g.ty))
  {
    hide Roomy;
  }

  lemma LastInside(t: Table, cs: seq<nat>)
    requires Chain(t, cs)
    ensures cs[|cs| - 1] < |t|
  {
  }

  /** A FAT12 volume of one cluster, with an entry of 3 for it: damaged, but the chain ends there. */
  const DAMAGED: Layout := Layout(FAT12, 1, 512, 1, 3, 1, 1, 2, 3)

  lemma DamagedTable(fat: Sector)
    requires |fat| == 512 && fat[3] == 3 && fat[4] == 0
    ensures ValidLayout(DAMAGED) && TableOf(FAT12, fat, 3)[2] == 3 && Chain(TableOf(FAT12, fat, 3), [2])
  {
    assert Get(FAT12, fat, 2) == 3;
  }

  /** On that volume creating the map fails. */
  method DamagedEndMark() returns (fs: Volume, res: MapResult)
    ensures fresh(fs) && fs.Valid() && Chain(fs.Table(), [2]) && fs.Table()[2] == 3 && res == MapIntErr
  {
    hide ValidLayout, Chain, TableOf, Coherent, Uniform;
    var zeros: Sector := seq(512, i => 0);
    var fat := zeros[3 := 3];
    var disk := [zeros, fat, zeros];
    DamagedTable(fat);
    DamagedDisk(disk);
    fs := new Volume(DAMAGED, disk, 0);
    DamagedSight(fs, disk);
    var tbl := new nat[8](i => 8);
    res := CreateLinkMap(fs, tbl, 2, [2]);
  }

  lemma DamagedDisk(disk: seq<Sector>)
    requires |disk| == 3 && |disk[0]| == |disk[1]| == |disk[2]| == 512 && ValidLayout(DAMAGED)
    ensures Uniform(disk, 512) && FatsAgree(DAMAGED, disk)
  {
  }

  lemma DamagedSight(fs: Volume, disk: seq<Sector>)
    requires fs.Valid() && fs.g == DAMAGED && |disk| == 3 && fs.Sight() == disk
    ensures fs.Table() == TableOf(FAT12, disk[1], 3)
  {
    assert disk[1..2] == [disk[1]];
    FlatOne(disk[1]);
    assert fs.Fat() == disk[1];
  }

  // ----- The map and the FAT -----

  /** The cluster k steps behind c on the FAT; 1 where that leads out of the chain. */
  ghost function Walk(t: Table, c: nat, k: nat): (r: nat)
    decreases k
  {
    if c < 2 || c >= |t| then 1 else if k == 0 then c else Walk(t, t[c], k - 1)
  }

  lemma {:induction false} WalkChain(t: Table, cs: seq<nat>, i: nat, k: nat)
    requires Chain(t, cs) && i < |cs|
    ensures Walk(t, cs[i], k) == if i + k < |cs| then cs[i + k] else 1
    decreases k
  {
    hide Chain;
    ChainNext(t, cs, i);
    if k > 0 && i + 1 < |cs| {
      WalkChain(t, cs, i + 1, k - 1);
    }
  }

  lemma MapIsWalk(g: Layout, cs: seq<nat>, ofs: nat)
    requires g.csize > 0 && g.ss > 0
    ensures ofs < |cs| * (g.ss * g.csize) ==>
      Row(ofs, g.ss * g.csize) < |cs| && Lookup(Fragments(cs), Row(ofs, g.ss * g.csize)) == cs[Row(ofs, g.ss * g.csize)]
    ensures ofs >= |cs| * (g.ss * g.csize) ==> Lookup(Fragments(cs), Row(ofs, g.ss * g.csize)) == 0
  {
    MulStep(g.ss, 0, g.csize);
    RowLess(ofs, |cs|, g.ss * g.csize);
    hide Row, Lookup, Fragments;
    LookupChain(cs, Row(ofs, g.ss * g.csize));
  }

  /** Following the FAT from the start cluster of a file. */
  method SlowWalk(fs: Volume, sclust: nat, k: nat) returns (cl: nat)
    requires fs.Valid()
    modifies fs`disk, fs`wflag, fs`winsect, fs.win
    ensures fs.Valid() && fs.Sight() == old(fs.Sight())
    ensures 2 <= cl < fs.g.nFatent ==> cl == Walk(fs.Table(), sclust, k)
    ensures !(2 <= cl < fs.g.nFatent) ==> Walk(fs.Table(), sclust, k) == 1
  {
    hide View, FatBytes, TableOf, Coherent, Uniform;
    fs.Facts();
    cl := sclust;
    var i := k;
    while i > 0 && 2 <= cl < fs.g.nFatent
      invariant 0 <= i <= k && fs.Valid() && fs.Sight() == old(fs.Sight())
      invariant Walk(fs.Table(), sclust, k) == Walk(fs.Table(), cl, i)
    {
      cl := fs.GetFat(cl);
      i := i - 1;
    }
  }

  /**
   * The map of a file is built, and then a byte looked up in it and found by following the FAT as well: both lead to
   * the same cluster, anywhere inside the file's clusters, and neither to any behind them.
   */
  method FastAndSlow(fs: Volume, tbl: array<nat>, sclust: nat, ofs: nat, ghost cs: seq<nat>)
    returns (res: MapResult, fast: nat, slow: nat)
    requires fs.Valid() && 0 < tbl.Length && tbl[0] <= tbl.Length && Chain(fs.Table(), cs) && sclust == cs[0]
    modifies tbl, fs`disk, fs`wflag, fs`winsect, fs.win
    ensures fs.Valid() && fs.Sight() == old(fs.Sight())
    ensures res == MapOk ==> SameCluster(fs.g.ss * fs.g.csize, cs, ofs, fs.g.nFatent, fast, slow)
  {
    hide View, FatBytes, TableOf, Coherent, Uniform, Fragments, Lookup, LinkMap, Linked, Walk;
    fs.Facts();
    var c := fs.g.ss * fs.g.csize;
    MulStep(fs.g.ss, 0, fs.g.csize);
    res := CreateLinkMap(fs, tbl, sclust, cs);
    fast, slow := 0, 0;
    if res == MapOk {
      fast := ClmtClust(tbl, ofs, fs.g.ss, fs.g.csize, Fragments(cs));
      slow := SlowWalk(fs, sclust, Row(ofs, c));
      MapIsWalk(fs.g, cs, ofs);
      WalkChain(fs.Table(), cs, 0, Row(ofs, c));
      RowLess(ofs, |cs|, c);
      ChainRange(fs.Table(), cs);
    }
  }

  /** Inside a file's clusters of c bytes both have found the right one, and neither has found one behind them. */
  ghost predicate SameCluster(c: nat, cs: seq<nat>, ofs: nat, nFatent: nat, fast: nat, slow: nat) {
    c > 0 &&
    if ofs < |cs| * c then Row(ofs, c) < |cs| && fast == slow == cs[Row(ofs, c)]
    else fast == 0 && !(2 <= slow < nFatent)
  }

  lemma ChainRange(t: Table, cs: seq<nat>)
    requires Chain(t, cs)
    ensures forall i :: 0 <= i < |cs| ==> 2 <= cs[i] < |t|
  {
  }
}
