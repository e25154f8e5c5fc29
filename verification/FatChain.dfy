/** Stretching and removing cluster chains on FAT12/16/32 volumes. */
module FatChain {
  import opened Sectors
  import opened FatEntry
  import opened FatVolume
  import opened FatTable

  datatype Res = Ok | IntErr

  function Eoc(ty: FsType): nat { Range(ty) - 1 }

  lemma EocLarge(g: Layout, c: nat)
    requires ValidLayout(g) && c < g.nFatent
    ensures 0xFFFF_FFFF % Range(g.ty) == Eoc(g.ty) >= g.nFatent && c % Range(g.ty) == c
  {
    hide Roomy;
  }

  lemma SameOutsideTrans(g: Layout, a: seq<Sector>, b: seq<Sector>, c: seq<Sector>)
    requires ValidLayout(g) && |a| == |b| == |c| == g.nsect
    requires SameOutside(g, a, b) && SameOutside(g, b, c)
    ensures SameOutside(g, a, c)
  {
    hide ValidLayout;
  }

  /** The window is where it was, or on the FAT. */
  ghost predicate OnFat(g: Layout, winsect: nat, before: nat) {
    winsect == before || g.fatbase <= winsect < g.fatbase + g.fsize
  }

  /** Where the search for a free cluster starts. */
  ghost function SearchStart(t: Table, clst: nat, last: nat): nat {
    if clst == 0 then (if last == 0 || last >= |t| then 1 else last)
    else if NextFree(t, clst) then clst
    else if 2 <= last < |t| then last
    else clst
  }

  /** Is the cluster behind clst, going round, free? */
  ghost predicate NextFree(t: Table, clst: nat) {
    |t| > 2 && t[if clst + 1 >= |t| then 2 else clst + 1] == 0
  }

  /** An entry with the value 1, which no chain contains. */
  ghost predicate HasOne(t: Table) {
    exists c :: 2 <= c < |t| && t[c] == 1
  }

  /** The search loop of create_chain. */
  method Search(fs: Volume, scl: nat) returns (r: nat)
    requires fs.Valid() && 1 <= scl < fs.g.nFatent
    modifies fs`disk, fs`wflag, fs`winsect, fs.win
    ensures fs.Valid() && fs.Sight() == old(fs.Sight()) && OnFat(fs.g, fs.winsect, old(fs.winsect))
    ensures r >= 2 ==> FirstFree(fs.Table(), scl, r)
    ensures r == 1 ==> HasOne(fs.Table())
    ensures r == 0 ==> Free(fs.Table()) == 0
  {
    hide Coherent, FatsAgree, View, FatBytes, TableOf, Roomy;
    CoherentFacts(fs.g, fs.disk, fs.win[..], fs.winsect, fs.wflag);
    var ncl := scl;
    ghost var t := fs.Table();
    ghost var wrapped := false;
    FreeBounds(t);
    while true
      invariant fs.Valid() && fs.Sight() == old(fs.Sight()) && OnFat(fs.g, fs.winsect, old(fs.winsect))
      invariant !wrapped ==> scl <= ncl < fs.g.nFatent && forall c :: scl < c <= ncl && 2 <= c ==> t[c] != 0
      invariant wrapped ==>
        2 <= ncl < scl && (forall c :: scl < c < |t| && 2 <= c ==> t[c] != 0) &&
        (forall c :: 2 <= c <= ncl ==> t[c] != 0)
      decreases !wrapped, fs.g.nFatent - ncl
    {
      ncl := ncl + 1;
      if ncl >= fs.g.nFatent {
        ncl := 2;
        wrapped := true;
        if ncl > scl {
          return 0;
        }
      }
      var cs := fs.GetFat(ncl);
      if cs == 0 {
        return ncl;
      }
      if cs == 1 {
        assert t[ncl] == 1;
        return 1;
      }
      if ncl == scl {
        return 0;
      }
    }
  }

  lemma SameOutsideSelf(g: Layout, a: seq<Sector>)
    requires ValidLayout(g) && |a| == g.nsect
    ensures SameOutside(g, a, a)
  {
  }

  /** Looks at the next cluster first when a chain is stretched, then searches the whole table. */
  method FindFree(fs: Volume, clst: nat, scl0: nat) returns (r: nat)
    requires fs.Valid()
    requires clst == 0 ==> scl0 == SearchStart(fs.Table(), 0, fs.lastClst)
    requires clst != 0 ==> 2 <= clst < fs.g.nFatent && scl0 == clst
    modifies fs`disk, fs`wflag, fs`winsect, fs.win
    ensures fs.Valid() && fs.Sight() == old(fs.Sight()) && OnFat(fs.g, fs.winsect, old(fs.winsect))
    ensures r >= 2 ==> FirstFree(fs.Table(), SearchStart(fs.Table(), clst, fs.lastClst), r)
    ensures r >= 2 ==> r < fs.g.nFatent && fs.Table()[r] == 0
    ensures r == 1 ==> HasOne(fs.Table())
    ensures r == 0 ==> Free(fs.Table()) == 0
  {
    hide Coherent, FatsAgree, View, FatBytes, TableOf, ValidLayout, SameOutside, Free, Uniform;
    CoherentFacts(fs.g, fs.disk, fs.win[..], fs.winsect, fs.wflag);
    var scl, ncl := scl0, 0;
    ghost var t := fs.Table();
    if scl == clst {
      ncl := scl + 1;
      if ncl >= fs.g.nFatent {
        ncl := 2;
      }
      var cs := fs.GetFat(ncl);
      if cs == 1 {
        assert t[ncl] == 1;
        return 1;
      }
      if cs != 0 {
        cs := fs.lastClst;
        if cs >= 2 && cs < fs.g.nFatent {
          scl := cs;
        }
        ncl := 0;
      }
    }
    if ncl == 0 {
      hide FirstFree;
      ncl := Search(fs, scl);
    }
    return ncl;
  }

  method Link(fs: Volume, clst: nat, ncl: nat)
    requires fs.Valid() && 2 <= ncl < fs.g.nFatent
    requires clst != 0 ==> 2 <= clst < fs.g.nFatent
    modifies fs`disk, fs`wflag, fs`winsect, fs.win
    ensures fs.Valid() && SameOutside(fs.g, old(fs.Sight()), fs.Sight()) && OnFat(fs.g, fs.winsect, old(fs.winsect))
    ensures fs.Table() == Stretched(old(fs.Table()), clst, ncl, Eoc(fs.g.ty))
  {
    hide Coherent, FatsAgree, View, FatBytes, TableOf, ValidLayout, SameOutside, Uniform, Range;
    CoherentFacts(fs.g, fs.disk, fs.win[..], fs.winsect, fs.wflag);
    EocLarge(fs.g, ncl);
    var ok := fs.PutFat(ncl, 0xFFFF_FFFF);
    ghost var v := fs.Sight();
    if clst != 0 {
      ok := fs.PutFat(clst, ncl);
      SameOutsideTrans(fs.g, old(fs.Sight()), v, fs.Sight());
    }
  }

  lemma StretchedDiffers(t: Table, clst: nat, r: nat, eoc: nat)
    requires 2 <= r < |t| && t[r] == 0 && clst < |t| && eoc > 0
    ensures Stretched(t, clst, r, eoc) != t
  {
    assert Stretched(t, clst, r, eoc)[r] != 0;
  }

  /** What create_chain returns for a given table, and the table it leaves. */
  ghost predicate Created(ty: FsType, t: Table, free: nat, last: nat, clst: nat, r: nat, u: Table) {
    if clst != 0 && (clst < 2 || clst >= |t| || t[clst] < 2) then r == 1 && u == t
    else if clst != 0 && t[clst] < |t| then r == t[clst] && u == t
    else if r == 0 then u == t && (free == 0 || Free(t) == 0)
    else if r == 1 then u == t && HasOne(t)
    else free != 0 && FirstFree(t, SearchStart(t, clst, last), r) && u == Stretched(t, clst, r, Eoc(ty))
  }

  /** create_chain: follows a chain, or takes a free cluster to stretch it or to start a new one. */
  method CreateChain(fs: Volume, clst: nat) returns (r: nat)
    requires fs.Valid()
    modifies fs`disk, fs`wflag, fs`winsect, fs.win, fs`lastClst, fs`freeClst, fs`fsiDirty
    ensures fs.Valid() && SameOutside(fs.g, old(fs.Sight()), fs.Sight()) && OnFat(fs.g, fs.winsect, old(fs.winsect))
    ensures Created(fs.g.ty, old(fs.Table()), old(fs.freeClst), old(fs.lastClst), clst, r, fs.Table())
    ensures fs.Table() == old(fs.Table()) ==> fs.Sight() == old(fs.Sight())
    ensures fs.Table() == old(fs.Table()) ==> fs.lastClst == old(fs.lastClst) && fs.freeClst == old(fs.freeClst)
    ensures fs.Table() != old(fs.Table()) ==> fs.lastClst == r && fs.fsiDirty
    ensures fs.Table() != old(fs.Table()) ==>
      fs.freeClst == if old(fs.freeClst) <= fs.g.nFatent - 2 then old(fs.freeClst) - 1 else old(fs.freeClst)
  {
    hide Coherent, FatsAgree, View, FatBytes, TableOf, ValidLayout, SameOutside, FirstFree, Free, Uniform;
    CoherentFacts(fs.g, fs.disk, fs.win[..], fs.winsect, fs.wflag);
    SameOutsideSelf(fs.g, fs.Sight());
    ghost var t := fs.Table();
    var scl, cs;
    if clst == 0 {
      scl := fs.lastClst;
      if scl == 0 || scl >= fs.g.nFatent {
        scl := 1;
      }
    } else {
      cs := fs.GetFat(clst);
      if cs < 2 {
        return 1;
      }
      if cs < fs.g.nFatent {
        return cs;
      }
      scl := clst;
    }
    if fs.freeClst == 0 {
      return 0;
    }
    r := FindFree(fs, clst, scl);
    if r < 2 {
      return;
    }
    Link(fs, clst, r);
    fs.lastClst := r;
    if fs.freeClst <= fs.g.nFatent - 2 {
      fs.freeClst := fs.freeClst - 1;
    }
    fs.fsiDirty := true;
    StretchedDiffers(t, clst, r, Eoc(fs.g.ty));
  }

  // ----- What stretching means for the chains -----

  /** The chains after create_chain gave out cluster r, either behind chain k or as a chain of its own. */
  ghost function NewChains(chains: seq<seq<nat>>, clst: nat, k: nat, r: nat): seq<seq<nat>>
    requires clst != 0 ==> k < |chains|
  {
    if clst == 0 then chains + [[r]] else chains[k := chains[k] + [r]]
  }

  /**
   * On a table of disjoint chains, create_chain called for the end of chain k (or for none) fails only when
   * no cluster is free, and otherwise hands out a free cluster and leaves disjoint chains.
   */
  lemma CreatedKeepsChains(ty: FsType, t: Table, free: nat, last: nat, clst: nat, r: nat, u: Table,
    chains: seq<seq<nat>>, k: nat)
    requires Created(ty, t, free, last, clst, r, u) && Partition(t, chains) && |t| > 2 && Eoc(ty) >= |t|
    requires free == Free(t) || free > |t| - 2
    requires clst != 0 ==> k < |chains| && chains[k] != [] && chains[k][|chains[k]| - 1] == clst
    ensures r != 1
    ensures r == 0 <==> Free(t) == 0
    ensures r == 0 ==> u == t
    ensures r != 0 ==> 2 <= r < |t| && t[r] == 0 && Partition(u, NewChains(chains, clst, k, r))
    ensures r != 0 && free == Free(t) ==> Free(u) == free - 1
  {
    hide AllChains, Apart, Covered, FirstFree, Free;
    NoOnes(t, chains);
    FreeBounds(t);
    EndOfChain(t, chains, k, clst);
    if r != 0 {
      FirstFreeIsFree(t, SearchStart(t, clst, last), r);
      FreeUpdate(t, r, Eoc(ty));
      if clst == 0 {
        StretchNone(t, chains, r, Eoc(ty));
      } else {
        StretchOne(t, chains, k, r, Eoc(ty));
        FreeUpdate(t[r := Eoc(ty)], clst, r);
      }
    }
  }

  /**
   * Where a new cluster is, and what the table then has: the one behind the chain if it is free, and else the first
   * free one going round from the cluster handed out last, or from the chain if there is none such.
   */
  lemma CreatedWhere(ty: FsType, t: Table, free: nat, last: nat, clst: nat, r: nat, u: Table)
    requires Created(ty, t, free, last, clst, r, u) && u != t
    ensures 2 <= r < |t| && t[r] == 0
    ensures u[r] == (match ty case FAT12 => 0xFFF case FAT16 => 0xFFFF case FAT32 => 0xFFF_FFFF)
    ensures forall c :: 0 <= c < |t| && c != r ==> u[c] == if c == clst != 0 then r else t[c]
    ensures clst == 0 ==> FirstFree(t, if last < |t| then last else 0, r)
    ensures clst != 0 && clst + 1 < |t| && t[clst + 1] == 0 ==> r == clst + 1
    ensures clst + 1 == |t| && t[2] == 0 ==> r == 2
    ensures clst != 0 && t[if clst + 1 < |t| then clst + 1 else 2] != 0 ==>
      FirstFree(t, if 2 <= last < |t| then last else clst, r)
  {
  }

  lemma EndOfChain(t: Table, chains: seq<seq<nat>>, k: nat, clst: nat)
    requires AllChains(t, chains)
    ensures k < |chains| && chains[k] != [] && chains[k][|chains[k]| - 1] == clst ==> 2 <= clst < |t| && t[clst] >= |t|
  {
  }

  lemma FirstFreeIsFree(t: Table, s: nat, r: nat)
    requires FirstFree(t, s, r)
    ensures 2 <= r < |t| && t[r] == 0
  {
  }

  lemma NoOnes(t: Table, chains: seq<seq<nat>>)
    requires Partition(t, chains)
    ensures !HasOne(t)
  {
    if HasOne(t) {
      var c :| 2 <= c < |t| && t[c] == 1;
      assert InSome(chains, c);
      var i :| 0 <= i < |chains| && c in chains[i];
      NotOne(t, chains[i], c);
    }
  }

  lemma NotOne(t: Table, cs: seq<nat>, c: nat)
    requires Chain(t, cs) && c in cs && |t| > 1
    ensures c < |t| && t[c] != 1
  {
    var j :| 0 <= j < |cs| && cs[j] == c;
    if j < |cs| - 1 {
      assert t[cs[j]] == cs[j + 1];
    }
  }

  // ----- Removing -----

  /** The table once the previous cluster, if there is one, ends its chain. */
  ghost function Ended(ty: FsType, t: Table, pclst: nat): (u: Table)
    requires pclst < |t|
    ensures |u| == |t|
  {
    if pclst == 0 then t else t[pclst := Eoc(ty)]
  }

  /**
   * remove_chain: frees entries from clst on, whatever the table looks like; it always stops, since
   * each turn leaves one entry less in use.
   */
  method RemoveChain(fs: Volume, clst: nat, pclst: nat) returns (res: Res)
    requires fs.Valid()
    modifies fs`disk, fs`wflag, fs`winsect, fs.win, fs`freeClst, fs`fsiDirty
    ensures fs.Valid() && SameOutside(fs.g, old(fs.Sight()), fs.Sight()) && OnFat(fs.g, fs.winsect, old(fs.winsect))
    ensures var bad := clst < 2 || clst >= fs.g.nFatent || pclst == 1 || pclst >= fs.g.nFatent;
      if bad then res == IntErr && fs.Sight() == old(fs.Sight())
      else (fs.Table(), res == Ok) == FreeFrom(Ended(fs.g.ty, old(fs.Table()), pclst), clst)
    ensures old(fs.freeClst) == Free(old(fs.Table())) && (2 <= pclst < fs.g.nFatent ==> old(fs.Table())[pclst] != 0) ==>
      fs.freeClst == Free(fs.Table())
    ensures old(fs.freeClst) > fs.g.nFatent - 2 ==> fs.freeClst == old(fs.freeClst)
    ensures fs.freeClst == old(fs.freeClst) || fs.fsiDirty
  {
    hide Coherent, FatsAgree, View, FatBytes, TableOf, ValidLayout, SameOutside, Free, Uniform, Range, FreeFrom;
    CoherentFacts(fs.g, fs.disk, fs.win[..], fs.winsect, fs.wflag);
    SameOutsideSelf(fs.g, fs.Sight());
    if clst < 2 || clst >= fs.g.nFatent {
      return IntErr;
    }
    if pclst != 0 {
      EocLarge(fs.g, clst);
      FreeEnded(fs.Table(), pclst, fs.g.ty);
      var ok := fs.PutFat(pclst, 0xFFFF_FFFF);
      if !ok {
        return IntErr;
      }
    }
    ghost var v := fs.Sight();
    res := FreeEntries(fs, clst);
    SameOutsideTrans(fs.g, old(fs.Sight()), v, fs.Sight());
  }

  lemma FreeEnded(t: Table, pclst: nat, ty: FsType)
    ensures 2 <= pclst < |t| && t[pclst] != 0 ==> Free(t[pclst := Eoc(ty)]) == Free(t)
  {
    if 2 <= pclst < |t| {
      FreeUpdate(t, pclst, Eoc(ty));
    }
  }

  /** The loop of remove_chain. */
  method FreeEntries(fs: Volume, clst0: nat) returns (res: Res)
    requires fs.Valid() && 2 <= clst0 < fs.g.nFatent
    modifies fs`disk, fs`wflag, fs`winsect, fs.win, fs`freeClst, fs`fsiDirty
    ensures fs.Valid() && SameOutside(fs.g, old(fs.Sight()), fs.Sight()) && OnFat(fs.g, fs.winsect, old(fs.winsect))
    ensures (fs.Table(), res == Ok) == FreeFrom(old(fs.Table()), clst0)
    ensures old(fs.freeClst) == Free(old(fs.Table())) ==> fs.freeClst == Free(fs.Table())
    ensures old(fs.freeClst) > fs.g.nFatent - 2 ==> fs.freeClst == old(fs.freeClst)
    ensures fs.freeClst == old(fs.freeClst) || fs.fsiDirty
  {
    hide Coherent, FatsAgree, View, FatBytes, TableOf, ValidLayout, SameOutside, Free, Uniform, Range, FreeFrom;
    CoherentFacts(fs.g, fs.disk, fs.win[..], fs.winsect, fs.wflag);
    SameOutsideSelf(fs.g, fs.Sight());
    var clst := clst0;
    while true
      invariant fs.Valid() && 2 <= clst < fs.g.nFatent
      invariant SameOutside(fs.g, old(fs.Sight()), fs.Sight()) && OnFat(fs.g, fs.winsect, old(fs.winsect))
      invariant FreeFrom(fs.Table(), clst) == FreeFrom(old(fs.Table()), clst0)
      invariant old(fs.freeClst) == Free(old(fs.Table())) ==> fs.freeClst == Free(fs.Table())
      invariant old(fs.freeClst) > fs.g.nFatent - 2 ==> fs.freeClst == old(fs.freeClst)
      invariant fs.freeClst == old(fs.freeClst) || fs.fsiDirty
      decreases fs.g.nFatent - Free(fs.Table())
    {
      ghost var t, v := fs.Table(), fs.Sight();
      FreeFromStep(t, clst);
      var nxt := fs.GetFat(clst);
      if nxt == 0 {
        return Ok;
      }
      if nxt == 1 {
        return IntErr;
      }
      FreedOne(t, clst);
      var _ := fs.PutFat(clst, 0);
      SameOutsideTrans(fs.g, old(fs.Sight()), v, fs.Sight());
      if fs.freeClst < fs.g.nFatent - 2 {
        fs.freeClst := fs.freeClst + 1;
        fs.fsiDirty := true;
      }
      clst := nxt;
      if clst >= fs.g.nFatent {
        return Ok;
      }
    }
  }

  lemma FreeFromStep(t: Table, clst: nat)
    requires 2 <= clst < |t|
    ensures FreeFrom(t, clst) ==
      (var nxt := t[clst];
       if nxt == 0 then (t, true)
       else if nxt == 1 then (t, false)
       else if nxt < |t| then FreeFrom(t[clst := 0], nxt)
       else (t[clst := 0], true))
  {
  }

  lemma FreedOne(t: Table, clst: nat)
    requires 2 <= clst < |t| && t[clst] != 0
    ensures Free(t[clst := 0]) == Free(t) + 1 <= |t| - 2
  {
    FreeUpdate(t, clst, 0);
    FreeBounds(t[clst := 0]);
  }

  /** On disjoint chains, remove_chain called for cluster m of chain k frees that cluster and those behind it. */
  lemma RemovedKeepsChains(ty: FsType, t: Table, chains: seq<seq<nat>>, k: nat, m: nat)
    requires Partition(t, chains) && k < |chains| && m < |chains[k]| && Eoc(ty) >= |t|
    ensures AllChains(t, chains) && chains[k] != [] && 2 <= chains[k][m] < |t| && (m > 0 ==> chains[k][m - 1] < |t|)
    ensures var cs := chains[k];
      var f := FreeFrom(Ended(ty, t, if m == 0 then 0 else cs[m - 1]), cs[m]);
      && f.1
      && Partition(f.0, if m == 0 then chains[..k] + chains[k + 1..] else chains[k := cs[..m]])
      && forall c :: 2 <= c < |t| ==> (f.0[c] == 0 <==> t[c] == 0 || c in cs[m..])
  {
    hide Apart, Covered, FreeFrom;
    var cs := chains[k];
    assert Chain(t, cs);
    if m == 0 {
      FreeFromChain(t, cs);
      RemoveOne(t, chains, k);
      assert cs[0..] == cs;
    } else {
      FreeFromMiddle(t, cs, m, Eoc(ty));
      TruncateOne(t, chains, k, m, Eoc(ty));
      ChainInUse(t, cs, cs[m - 1]);
    }
  }
}
