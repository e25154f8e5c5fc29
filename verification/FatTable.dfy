/**
 * A file allocation table as a sequence of entries: entry c of a table t is 0 when cluster c is
 * free, the next cluster of its chain when below |t|, and otherwise an end-of-chain mark.
 */
module FatTable {
  type Table = seq<nat>

  // ----- Free entries -----

  /** Number of free clusters below i. */
  ghost function CountFree(t: Table, i: nat): (n: nat)
    requires i <= |t|
    ensures n <= i
  {
    if i <= 2 then 0 else CountFree(t, i - 1) + (if t[i - 1] == 0 then 1 else 0)
  }

  ghost function Free(t: Table): nat { CountFree(t, |t|) }

  lemma {:induction false} CountUpdate(t: Table, i: nat, c: nat, v: nat)
    requires i <= |t| && 2 <= c < |t|
    ensures CountFree(t[c := v], i) ==
      CountFree(t, i) + (if c < i && v == 0 then 1 else 0) - (if c < i && t[c] == 0 then 1 else 0)
  {
    if i > 2 {
      CountUpdate(t, i - 1, c, v);
    }
  }

  lemma {:induction false} CountPositive(t: Table, i: nat)
    requires i <= |t|
    ensures CountFree(t, i) == 0 <==> forall c :: 2 <= c < i ==> t[c] != 0
    ensures i >= 2 ==> CountFree(t, i) <= i - 2
  {
    if i > 2 {
      CountPositive(t, i - 1);
    }
  }

  /** The table is no free entry but one less, or one more. */
  lemma FreeUpdate(t: Table, c: nat, v: nat)
    requires 2 <= c < |t|
    ensures Free(t[c := v]) == Free(t) + (if v == 0 then 1 else 0) - (if t[c] == 0 then 1 else 0)
  {
    CountUpdate(t, |t|, c, v);
  }

  lemma FreeBounds(t: Table)
    requires |t| > 2
    ensures Free(t) <= |t| - 2
    ensures Free(t) == 0 <==> forall c :: 2 <= c < |t| ==> t[c] != 0
  {
    CountPositive(t, |t|);
  }

  /** r is the first free cluster met going round the table from behind s. */
  ghost predicate FirstFree(t: Table, s: nat, r: nat) {
    && 2 <= r < |t| && t[r] == 0
    && (r > s ==> forall c :: s < c < r && 2 <= c ==> t[c] != 0)
    && (r <= s ==> (forall c :: s < c < |t| && 2 <= c ==> t[c] != 0) && (forall c :: 2 <= c < r ==> t[c] != 0))
  }

  // ----- Chains -----

  ghost predicate Linked(t: Table, cs: seq<nat>) {
    && (forall i :: 0 <= i < |cs| ==> 2 <= cs[i] < |t|)
    && (forall i :: 0 <= i < |cs| - 1 ==> t[cs[i]] == cs[i + 1])
  }

  /** The clusters of a chain, in order. */
  ghost predicate Chain(t: Table, cs: seq<nat>) {
    cs != [] && Linked(t, cs) && t[cs[|cs| - 1]] >= |t|
  }

  ghost predicate Distinct(cs: seq<nat>) {
    forall i, j :: 0 <= i < j < |cs| ==> cs[i] != cs[j]
  }

  /** Chains never run in circles: going on from equal clusters, one would end before the other. */
  lemma {:induction false} SameRest(t: Table, cs: seq<nat>, i: nat, j: nat)
    requires Chain(t, cs) && i < j < |cs|
    ensures cs[i] != cs[j]
    decreases |cs| - j
  {
    assert t[cs[i]] == cs[i + 1];
    if j < |cs| - 1 {
      assert t[cs[j]] == cs[j + 1];
      SameRest(t, cs, i + 1, j + 1);
    }
  }

  lemma ChainDistinct(t: Table, cs: seq<nat>)
    requires Chain(t, cs)
    ensures Distinct(cs)
  {
    forall i, j | 0 <= i < j < |cs|
      ensures cs[i] != cs[j]
    {
      SameRest(t, cs, i, j);
    }
  }

  /** A chain depends on the entries of its own clusters only. */
  lemma ChainFrame(t: Table, u: Table, cs: seq<nat>)
    requires Chain(t, cs) && |u| == |t| && forall c :: c in cs && c < |t| ==> u[c] == t[c]
    ensures Chain(u, cs)
  {
    assert forall i :: 0 <= i < |cs| ==> cs[i] in cs;
  }

  lemma ChainInUse(t: Table, cs: seq<nat>, c: nat)
    requires Chain(t, cs) && c in cs
    ensures 2 <= c < |t| && t[c] != 0
  {
    var i :| 0 <= i < |cs| && cs[i] == c;
    if i < |cs| - 1 {
      assert t[cs[i]] == cs[i + 1];
    }
  }

  ghost predicate AllChains(t: Table, chains: seq<seq<nat>>) {
    forall i :: 0 <= i < |chains| ==> Chain(t, chains[i])
  }

  ghost predicate Apart(chains: seq<seq<nat>>) {
    forall i, j, c :: 0 <= i < j < |chains| && c in chains[i] ==> c !in chains[j]
  }

  ghost predicate InSome(chains: seq<seq<nat>>, c: nat) {
    exists i :: 0 <= i < |chains| && c in chains[i]
  }

  ghost predicate Covered(t: Table, chains: seq<seq<nat>>) {
    forall c :: 2 <= c < |t| && t[c] != 0 ==> InSome(chains, c)
  }

  /** The whole table: disjoint chains, and free clusters everywhere else. */
  ghost predicate Partition(t: Table, chains: seq<seq<nat>>) {
    AllChains(t, chains) && Apart(chains) && Covered(t, chains)
  }

  /** A free cluster is in no chain. */
  lemma FreeInNone(t: Table, chains: seq<seq<nat>>, c: nat)
    requires AllChains(t, chains) && 2 <= c < |t| && t[c] == 0
    ensures !InSome(chains, c)
  {
    if InSome(chains, c) {
      var i :| 0 <= i < |chains| && c in chains[i];
      ChainInUse(t, chains[i], c);
    }
  }

  // ----- Stretching a chain -----

  /** The table after linking a free cluster behind another one, or making it a chain of its own. */
  ghost function Stretched(t: Table, clst: nat, ncl: nat, eoc: nat): (u: Table)
    requires 2 <= ncl < |t| && clst < |t|
    ensures |u| == |t|
  {
    if clst == 0 then t[ncl := eoc] else t[ncl := eoc][clst := ncl]
  }

  lemma AppendChain(t: Table, cs: seq<nat>, ncl: nat, eoc: nat)
    requires Chain(t, cs) && 2 <= ncl < |t| && t[ncl] == 0 && eoc >= |t|
    ensures ncl !in cs && Chain(Stretched(t, cs[|cs| - 1], ncl, eoc), cs + [ncl])
  {
    if ncl in cs {
      ChainInUse(t, cs, ncl);
    }
    ChainDistinct(t, cs);
    var l := cs[|cs| - 1];
    var u := Stretched(t, l, ncl, eoc);
    var ds := cs + [ncl];
    forall i | 0 <= i < |ds| - 1
      ensures u[ds[i]] == ds[i + 1]
    {
      assert ds[i] == cs[i];
    }
  }

  lemma ApartExtend(chains: seq<seq<nat>>, k: nat, x: nat)
    requires Apart(chains) && k < |chains| && !InSome(chains, x)
    ensures Apart(chains[k := chains[k] + [x]])
  {
    var ds := chains[k := chains[k] + [x]];
    forall i, j, c | 0 <= i < j < |ds| && c in ds[i]
      ensures c !in ds[j]
    {
      assert x !in chains[i] && x !in chains[j];
    }
  }

  lemma InSomeExtend(chains: seq<seq<nat>>, k: nat, x: nat, c: nat)
    requires k < |chains| && (InSome(chains, c) || c == x)
    ensures InSome(chains[k := chains[k] + [x]], c)
  {
    var ds := chains[k := chains[k] + [x]];
    if c == x {
      assert c in ds[k];
    } else {
      var i :| 0 <= i < |chains| && c in chains[i];
      assert c in ds[i];
    }
  }

  lemma ChainsExtend(t: Table, chains: seq<seq<nat>>, k: nat, ncl: nat, eoc: nat)
    requires AllChains(t, chains) && Apart(chains) && k < |chains| && 2 <= ncl < |t| && t[ncl] == 0 && eoc >= |t|
    ensures var l := chains[k][|chains[k]| - 1];
      AllChains(Stretched(t, l, ncl, eoc), chains[k := chains[k] + [ncl]])
  {
    var cs := chains[k];
    var l := cs[|cs| - 1];
    var u, ds := Stretched(t, l, ncl, eoc), chains[k := cs + [ncl]];
    AppendChain(t, cs, ncl, eoc);
    FreeInNone(t, chains, ncl);
    assert l in cs;
    forall i | 0 <= i < |ds|
      ensures Chain(u, ds[i])
    {
      if i != k {
        assert ncl !in chains[i] && l !in chains[i];
        ChainFrame(t, u, ds[i]);
      }
    }
  }

  /** The stretched chain stays apart from the others. */
  lemma StretchOne(t: Table, chains: seq<seq<nat>>, k: nat, ncl: nat, eoc: nat)
    requires Partition(t, chains) && k < |chains| && 2 <= ncl < |t| && t[ncl] == 0 && eoc >= |t|
    ensures chains[k] != []
    ensures Partition(Stretched(t, chains[k][|chains[k]| - 1], ncl, eoc), chains[k := chains[k] + [ncl]])
  {
    hide Apart, InSome;
    var cs := chains[k];
    var l := cs[|cs| - 1];
    var u := Stretched(t, l, ncl, eoc);
    FreeInNone(t, chains, ncl);
    ApartExtend(chains, k, ncl);
    ChainsExtend(t, chains, k, ncl, eoc);
    LastInUse(t, chains, k);
    forall c | 2 <= c < |u| && u[c] != 0
      ensures InSome(chains[k := cs + [ncl]], c)
    {
      InSomeExtend(chains, k, ncl, c);
    }
  }

  lemma LastInUse(t: Table, chains: seq<seq<nat>>, k: nat)
    requires AllChains(t, chains) && k < |chains|
    ensures chains[k] != []
    ensures InSome(chains, chains[k][|chains[k]| - 1])
  {
    assert chains[k][|chains[k]| - 1] in chains[k];
  }

  /** A new chain of one cluster. */
  lemma StretchNone(t: Table, chains: seq<seq<nat>>, ncl: nat, eoc: nat)
    requires Partition(t, chains) && 2 <= ncl < |t| && t[ncl] == 0 && eoc >= |t|
    ensures Partition(Stretched(t, 0, ncl, eoc), chains + [[ncl]])
  {
    var u, ds := t[ncl := eoc], chains + [[ncl]];
    FreeInNone(t, chains, ncl);
    forall i | 0 <= i < |chains|
      ensures Chain(u, chains[i])
    {
      assert ncl !in chains[i];
      ChainFrame(t, u, chains[i]);
    }
    forall c | 2 <= c < |u| && u[c] != 0
      ensures InSome(ds, c)
    {
      if c == ncl {
        assert c in ds[|chains|];
      } else {
        var i :| 0 <= i < |chains| && c in chains[i];
        assert c in ds[i];
      }
    }
  }

  // ----- Freeing a chain -----

  /** Entries freed one by one from clst on: stops at a free cluster, at an end mark, or fails at an entry of 1. */
  ghost function FreeFrom(t: Table, clst: nat): (r: (Table, bool))
    requires 2 <= clst < |t|
    ensures |r.0| == |t|
    decreases |t| - Free(t)
  {
    FreeBounds(t);
    FreeUpdate(t, clst, 0);
    var nxt := t[clst];
    if nxt == 0 then (t, true)
    else if nxt == 1 then (t, false)
    else if nxt < |t| then FreeFrom(t[clst := 0], nxt)
    else (t[clst := 0], true)
  }

  ghost function Zeroed(t: Table, cs: seq<nat>): (u: Table)
    ensures |u| == |t|
    ensures forall c :: 0 <= c < |t| ==> u[c] == if c in cs then 0 else t[c]
  {
    seq(|t|, c requires 0 <= c < |t| => if c in cs then 0 else t[c])
  }

  /** Freeing from the head of a chain frees exactly the clusters of the chain. */
  lemma {:induction false} FreeFromChain(t: Table, cs: seq<nat>)
    requires Chain(t, cs)
    ensures FreeFrom(t, cs[0]) == (Zeroed(t, cs), true)
    decreases |cs|
  {
    ChainDistinct(t, cs);
    var u := t[cs[0] := 0];
    if |cs| == 1 {
      assert Zeroed(t, cs) == u;
    } else {
      var rest := cs[1..];
      assert t[cs[0]] == cs[1];
      assert cs == [cs[0]] + rest;
      ChainTail(t, cs);
      FreeFromChain(u, rest);
      assert Zeroed(u, rest) == Zeroed(t, cs);
    }
  }

  lemma ChainTail(t: Table, cs: seq<nat>)
    requires Chain(t, cs) && |cs| > 1
    ensures Chain(t[cs[0] := 0], cs[1..])
  {
    ChainDistinct(t, cs);
    var u, rest := t[cs[0] := 0], cs[1..];
    forall i | 0 <= i < |rest| - 1
      ensures u[rest[i]] == rest[i + 1]
    {
      assert t[cs[i + 1]] == cs[i + 2];
    }
  }

  /** Cutting a chain behind its first k clusters. */
  lemma CutChain(t: Table, cs: seq<nat>, k: nat, eoc: nat)
    requires Chain(t, cs) && 0 < k < |cs| && eoc >= |t|
    ensures Chain(t[cs[k - 1] := eoc], cs[k..]) && Chain(t[cs[k - 1] := eoc], cs[..k])
  {
    ChainDistinct(t, cs);
  }

  lemma ApartShorten(chains: seq<seq<nat>>, k: nat, cs: seq<nat>)
    requires Apart(chains) && k < |chains| && forall c :: c in cs ==> c in chains[k]
    ensures Apart(chains[k := cs])
  {
  }

  lemma ApartRemove(chains: seq<seq<nat>>, k: nat)
    requires Apart(chains) && k < |chains|
    ensures Apart(chains[..k] + chains[k + 1..])
  {
    var ds := chains[..k] + chains[k + 1..];
    forall i, j, c | 0 <= i < j < |ds| && c in ds[i]
      ensures c !in ds[j]
    {
      var i', j' := if i < k then i else i + 1, if j < k then j else j + 1;
      assert ds[i] == chains[i'] && ds[j] == chains[j'];
    }
  }

  lemma OtherApart(t: Table, chains: seq<seq<nat>>, k: nat, i: nat)
    requires Apart(chains) && k < |chains| && i < |chains| && i != k
    ensures forall c :: c in chains[k] ==> c !in chains[i]
  {
  }

  /** Entries changed inside one chain only leave the other chains what they are. */
  lemma OthersStay(t: Table, chains: seq<seq<nat>>, k: nat, u: Table, i: nat)
    requires AllChains(t, chains) && Apart(chains) && k < |chains| && i < |chains| && i != k
    requires |u| == |t| && forall c :: 0 <= c < |t| && c !in chains[k] ==> u[c] == t[c]
    ensures Chain(u, chains[i])
  {
    OtherApart(t, chains, k, i);
    ChainFrame(t, u, chains[i]);
  }

  ghost function Truncated(t: Table, cs: seq<nat>, k: nat, eoc: nat): Table
    requires 0 < k <= |cs| && cs[k - 1] < |t|
  {
    Zeroed(t[cs[k - 1] := eoc], cs[k..])
  }

  /** remove_chain from behind cluster k - 1 of a chain frees exactly the rest of it. */
  lemma FreeFromMiddle(t: Table, cs: seq<nat>, k: nat, eoc: nat)
    requires Chain(t, cs) && 0 < k < |cs| && eoc >= |t|
    ensures FreeFrom(t[cs[k - 1] := eoc], cs[k]) == (Truncated(t, cs, k, eoc), true)
    ensures Chain(Truncated(t, cs, k, eoc), cs[..k])
  {
    var t1 := t[cs[k - 1] := eoc];
    CutChain(t, cs, k, eoc);
    FreeFromChain(t1, cs[k..]);
    ChainDistinct(t, cs);
    var u := Truncated(t, cs, k, eoc);
    forall c | c in cs[..k]
      ensures u[c] == t1[c]
    {
    }
    ChainFrame(t1, u, cs[..k]);
  }

  /** The other chains and the head that is left still partition the table. */
  lemma TruncateOne(t: Table, chains: seq<seq<nat>>, k: nat, m: nat, eoc: nat)
    requires Partition(t, chains) && k < |chains| && 0 < m < |chains[k]| && eoc >= |t|
    ensures AllChains(t, chains) && chains[k][m - 1] < |t|
    ensures Partition(Truncated(t, chains[k], m, eoc), chains[k := chains[k][..m]])
  {
    var cs := chains[k];
    var u, ds := Truncated(t, cs, m, eoc), chains[k := cs[..m]];
    FreeFromMiddle(t, cs, m, eoc);
    ApartShorten(chains, k, cs[..m]);
    assert cs[m - 1] in cs;
    assert forall c :: c in cs[m..] ==> c in cs;
    forall i | 0 <= i < |ds|
      ensures Chain(u, ds[i])
    {
      if i != k {
        OthersStay(t, chains, k, u, i);
      }
    }
    forall c | 2 <= c < |u| && u[c] != 0
      ensures InSome(ds, c)
    {
      TruncateCovers(t, chains, k, m, c);
    }
  }

  lemma TruncateCovers(t: Table, chains: seq<seq<nat>>, k: nat, m: nat, c: nat)
    requires Partition(t, chains) && k < |chains| && 0 < m < |chains[k]| && 2 <= c < |t|
    requires c !in chains[k][m..] && (t[c] != 0 || c == chains[k][m - 1])
    ensures InSome(chains[k := chains[k][..m]], c)
  {
    var cs := chains[k];
    var ds := chains[k := cs[..m]];
    if c in cs {
      var j :| 0 <= j < |cs| && cs[j] == c;
      assert ds[k][j] == c;
    } else {
      assert cs[m - 1] in cs;
      var i :| 0 <= i < |chains| && c in chains[i];
      assert c in ds[i];
    }
  }

  lemma RemoveChains(t: Table, chains: seq<seq<nat>>, k: nat)
    requires AllChains(t, chains) && Apart(chains) && k < |chains|
    ensures AllChains(Zeroed(t, chains[k]), chains[..k] + chains[k + 1..])
  {
    hide Apart, Chain;
    var u, ds := Zeroed(t, chains[k]), chains[..k] + chains[k + 1..];
    forall i | 0 <= i < |ds|
      ensures Chain(u, ds[i])
    {
      OthersStay(t, chains, k, u, if i < k then i else i + 1);
    }
  }

  lemma RemoveCovers(chains: seq<seq<nat>>, k: nat, c: nat)
    requires k < |chains| && InSome(chains, c) && c !in chains[k]
    ensures InSome(chains[..k] + chains[k + 1..], c)
  {
    var ds := chains[..k] + chains[k + 1..];
    var i :| 0 <= i < |chains| && c in chains[i];
    assert c in ds[if i < k then i else i - 1];
  }

  /** Freeing a chain as a whole. */
  lemma RemoveOne(t: Table, chains: seq<seq<nat>>, k: nat)
    requires Partition(t, chains) && k < |chains|
    ensures Partition(Zeroed(t, chains[k]), chains[..k] + chains[k + 1..])
  {
    hide AllChains, Apart, InSome;
    var u, ds := Zeroed(t, chains[k]), chains[..k] + chains[k + 1..];
    ApartRemove(chains, k);
    RemoveChains(t, chains, k);
    forall c | 2 <= c < |u| && u[c] != 0
      ensures InSome(ds, c)
    {
      RemoveCovers(chains, k, c);
    }
  }
}
