/** Where the bytes of a file lie on the volume. */
module FatFileData {
  import opened Bytes
  import opened Sectors
  import opened FatVolume
  import opened FatTable

  ghost predicate InRange(g: Layout, chain: seq<nat>) {
    forall i :: 0 <= i < |chain| ==> 2 <= chain[i] < g.nFatent
  }

  /** First sector of a cluster; 0 for an invalid cluster number. */
  function ClusterSector(g: Layout, clst: nat): nat {
    if clst < 2 || clst - 2 >= g.nFatent - 2 then 0 else g.database + g.csize * (clst - 2)
  }

  /** Clusters are numbered from 2 on, and lie one behind the other. */
  lemma ClusterPlaces(g: Layout, clst: nat)
    requires g.nFatent > 2
    ensures clst < 2 || clst >= g.nFatent ==> ClusterSector(g, clst) == 0
    ensures ClusterSector(g, 2) == g.database
    ensures 2 <= clst && clst + 1 < g.nFatent ==> ClusterSector(g, clst + 1) == ClusterSector(g, clst) + g.csize
  {
    if 2 <= clst && clst + 1 < g.nFatent {
      assert g.csize * (clst - 1) == g.csize * (clst - 2) + g.csize;
    }
  }

  lemma DataRoom(g: Layout)
    requires ValidLayout(g)
    ensures 2 < g.nFatent && g.database + g.csize * (g.nFatent - 2) <= g.nsect && g.csize > 0
  {
  }

  lemma ClusterBounds(g: Layout, clst: nat)
    requires ValidLayout(g) && 2 <= clst < g.nFatent
    ensures g.database <= ClusterSector(g, clst) && ClusterSector(g, clst) + g.csize <= g.nsect
  {
    hide Roomy;
    DataRoom(g);
    MulStep(g.csize, clst - 2, g.nFatent - 2);
  }

  /** Different clusters have no sector in common. */
  lemma ClustersApart(g: Layout, a: nat, b: nat, r: nat, s: nat)
    requires 2 <= a < g.nFatent && 2 <= b < g.nFatent && r < g.csize && s < g.csize
    requires ClusterSector(g, a) + r == ClusterSector(g, b) + s
    ensures a == b && r == s
  {
    hide ValidLayout;
    SameRow(g.csize, a - 2, r, b - 2, s);
  }

  /** Sector of the drive that holds sector q of the file. */
  ghost function SectorAt(g: Layout, chain: seq<nat>, q: nat): nat
    requires g.csize > 0 && Row(q, g.csize) < |chain|
  {
    ClusterSector(g, chain[Row(q, g.csize)]) + Col(q, g.csize)
  }

  lemma SectorAtBounds(g: Layout, chain: seq<nat>, q: nat)
    requires ValidLayout(g) && InRange(g, chain) && Row(q, g.csize) < |chain|
    ensures g.database <= SectorAt(g, chain, q) < g.nsect
  {
    hide Roomy, Row, Col, ClusterSector;
    ClusterBounds(g, chain[Row(q, g.csize)]);
  }

  lemma SectorAtInjective(g: Layout, chain: seq<nat>, p: nat, q: nat)
    requires ValidLayout(g) && InRange(g, chain) && Distinct(chain) && p != q
    requires Row(p, g.csize) < |chain| && Row(q, g.csize) < |chain|
    ensures SectorAt(g, chain, p) != SectorAt(g, chain, q)
  {
    hide Roomy, Row, Col, ClusterSector;
    RowCol(p, g.csize);
    RowCol(q, g.csize);
    var a, b := Row(p, g.csize), Row(q, g.csize);
    if SectorAt(g, chain, p) == SectorAt(g, chain, q) {
      ClustersApart(g, chain[a], chain[b], Col(p, g.csize), Col(q, g.csize));
    }
  }

  /** The sectors of a file in order. */
  ghost function FileSectors(g: Layout, v: seq<Sector>, chain: seq<nat>): (d: seq<Sector>)
    requires ValidLayout(g) && InRange(g, chain) && |v| == g.nsect
  {
    if chain == [] then [] else
      var n := |chain| - 1;
      ClusterBounds(g, chain[n]);
      var c := ClusterSector(g, chain[n]);
      FileSectors(g, v, chain[..n]) + v[c..c + g.csize]
  }

  lemma {:induction false} FileSectorsLength(g: Layout, v: seq<Sector>, chain: seq<nat>)
    requires ValidLayout(g) && InRange(g, chain) && |v| == g.nsect
    ensures |FileSectors(g, v, chain)| == |chain| * g.csize
    decreases |chain|
  {
    hide Roomy, ClusterSector;
    if chain != [] {
      var n := |chain| - 1;
      FileSectorsLength(g, v, chain[..n]);
      ClusterBounds(g, chain[n]);
      MulNext(n, g.csize);
    }
  }

  lemma {:induction false} FileSectorAt(g: Layout, v: seq<Sector>, chain: seq<nat>, q: nat)
    requires ValidLayout(g) && InRange(g, chain) && |v| == g.nsect && Row(q, g.csize) < |chain|
    ensures q < |FileSectors(g, v, chain)| && SectorAt(g, chain, q) < g.nsect
    ensures FileSectors(g, v, chain)[q] == v[SectorAt(g, chain, q)]
    decreases |chain|
  {
    hide Roomy, ClusterSector, Row, Col;
    var n := |chain| - 1;
    FileSectorsLength(g, v, chain[..n]);
    FileSectorsLength(g, v, chain);
    SectorAtBounds(g, chain, q);
    ClusterBounds(g, chain[n]);
    RowLess(q, n, g.csize);
    RowLess(q, n + 1, g.csize);
    if Row(q, g.csize) < n {
      FileSectorAt(g, v, chain[..n], q);
    } else {
      RowCol(q, g.csize);
    }
  }

  /** Within a cluster, sectors of the file are consecutive on the drive. */
  lemma SectorAtNext(g: Layout, chain: seq<nat>, q: nat, j: nat)
    requires g.csize > 0 && Row(q, g.csize) < |chain| && Col(q, g.csize) + j < g.csize
    ensures Row(q + j, g.csize) == Row(q, g.csize) && SectorAt(g, chain, q + j) == SectorAt(g, chain, q) + j
  {
    hide Row, Col, ClusterSector;
    RowCol(q, g.csize);
    RowColOf(Row(q, g.csize), Col(q, g.csize) + j, g.csize);
  }

  lemma RunBounds(g: Layout, v: seq<Sector>, chain: seq<nat>, q: nat, n: nat)
    requires ValidLayout(g) && InRange(g, chain) && |v| == g.nsect
    requires 0 < n && Row(q, g.csize) < |chain| && Col(q, g.csize) + n <= g.csize
    ensures g.database <= SectorAt(g, chain, q) && SectorAt(g, chain, q) + n <= g.nsect
    ensures q + n <= |FileSectors(g, v, chain)|
  {
    hide Roomy, SectorAt, FileSectors;
    SectorAtNext(g, chain, q, n - 1);
    SectorAtBounds(g, chain, q);
    SectorAtBounds(g, chain, q + n - 1);
    FileSectorAt(g, v, chain, q + n - 1);
  }

  /** A run of sectors inside a cluster, read at once. */
  lemma FileRun(g: Layout, v: seq<Sector>, chain: seq<nat>, q: nat, n: nat)
    requires ValidLayout(g) && InRange(g, chain) && |v| == g.nsect
    requires 0 < n && Row(q, g.csize) < |chain| && Col(q, g.csize) + n <= g.csize
    ensures SectorAt(g, chain, q) + n <= g.nsect && q + n <= |FileSectors(g, v, chain)|
    ensures FileSectors(g, v, chain)[q..q + n] == v[SectorAt(g, chain, q)..SectorAt(g, chain, q) + n]
  {
    hide Roomy, SectorAt, FileSectors, Row, Col;
    RunBounds(g, v, chain, q, n);
    var a, b := FileSectors(g, v, chain)[q..q + n], v[SectorAt(g, chain, q)..SectorAt(g, chain, q) + n];
    forall j | 0 <= j < n
      ensures a[j] == b[j]
    {
      SectorAtNext(g, chain, q, j);
      FileSectorAt(g, v, chain, q + j);
    }
  }

  /** A run of sectors inside a cluster, written at once: the file changes there and nowhere else. */
  lemma FileWrite(g: Layout, v: seq<Sector>, chain: seq<nat>, q: nat, e: seq<Sector>)
    requires ValidLayout(g) && InRange(g, chain) && |v| == g.nsect && Distinct(chain)
    requires e != [] && Row(q, g.csize) < |chain| && Col(q, g.csize) + |e| <= g.csize
    ensures SectorAt(g, chain, q) + |e| <= g.nsect && q + |e| <= |FileSectors(g, v, chain)|
    ensures FileSectors(g, Splice(v, SectorAt(g, chain, q), e), chain) == Splice(FileSectors(g, v, chain), q, e)
  {
    hide Roomy, SectorAt, FileSectors, Row, Col;
    RunBounds(g, v, chain, q, |e|);
    var u := Splice(v, SectorAt(g, chain, q), e);
    var a, b := FileSectors(g, u, chain), Splice(FileSectors(g, v, chain), q, e);
    FileSectorsLength(g, v, chain);
    FileSectorsLength(g, u, chain);
    forall p | 0 <= p < |a|
      ensures a[p] == b[p]
    {
      RowLess(p, |chain|, g.csize);
      FileSectorAt(g, v, chain, p);
      FileSectorAt(g, u, chain, p);
      WriteAt(g, chain, q, |e|, p);
    }
  }

  lemma WriteAt(g: Layout, chain: seq<nat>, q: nat, n: nat, p: nat)
    requires ValidLayout(g) && InRange(g, chain) && Distinct(chain)
    requires 0 < n && Row(q, g.csize) < |chain| && Col(q, g.csize) + n <= g.csize && Row(p, g.csize) < |chain|
    ensures var s := SectorAt(g, chain, q);
      if q <= p < q + n then SectorAt(g, chain, p) == s + (p - q) else !(s <= SectorAt(g, chain, p) < s + n)
  {
    hide Roomy, SectorAt, Row, Col;
    var s, d := SectorAt(g, chain, q), SectorAt(g, chain, p);
    if q <= p < q + n {
      SectorAtNext(g, chain, q, p - q);
    } else if s <= d < s + n {
      SectorAtNext(g, chain, q, d - s);
      SectorAtInjective(g, chain, p, q + (d - s));
    }
  }

  /** The file depends on its own sectors only. */
  lemma FileFrame(g: Layout, v: seq<Sector>, u: seq<Sector>, chain: seq<nat>)
    requires ValidLayout(g) && InRange(g, chain) && |v| == |u| == g.nsect && SameOutside(g, v, u)
    ensures FileSectors(g, u, chain) == FileSectors(g, v, chain)
  {
    hide Roomy, SectorAt, FileSectors, Row, Col;
    var a, b := FileSectors(g, u, chain), FileSectors(g, v, chain);
    FileSectorsLength(g, v, chain);
    FileSectorsLength(g, u, chain);
    forall p | 0 <= p < |a|
      ensures a[p] == b[p]
    {
      RowLess(p, |chain|, g.csize);
      FileSectorAt(g, v, chain, p);
      FileSectorAt(g, u, chain, p);
      SectorAtBounds(g, chain, p);
    }
  }

  /** A cluster added at the end adds its sectors at the end. */
  lemma FileExtend(g: Layout, v: seq<Sector>, chain: seq<nat>, c: nat)
    requires ValidLayout(g) && InRange(g, chain) && |v| == g.nsect && 2 <= c < g.nFatent
    ensures InRange(g, chain + [c])
    ensures |FileSectors(g, v, chain + [c])| == |FileSectors(g, v, chain)| + g.csize
    ensures FileSectors(g, v, chain) <= FileSectors(g, v, chain + [c])
  {
    hide Roomy, ClusterSector;
    assert (chain + [c])[..|chain|] == chain;
    ClusterBounds(g, c);
  }

  // ----- Whose sector is it -----

  /** Cluster a sector of the data area belongs to; 0 in front of it. */
  ghost function Owner(g: Layout, d: nat): nat
    requires g.csize > 0
  {
    if d < g.database then 0 else 2 + Row(d - g.database, g.csize)
  }

  lemma OwnerOf(g: Layout, c: nat, r: nat)
    requires ValidLayout(g) && 2 <= c < g.nFatent && r < g.csize
    ensures Owner(g, ClusterSector(g, c) + r) == c
  {
    hide Roomy, Row;
    MulComm(g.csize, c - 2);
    RowColOf(c - 2, r, g.csize);
  }

  lemma OwnerAt(g: Layout, chain: seq<nat>, q: nat)
    requires ValidLayout(g) && InRange(g, chain) && Row(q, g.csize) < |chain|
    ensures Owner(g, SectorAt(g, chain, q)) == chain[Row(q, g.csize)] && Owner(g, SectorAt(g, chain, q)) in chain
  {
    hide Roomy, Row, Col, ClusterSector, Owner;
    OwnerOf(g, chain[Row(q, g.csize)], Col(q, g.csize));
  }

  /** The window shows no sector of the file, nor of a free cluster. */
  ghost predicate WindowApart(g: Layout, winsect: nat, t: Table, chain: seq<nat>)
    requires g.csize > 0
  {
    var c := Owner(g, winsect);
    c !in chain && (2 <= c < |t| ==> t[c] != 0)
  }

  lemma ApartRun(g: Layout, winsect: nat, t: Table, chain: seq<nat>, q: nat, n: nat)
    requires ValidLayout(g) && InRange(g, chain) && WindowApart(g, winsect, t, chain)
    requires 0 < n && Row(q, g.csize) < |chain| && Col(q, g.csize) + n <= g.csize
    ensures DataRun(g, winsect, SectorAt(g, chain, q), n)
  {
    hide Roomy, Row, Col, SectorAt, Owner;
    var s := SectorAt(g, chain, q);
    SectorAtNext(g, chain, q, n - 1);
    SectorAtBounds(g, chain, q);
    SectorAtBounds(g, chain, q + n - 1);
    if s <= winsect < s + n {
      SectorAtNext(g, chain, q, winsect - s);
      OwnerAt(g, chain, q + (winsect - s));
    }
  }

  /** Moving the window to the FAT, or taking a free cluster, keeps it apart. */
  lemma StaysApart(g: Layout, before: nat, winsect: nat, t: Table, u: Table, chain: seq<nat>, chain': seq<nat>)
    requires ValidLayout(g) && WindowApart(g, before, t, chain) && |t| == |u|
    requires winsect == before || winsect < g.database
    requires forall c :: c in chain' ==> 2 <= c < |t| && (c in chain || t[c] == 0)
    requires forall c :: 2 <= c < |t| && t[c] != 0 && c !in chain ==> u[c] != 0
    ensures WindowApart(g, winsect, u, chain')
  {
    hide Roomy, Row;
  }

  /** Apart from the FATs, only sectors of the given clusters differ. */
  ghost predicate OnlyOwn(g: Layout, v: seq<Sector>, u: seq<Sector>, chain: seq<nat>)
    requires g.csize > 0
  {
    |v| == |u| && forall d :: 0 <= d < |v| && !(g.fatbase <= d < FatEnd(g)) && Owner(g, d) !in chain ==> u[d] == v[d]
  }

  lemma OnlyOwnTrans(g: Layout, v: seq<Sector>, u: seq<Sector>, w: seq<Sector>, chain: seq<nat>, chain': seq<nat>)
    requires g.csize > 0 && OnlyOwn(g, v, u, chain) && OnlyOwn(g, u, w, chain') && forall c :: c in chain ==>
      c in chain'
    ensures OnlyOwn(g, v, w, chain')
  {
    hide Owner;
  }

  lemma OnlyOwnOutside(g: Layout, v: seq<Sector>, u: seq<Sector>, chain: seq<nat>)
    requires ValidLayout(g) && |v| == |u| == g.nsect && SameOutside(g, v, u)
    ensures OnlyOwn(g, v, u, chain)
  {
    hide Owner, Roomy;
  }

  lemma OnlyOwnWrite(g: Layout, v: seq<Sector>, chain: seq<nat>, q: nat, e: seq<Sector>)
    requires ValidLayout(g) && InRange(g, chain) && |v| == g.nsect
    requires e != [] && Row(q, g.csize) < |chain| && Col(q, g.csize) + |e| <= g.csize
    ensures SectorAt(g, chain, q) + |e| <= |v|
    ensures OnlyOwn(g, v, Splice(v, SectorAt(g, chain, q), e), chain)
  {
    hide Roomy, Row, Col, SectorAt, Owner;
    var s := SectorAt(g, chain, q);
    RunBounds(g, v, chain, q, |e|);
    forall d | s <= d < s + |e|
      ensures Owner(g, d) in chain
    {
      SectorAtNext(g, chain, q, d - s);
      OwnerAt(g, chain, q + (d - s));
    }
  }

  // ----- Bytes -----

  /** b put into c at offset p, where c may have to grow. */
  ghost function SpliceBytes(c: seq<byte>, p: nat, b: seq<byte>): (r: seq<byte>)
    requires p <= |c|
    ensures |r| == if p + |b| > |c| then p + |b| else |c|
  {
    c[..p] + b + (if p + |b| <= |c| then c[p + |b|..] else [])
  }

  lemma SpliceMore(c: seq<byte>, p: nat, a: seq<byte>, b: seq<byte>)
    requires p <= |c|
    ensures SpliceBytes(SpliceBytes(c, p, a), p + |a|, b) == SpliceBytes(c, p, a + b)
  {
  }

  lemma SpliceNone(c: seq<byte>, p: nat)
    requires p <= |c|
    ensures SpliceBytes(c, p, []) == c
  {
  }

  /** Overwriting allocated bytes splices the contents in front of the end of the file. */
  lemma OverwriteContent(f: seq<byte>, size: nat, p: nat, b: seq<byte>)
    requires size <= |f| && p <= size && p + |b| <= |f|
    ensures Overwrite(f, p, b)[..if p + |b| > size then p + |b| else size] == SpliceBytes(f[..size], p, b)
  {
  }

  /** Position in bytes and in sectors. */
  lemma SectorRow(p: nat, ss: nat, csize: nat)
    requires ss > 0 && csize > 0
    ensures ss * csize > 0
    ensures Row(Row(p, ss), csize) == Row(p, ss * csize)
  {
    RowCol(p, ss);
    var q, o := Row(p, ss), Col(p, ss);
    RowCol(q, csize);
    var a, r := Row(q, csize), Col(q, csize);
    hide Row, Col;
    MulStep(ss, r, csize);
    RowParts(p, ss, csize, q, o, a, r);
    RowColOf(a, r * ss + o, ss * csize);
  }

  lemma RowParts(p: nat, ss: nat, csize: nat, q: nat, o: nat, a: nat, r: nat)
    requires p == q * ss + o && q == a * csize + r
    ensures p == a * (ss * csize) + (r * ss + o) && ss * r == r * ss
  {
    assert (a * csize + r) * ss == a * csize * ss + r * ss;
    assert a * csize * ss == a * (ss * csize);
  }

  /** Allocated bytes of a file. */
  lemma FileLength(g: Layout, v: seq<Sector>, chain: seq<nat>)
    requires ValidLayout(g) && InRange(g, chain) && |v| == g.nsect && Uniform(v, g.ss)
    ensures Uniform(FileSectors(g, v, chain), g.ss)
    ensures |Flat(FileSectors(g, v, chain))| == |chain| * g.csize * g.ss
  {
    hide Roomy, Flat, FileSectors, Row, Col, SectorAt;
    var d := FileSectors(g, v, chain);
    FileSectorsLength(g, v, chain);
    forall i | 0 <= i < |d|
      ensures |d[i]| == g.ss
    {
      RowLess(i, |chain|, g.csize);
      FileSectorAt(g, v, chain, i);
    }
    FlatLength(d, g.ss);
  }

  /** The last byte of a piece that stays inside a run of n sectors of one cluster. */
  lemma LastByte(p: nat, m: nat, ss: nat, csize: nat, n: nat)
    requires ss > 0 && csize > 0 && 0 < m && Col(p, ss) + m <= n * ss
    requires Col(Row(p, ss), csize) + n <= csize
    ensures Row(Row(p + m - 1, ss), csize) == Row(Row(p, ss), csize)
    ensures n == 1 && Col(p + m, ss) != 0 ==> Row(p + m, ss) == Row(p, ss)
  {
    RowCol(p, ss);
    var q, o := Row(p, ss), Col(p, ss);
    RowCol(o + m - 1, ss);
    RowLess(o + m - 1, n, ss);
    var a, r := Row(o + m - 1, ss), Col(o + m - 1, ss);
    RowCol(q, csize);
    var k, j := Row(q, csize), Col(q, csize);
    hide Row, Col;
    Distrib(q, a, ss);
    RowColOf(q + a, r, ss);
    RowColOf(k, j + a, csize);
    if n == 1 {
      if o + m == ss {
        MulNext(q, ss);
        RowColOf(q + 1, 0, ss);
      } else {
        RowColOf(q, o + m, ss);
      }
    }
  }
}
