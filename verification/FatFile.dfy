/**
 * Reading, writing and seeking in one open file of a FAT12/16/32 volume.  The file object keeps one
 * sector of the file in a buffer of its own, follows its cluster chain through the FAT, and moves
 * whole sectors directly between the drive and the caller.
 */
module FatFile {
  import opened Bytes
  import opened Sectors
  import opened FatEntry
  import opened FatVolume
  import opened FatTable
  import opened FatChain
  import opened FatFileData

  const MAX_SIZE := 0xFFFF_FFFF

  lemma ChainRange(g: Layout, t: Table, chain: seq<nat>)
    requires |t| == g.nFatent && (chain == [] || Chain(t, chain))
    ensures InRange(g, chain) && Distinct(chain)
  {
    if chain != [] {
      ChainDistinct(t, chain);
    }
  }

  ghost function WithLast(others: seq<seq<nat>>, chain: seq<nat>): seq<seq<nat>> {
    if chain == [] then others else others + [chain]
  }

  /** The volume's chains are this file's and the others', and the start cluster is the head of this file's. */
  ghost predicate ChainsOk(t: Table, others: seq<seq<nat>>, chain: seq<nat>, sclust: nat) {
    && Partition(t, WithLast(others, chain))
    && (chain == [] || Chain(t, chain))
    && (if chain == [] then sclust == 0 else sclust == chain[0])
  }

  /** What the sector buffer holds: sector sq of the file; when not dirty it is a copy of it. */
  ghost predicate CacheOk(g: Layout, v: seq<Sector>, chain: seq<nat>, sect: nat, sq: nat, dirty: bool, buf: Sector)
    requires g.csize > 0
  {
    && (sect != 0 ==> Row(sq, g.csize) < |chain| && sect == SectorAt(g, chain, sq) && sect < |v|)
    && (sect != 0 && !dirty ==> buf == v[sect])
    && (dirty ==> sect != 0)
  }

  /** The cluster at hand is the one of the last byte in front of the file pointer. */
  ghost predicate ClustOk(g: Layout, chain: seq<nat>, fptr: nat, clust: nat)
    requires g.csize > 0 && g.ss > 0
  {
    fptr > 0 ==>
      var k := Row(Row(fptr - 1, g.ss), g.csize);
      k < |chain| && clust == chain[k]
  }

  lemma SpliceOne(v: seq<Sector>, i: nat, s: Sector)
    requires i < |v|
    ensures Splice(v, i, [s]) == v[i := s]
  {
  }

  lemma UniformOne(s: Sector)
    ensures Uniform([s], |s|)
  {
  }

  lemma OnlyOwnSelf(g: Layout, v: seq<Sector>, chain: seq<nat>)
    requires g.csize > 0
    ensures OnlyOwn(g, v, v, chain)
  {
  }

  class File {
    const fs: Volume
    const canRead: bool
    const canWrite: bool
    const buf: array<byte>
    var sclust: nat
    var objsize: nat
    var fptr: nat
    var clust: nat
    var sect: nat
    var dirty: bool
    var modified: bool
    ghost var chain: seq<nat>
    ghost var others: seq<seq<nat>>
    ghost var sq: nat

    /** The file object of an opened file: start cluster and size come from its directory entry. */
    constructor (fs: Volume, canRead: bool, canWrite: bool, sclust: nat, objsize: nat, ghost chain: seq<nat>,
      ghost others: seq<seq<nat>>)
      requires fs.Valid() && ChainsOk(fs.Table(), others, chain, sclust)
      requires fs.freeClst == Free(fs.Table()) || fs.freeClst > fs.g.nFatent - 2
      requires WindowApart(fs.g, fs.winsect, fs.Table(), chain)
      requires objsize <= MAX_SIZE && objsize <= |chain| * fs.g.csize * fs.g.ss
      ensures Valid() && this.fs == fs && fptr == 0 && this.objsize == objsize && !dirty
      ensures this.chain == chain && this.others == others && this.canRead == canRead && this.canWrite == canWrite
      ensures fresh(buf)
    {
      hide Coherent, View, FatBytes, TableOf, FatsAgree, Roomy, Partition, Chain, Free, WindowApart, SectorAt,
        FileSectors, Flat, Row, OnlyOwn, Splice, Uniform;
      fs.Facts();
      this.fs, this.canRead, this.canWrite := fs, canRead, canWrite;
      this.sclust, this.objsize, fptr, clust, sect := sclust, objsize, 0, 0, 0;
      dirty, modified := false, false;
      this.chain, this.others, sq := chain, others, 0;
      buf := new byte[fs.g.ss](_ => 0);
    }

    /** Everything but the position. */
    ghost predicate Core()
      reads this, buf, fs, fs.win
    {
      && fs.Valid() && buf.Length == fs.g.ss && buf != fs.win
      && ChainsOk(fs.Table(), others, chain, sclust)
      && (fs.freeClst == Free(fs.Table()) || fs.freeClst > fs.g.nFatent - 2)
      && CacheOk(fs.g, fs.Sight(), chain, sect, sq, dirty, buf[..])
      && WindowApart(fs.g, fs.winsect, fs.Table(), chain)
      && fptr <= objsize <= MAX_SIZE && objsize <= |chain| * fs.g.csize * fs.g.ss
    }

    /** The position: its cluster, and inside a sector also that sector in the buffer. */
    ghost predicate Positioned()
      requires Core()
      reads this, buf, fs, fs.win
    {
      && ClustOk(fs.g, chain, fptr, clust)
      && (Col(fptr, fs.g.ss) != 0 ==> sect != 0 && sq == Row(fptr, fs.g.ss))
    }

    ghost predicate Valid()
      reads this, buf, fs, fs.win
    {
      Core() && Positioned()
    }

    /** The drive with the buffer written back. */
    ghost function Drive(): (v: seq<Sector>)
      requires Core()
      reads this, buf, fs, fs.win
      ensures |v| == fs.g.nsect && Uniform(v, fs.g.ss)
    {
      if dirty then fs.Sight()[sect := buf[..]] else fs.Sight()
    }

    /** The sectors allocated to the file. */
    ghost function Sectors(): (d: seq<Sector>)
      requires Core()
      reads this, buf, fs, fs.win
      ensures Uniform(d, fs.g.ss) && |Flat(d)| == |chain| * fs.g.csize * fs.g.ss
    {
      ChainRange(fs.g, fs.Table(), chain);
      FileLength(fs.g, Drive(), chain);
      FileSectors(fs.g, Drive(), chain)
    }

    /** The bytes of the file. */
    ghost function Content(): (c: seq<byte>)
      requires Core()
      reads this, buf, fs, fs.win
      ensures |c| == objsize
    {
      Flat(Sectors())[..objsize]
    }

    /** Writes the buffer back if it is dirty. */
    method Flush()
      requires Core()
      modifies fs`disk, `dirty
      ensures Core() && !dirty && Sectors() == old(Sectors()) && fs.Table() == old(fs.Table())
      ensures OnlyOwn(fs.g, old(fs.Sight()), fs.Sight(), chain)
    {
      hide Coherent, View, FatBytes, TableOf, FatsAgree, Roomy, Partition, Chain, Free, WindowApart, SectorAt,
        FileSectors, Flat, Row, Col, OnlyOwn, Splice, Uniform;
      fs.Facts();
      OnlyOwnSelf(fs.g, fs.Sight(), chain);
      if dirty {
        ChainRange(fs.g, fs.Table(), chain);
        UniformOne(buf[..]);
        ApartRun(fs.g, fs.winsect, fs.Table(), chain, sq, 1);
        OnlyOwnWrite(fs.g, fs.Sight(), chain, sq, [buf[..]]);
        fs.DiskWrite(sect, [buf[..]]);
        dirty := false;
        SpliceOne(old(fs.Sight()), sect, buf[..]);
      }
    }

    /** On a sector boundary in front of the end, reading goes on in the cluster that follows in the chain. */
    method LocateRead() returns (s: nat)
      requires Valid() && fptr < objsize && Col(fptr, fs.g.ss) == 0
      modifies fs`disk, fs`wflag, fs`winsect, fs.win, `clust
      ensures Core() && Sectors() == old(Sectors()) && fs.Sight() == old(fs.Sight())
      ensures var q := Row(fptr, fs.g.ss);
        Row(q, fs.g.csize) < |chain| && clust == chain[Row(q, fs.g.csize)] && s == SectorAt(fs.g, chain, q)
    {
      hide Coherent, View, FatBytes, TableOf, FatsAgree, Roomy, Partition, Chain, Free, WindowApart, FileSectors, Flat,
        Row, Col, Uniform, ClusterSector, SameOutside;
      fs.Facts();
      ghost var t := fs.Table();
      PositionFacts(fs.g, t, chain, objsize, fptr);
      var csect := Col(Row(fptr, fs.g.ss), fs.g.csize);
      if csect == 0 {
        var clst;
        if fptr == 0 {
          clst := sclust;
        } else {
          clst := fs.GetFat(clust);
          StaysPut(fs.g, old(fs.winsect), fs.winsect, t, chain);
        }
        assert clst >= 2;
        clust := clst;
      }
      s := ClusterSector(fs.g, clust);
      ClusterBounds(fs.g, clust);
      s := s + csect;
    }

    /** Sectors of one cluster are read directly; a dirty buffer among them is newer than the drive. */
    method DirectRead(s: nat, cc: nat, ghost q: nat) returns (e: seq<Sector>)
      requires Core() && 0 < cc && Row(q, fs.g.csize) < |chain| && Col(q, fs.g.csize) + cc <= fs.g.csize
      requires s == SectorAt(fs.g, chain, q)
      ensures q + cc <= |Sectors()| && e == Sectors()[q..q + cc]
    {
      hide Coherent, View, FatBytes, TableOf, FatsAgree, Roomy, Partition, Chain, Free, WindowApart, SectorAt,
        FileSectors, Flat, Row, Col, Uniform, ClusterSector, SameOutside, OnlyOwn, Splice;
      fs.Facts();
      ChainRange(fs.g, fs.Table(), chain);
      ApartRun(fs.g, fs.winsect, fs.Table(), chain, q, cc);
      e := fs.DiskRead(s, cc);
      FileRun(fs.g, Drive(), chain, q, cc);
      if dirty && (sect as int - s) % 0x1_0000_0000 < cc {
        NearSector(sect, s, cc);
        e := e[sect - s := buf[..]];
      }
      OverlayRun(fs.g, fs.Sight(), Drive(), dirty, sect, buf[..], s, cc);
    }

    /** The buffer is made to show sector q of the file, unless it does already. */
    method FillForRead(s: nat, ghost q: nat)
      requires Core() && Row(q, fs.g.csize) < |chain| && s == SectorAt(fs.g, chain, q)
      modifies fs`disk, `dirty, `sect, `sq, buf
      ensures Core() && Sectors() == old(Sectors()) && fs.Table() == old(fs.Table())
      ensures sect == s && sect != 0 && sq == q
      ensures OnlyOwn(fs.g, old(fs.Sight()), fs.Sight(), chain)
    {
      hide Coherent, View, FatBytes, TableOf, FatsAgree, Roomy, Partition, Chain, Free, WindowApart, SectorAt,
        FileSectors, Flat, Row, Col, Uniform, ClusterSector, SameOutside, OnlyOwn, Splice;
      fs.Facts();
      OnlyOwnSelf(fs.g, fs.Sight(), chain);
      ChainRange(fs.g, fs.Table(), chain);
      SectorAtBounds(fs.g, chain, q);
      if sect != s {
        Flush();
        Load(s, q);
      } else {
        CachedAgain(fs.g, chain, sq, q);
      }
    }

    method SetBuffer(d: Sector)
      requires |d| == buf.Length
      modifies buf
      ensures buf[..] == d
    {
      forall i | 0 <= i < buf.Length {
        buf[i] := d[i];
      }
    }

    method StoreBuffer(o: nat, b: seq<byte>)
      requires o + |b| <= buf.Length
      modifies buf
      ensures buf[..] == Overwrite(old(buf[..]), o, b)
    {
      forall i | 0 <= i < |b| {
        buf[o + i] := b[i];
      }
    }

    method Load(s: nat, ghost q: nat)
      requires Core() && !dirty && Row(q, fs.g.csize) < |chain| && s == SectorAt(fs.g, chain, q)
      modifies `sect, `sq, buf
      ensures Core() && !dirty && Sectors() == old(Sectors()) && sect == s != 0 && sq == q
      ensures buf[..] == fs.Sight()[s]
    {
      hide Coherent, View, FatBytes, TableOf, FatsAgree, Roomy, Partition, Chain, Free, WindowApart, SectorAt,
        FileSectors, Flat, Row, Col, Uniform, ClusterSector, SameOutside, OnlyOwn, Splice;
      fs.Facts();
      ChainRange(fs.g, fs.Table(), chain);
      SectorAtBounds(fs.g, chain, q);
      OneMore(q, fs.g.csize);
      ApartRun(fs.g, fs.winsect, fs.Table(), chain, q, 1);
      var e := fs.DiskRead(s, 1);
      FirstOf(e, fs.g.ss);
      SetBuffer(e[0]);
      sect := s;
      sq := q;
    }

    /** The rest of the sector in the buffer, or less. */
    method ReadPart(btr: nat) returns (out: seq<byte>)
      requires Core() && 0 < btr <= objsize - fptr
      requires var q := Row(fptr, fs.g.ss);
        sect != 0 && sq == q && clust == chain[Row(q, fs.g.csize)]
      modifies `fptr
      ensures Valid() && Sectors() == old(Sectors()) && Content() == old(Content())
      ensures 0 < |out| <= btr && fptr == old(fptr) + |out| && out == Content()[old(fptr)..fptr]
    {
      hide Coherent, View, FatBytes, TableOf, FatsAgree, Roomy, Partition, Chain, Free, WindowApart, SectorAt,
        FileSectors, Flat, Row, Col, Uniform, ClusterSector, SameOutside, OnlyOwn, Splice;
      fs.Facts();
      ChainRange(fs.g, fs.Table(), chain);
      var o := Col(fptr, fs.g.ss);
      var rcnt := fs.g.ss - o;
      if rcnt > btr {
        rcnt := btr;
      }
      out := buf[o..o + rcnt];
      BufferIs(fs.g, fs.Sight(), Drive(), chain, sect, sq, dirty, buf[..]);
      PieceOfSector(Sectors(), fs.g.ss, fptr, rcnt);
      TakeSlice(Flat(Sectors()), objsize, fptr, fptr + rcnt);
      OneMore(sq, fs.g.csize);
      LastByte(fptr, rcnt, fs.g.ss, fs.g.csize, 1);
      fptr := fptr + rcnt;
    }

    /** Whole sectors up to the end of the cluster. */
    method ReadWhole(btr: nat, s: nat) returns (out: seq<byte>)
      requires Core() && fs.g.ss <= btr <= objsize - fptr && Col(fptr, fs.g.ss) == 0
      requires var q := Row(fptr, fs.g.ss);
        Row(q, fs.g.csize) < |chain| && clust == chain[Row(q, fs.g.csize)] && s == SectorAt(fs.g, chain, q)
      modifies `fptr
      ensures Valid() && Sectors() == old(Sectors()) && Content() == old(Content())
      ensures 0 < |out| <= btr && fptr == old(fptr) + |out| && out == Content()[old(fptr)..fptr]
    {
      hide Coherent, View, FatBytes, TableOf, FatsAgree, Roomy, Partition, Chain, Free, WindowApart, SectorAt,
        FileSectors, Flat, Row, Col, Uniform, ClusterSector, SameOutside, OnlyOwn, Splice;
      fs.Facts();
      ghost var q := Row(fptr, fs.g.ss);
      var cc := Row(btr, fs.g.ss);
      var csect := Col(Row(fptr, fs.g.ss), fs.g.csize);
      if csect + cc > fs.g.csize {
        cc := fs.g.csize - csect;
      }
      WholeSectors(btr, fs.g.ss, cc);
      var e := DirectRead(s, cc, q);
      out := Flat(e);
      WholePiece(Sectors(), fs.g, fptr, cc);
      TakeSlice(Flat(Sectors()), objsize, fptr, fptr + fs.g.ss * cc);
      fptr := fptr + fs.g.ss * cc;
    }

    lemma CoreFacts()
      requires Core()
      ensures fs.Valid() && fptr <= objsize <= MAX_SIZE && fs.g.csize > 0 && fs.g.ss > 0 && buf != fs.win &&
        OnlyOwn(fs.g, fs.Sight(), fs.Sight(), chain)
    {
      fs.Facts();
    }

    /** One turn of the loop of f_read. */
    method ReadStep(btr: nat) returns (out: seq<byte>)
      requires Valid() && 0 < btr <= objsize - fptr
      modifies fs`disk, fs`wflag, fs`winsect, fs.win, `clust, `dirty, `sect, `sq, buf, `fptr
      ensures Valid() && Content() == old(Content())
      ensures 0 < |out| <= btr && fptr == old(fptr) + |out| && out == Content()[old(fptr)..fptr]
      ensures fs.Table() == old(fs.Table()) && OnlyOwn(fs.g, old(fs.Sight()), fs.Sight(), chain)
    {
      hide Coherent, View, FatBytes, TableOf, FatsAgree, Roomy, Partition, Chain, Free, WindowApart, SectorAt,
        FileSectors, Flat, Row, Col, Uniform, ClusterSector, SameOutside, OnlyOwn, Splice, CacheOk;
      fs.Facts();
      OnlyOwnSelf(fs.g, fs.Sight(), chain);
      PositionFacts(fs.g, fs.Table(), chain, objsize, fptr);
      if Col(fptr, fs.g.ss) == 0 {
        var s := LocateRead();
        if Row(btr, fs.g.ss) > 0 {
          RowPositive(btr, fs.g.ss);
          out := ReadWhole(btr, s);
          return;
        }
        FillForRead(s, Row(fptr, fs.g.ss));
      }
      out := ReadPart(btr);
    }

    /** f_read: delivers the bytes at the file pointer, fewer only at the end of the file. */
    method Read(btr: nat) returns (ok: bool, data: seq<byte>)
      requires Valid()
      modifies fs`disk, fs`wflag, fs`winsect, fs.win, `clust, `dirty, `sect, `sq, buf, `fptr
      ensures Valid() && Content() == old(Content()) && ok == canRead
      ensures !ok ==> data == [] && fptr == old(fptr)
      ensures ok ==> |data| == (if btr < objsize - old(fptr) then btr else objsize - old(fptr))
      ensures ok ==> fptr == old(fptr) + |data| && data == Content()[old(fptr)..fptr]
      ensures fs.Table() == old(fs.Table()) && OnlyOwn(fs.g, old(fs.Sight()), fs.Sight(), chain)
    {
      hide File.Sectors, Coherent, View, FatBytes, TableOf, FatsAgree, Roomy, Partition, Chain, Free, WindowApart,
        SectorAt, FileSectors, Flat, Row, Col, Uniform, ClusterSector, SameOutside, OnlyOwn, Splice, CacheOk;
      hide File.Content, File.Positioned, File.Core;
      CoreFacts();
      ghost var c, p := Content(), fptr;
      data := [];
      if !canRead {
        return false, data;
      }
      var remain := objsize - fptr;
      var n := if btr > remain then remain else btr;
      ghost var m := n;
      while n > 0
        invariant fs.Valid() && Valid() && Content() == c && 0 <= n <= objsize - fptr
        invariant fptr == p + |data| <= |c| && data == c[p..fptr] && |data| + n == m
        invariant fs.Table() == old(fs.Table()) && OnlyOwn(fs.g, old(fs.Sight()), fs.Sight(), chain)
      {
        ghost var v := fs.Sight();
        var out := ReadStep(n);
        CoreFacts();
        OnlyOwnTrans(fs.g, old(fs.Sight()), v, fs.Sight(), chain, chain);
        Joined(c, p, p + |data|, fptr);
        n := n - |out|;
        data := data + out;
      }
      ok := true;
    }

    /** Whole sectors are written directly; the buffer, clean by now, is refreshed if it shows one of them. */
    method DirectWrite(s: nat, e: seq<Sector>, ghost q: nat)
      requires Core() && !dirty && e != [] && Uniform(e, fs.g.ss)
      requires Row(q, fs.g.csize) < |chain| && Col(q, fs.g.csize) + |e| <= fs.g.csize && s == SectorAt(fs.g, chain, q)
      modifies fs`disk, buf, `dirty
      ensures Core() && !dirty && fs.Table() == old(fs.Table())
      ensures q + |e| <= |old(Sectors())| && Sectors() == Splice(old(Sectors()), q, e)
      ensures OnlyOwn(fs.g, old(fs.Sight()), fs.Sight(), chain)
    {
      hide Coherent, View, FatBytes, TableOf, FatsAgree, Roomy, Partition, Chain, Free, WindowApart, SectorAt,
        FileSectors, Flat, Row, Col, Uniform, ClusterSector, SameOutside, OnlyOwn, Splice;
      fs.Facts();
      ChainRange(fs.g, fs.Table(), chain);
      ApartRun(fs.g, fs.winsect, fs.Table(), chain, q, |e|);
      FileWrite(fs.g, fs.Sight(), chain, q, e);
      OnlyOwnWrite(fs.g, fs.Sight(), chain, q, e);
      fs.DiskWrite(s, e);
      var cc := |e|;
      NearSector(sect, s, cc);
      SpliceAt(old(fs.Sight()), s, e, sect);
      if (sect as int - s) % 0x1_0000_0000 < cc {
        UniformAt(e, fs.g.ss, sect - s);
        SetBuffer(e[sect - s]);
        dirty := false;
      }
    }

    /** Bytes go into the buffer, which from now on is the newest state of sector q. */
    method PutPart(s: nat, o: nat, b: seq<byte>, ghost q: nat)
      requires Core() && Row(q, fs.g.csize) < |chain| && s == SectorAt(fs.g, chain, q) && o + |b| <= fs.g.ss
      requires sect == s || !dirty
      modifies buf, `sect, `sq, `dirty
      ensures Core() && dirty && sect == s != 0 && sq == q
      ensures q < |old(Sectors())| && Sectors() == old(Sectors())[q := Overwrite(old(buf[..]), o, b)]
      ensures old(sect) == s ==> old(buf[..]) == old(Sectors())[q]
    {
      hide Coherent, View, FatBytes, TableOf, FatsAgree, Roomy, Partition, Chain, Free, WindowApart, SectorAt,
        FileSectors, Flat, Row, Col, Uniform, ClusterSector, SameOutside, OnlyOwn, Splice;
      fs.Facts();
      ChainRange(fs.g, fs.Table(), chain);
      SectorAtBounds(fs.g, chain, q);
      FileSectorAt(fs.g, Drive(), chain, q);
      OneMore(q, fs.g.csize);
      FileWrite(fs.g, Drive(), chain, q, [Overwrite(buf[..], o, b)]);
      SpliceOne(Drive(), s, Overwrite(buf[..], o, b));
      SpliceOne(Sectors(), q, Overwrite(buf[..], o, b));
      sect := s;
      sq := q;
      StoreBuffer(o, b);
      dirty := true;
      assert Drive() == old(Drive())[s := buf[..]];
    }

    /**
     * create_chain on behalf of this file, from cluster k - 1 of its chain (none when k is 0): gives cluster k,
     * which is taken from the free ones if the chain ends; 0 means that the volume is full.
     */
    method Follow(from: nat, ghost k: nat) returns (clst: nat)
      requires Core() && k <= |chain|
      requires if k == 0 then chain == [] && from == 0 else from == chain[k - 1]
      modifies fs`disk, fs`wflag, fs`winsect, fs.win, fs`lastClst, fs`freeClst, fs`fsiDirty, `chain, `sclust
      ensures Core() && Content() == old(Content()) && old(chain) <= chain
      ensures old(Sectors()) <= Sectors()
      ensures clst == 0 ==>
        chain == old(chain) && fs.Sight() == old(fs.Sight()) && Free(fs.Table()) == 0 && k == |chain|
      ensures clst != 0 ==> k < |chain| && clst == chain[k] && (k < |old(chain)| ==> chain == old(chain))
      ensures OnlyOwn(fs.g, old(fs.Sight()), fs.Sight(), chain)
    {
      hide Coherent, View, FatBytes, TableOf, FatsAgree, Roomy, Partition, Chain, Free, WindowApart, SectorAt,
        FileSectors, Flat, Row, Col, Uniform, ClusterSector, SameOutside, OnlyOwn, Splice, Created, ChainsOk, CacheOk;
      fs.Facts();
      ghost var t, v, cs, d := fs.Table(), fs.Sight(), chain, Sectors();
      EocLarge(fs.g, 0);
      ChainsOkFacts(t, others, chain, sclust);
      ChainRange(fs.g, t, chain);
      FreeRange(t);
      clst := CreateChain(fs, from);
      FollowChains(fs.g.ty, t, old(fs.freeClst), old(fs.lastClst), from, clst, fs.Table(), others, chain, sclust, k);
      if clst != 0 && sclust == 0 {
        sclust := clst;
      }
      if clst != 0 && k == |cs| {
        FollowKeeps(fs.g, t, v, old(fs.winsect), fs.Table(), fs.Sight(), fs.winsect, cs, clst, from, Eoc(fs.g.ty), sect,
          sq, dirty, buf[..]);
        chain := cs + [clst];
        FlatPrefix(d, FileSectors(fs.g, if dirty then fs.Sight()[sect := buf[..]] else fs.Sight(), chain), objsize);
        GrownSize(|cs|, fs.g.csize, fs.g.ss);
      } else {
        StaysPut(fs.g, old(fs.winsect), fs.winsect, t, chain);
      }
      OnlyOwnOutside(fs.g, v, fs.Sight(), chain);
    }

    /** The cluster writing goes on in, at the start of cluster k of the file; 0 when there is none to be had. */
    method EnterCluster(ghost k: nat) returns (clst: nat)
      requires Valid() && if fptr == 0 then k == 0 else k > 0 && Row(Row(fptr - 1, fs.g.ss), fs.g.csize) == k - 1
      modifies fs`disk, fs`wflag, fs`winsect, fs.win, fs`lastClst, fs`freeClst, fs`fsiDirty, `chain, `sclust
      ensures Core() && Content() == old(Content()) && old(chain) <= chain
      ensures OnlyOwn(fs.g, old(fs.Sight()), fs.Sight(), chain)
      ensures clst == 0 ==> chain == old(chain) && Free(fs.Table()) == 0
      ensures clst != 0 ==> k < |chain| && clst == chain[k]
    {
      hide Coherent, View, FatBytes, TableOf, FatsAgree, Roomy, Partition, Chain, Free, WindowApart, SectorAt,
        FileSectors, Flat, Row, Col, Uniform, ClusterSector, SameOutside, OnlyOwn, Splice, ChainsOk, CacheOk,
        File.Content, File.Sectors;
      CoreFacts();
      ChainsOkFacts(fs.Table(), others, chain, sclust);
      if fptr == 0 {
        clst := sclust;
        if clst == 0 {
          clst := Follow(0, 0);
        } else {
          assert clst == chain[0] by {
            HeadIs(fs.Table(), others, chain, sclust);
          }
        }
      } else {
        clst := Follow(clust, k);
      }
    }

    /** On a sector boundary, writing goes on in the cluster that follows, which may have to be allocated. */
    method LocateWrite() returns (ok: bool, s: nat)
      requires Valid() && Col(fptr, fs.g.ss) == 0
      modifies fs`disk, fs`wflag, fs`winsect, fs.win, fs`lastClst, fs`freeClst, fs`fsiDirty, `chain, `sclust, `clust
      ensures Core() && Content() == old(Content()) && old(chain) <= chain
      ensures OnlyOwn(fs.g, old(fs.Sight()), fs.Sight(), chain)
      ensures !ok ==> Positioned() && chain == old(chain) && Free(fs.Table()) == 0
      ensures var q := Row(fptr, fs.g.ss);
        ok ==> Row(q, fs.g.csize) < |chain| && clust == chain[Row(q, fs.g.csize)] && s == SectorAt(fs.g, chain, q)
    {
      hide Coherent, View, FatBytes, TableOf, FatsAgree, Roomy, Partition, Chain, Free, WindowApart, SectorAt,
        FileSectors, Flat, Row, Col, Uniform, ClusterSector, SameOutside, OnlyOwn, Splice, ChainsOk, CacheOk,
        File.Content, File.Sectors, File.Core;
      CoreFacts();
      ghost var q := Row(fptr, fs.g.ss);
      BoundaryFacts(fs.g, fptr);
      var csect := Col(Row(fptr, fs.g.ss), fs.g.csize);
      if csect == 0 {
        var clst := EnterCluster(Row(q, fs.g.csize));
        CoreFacts();
        if clst == 0 {
          return false, 0;
        }
        SetCluster(clst);
      }
      ok := true;
      s := LocateSector(q);
    }

    /** Changing the cluster at hand changes nothing else. */
    method SetCluster(clst: nat)
      requires Core()
      modifies `clust
      ensures Core() && clust == clst && Content() == old(Content())
    {
      hide Coherent, View, FatBytes, TableOf, FatsAgree, Roomy, Partition, Chain, Free, WindowApart, SectorAt,
        FileSectors, Flat, Row, Col, Uniform, ClusterSector, SameOutside, OnlyOwn, Splice, ChainsOk, CacheOk;
      fs.Facts();
      clust := clst;
    }

    /** clst2sect of the cluster at hand, and the sector offset in it. */
    method LocateSector(ghost q: nat) returns (s: nat)
      requires Core() && q == Row(fptr, fs.g.ss) && Row(q, fs.g.csize) < |chain| && clust == chain[Row(q, fs.g.csize)]
      ensures s == SectorAt(fs.g, chain, q)
    {
      s := ClusterSector(fs.g, clust) + Col(Row(fptr, fs.g.ss), fs.g.csize);
    }

    /** The position moves past n bytes written in one cluster; the file grows when it was at its end. */
    method Advance(n: nat)
      requires Core() && 0 < n && fptr + n <= |Flat(Sectors())| && fptr + n <= MAX_SIZE
      requires var k := Row(Row(fptr, fs.g.ss), fs.g.csize);
        k < |chain| && clust == chain[k] && Row(Row(fptr + n - 1, fs.g.ss), fs.g.csize) == k
      requires Col(fptr + n, fs.g.ss) != 0 ==> sect != 0 && sq == Row(fptr + n, fs.g.ss)
      modifies `fptr, `objsize
      ensures Valid() && Sectors() == old(Sectors()) && fptr == old(fptr) + n
      ensures objsize == if old(fptr) + n > old(objsize) then old(fptr) + n else old(objsize)
    {
      hide Coherent, View, FatBytes, TableOf, FatsAgree, Roomy, Partition, Chain, Free, WindowApart, SectorAt,
        FileSectors, Flat, Row, Col, Uniform, ClusterSector, SameOutside, OnlyOwn, Splice, ChainsOk, CacheOk;
      fs.Facts();
      fptr := fptr + n;
      objsize := if fptr > objsize then fptr else objsize;
    }

    /** Whole sectors up to the end of the cluster are written past the buffer. */
    method WriteWhole(b: seq<byte>, s: nat) returns (n: nat)
      requires Core() && !dirty && fs.g.ss <= |b| && Col(fptr, fs.g.ss) == 0 && fptr + |b| <= MAX_SIZE
      requires var q := Row(fptr, fs.g.ss);
        Row(q, fs.g.csize) < |chain| && clust == chain[Row(q, fs.g.csize)] && s == SectorAt(fs.g, chain, q)
      modifies fs`disk, buf, `dirty, `fptr, `objsize
      ensures Valid() && 0 < n <= |b| && fptr == old(fptr) + n
      ensures Content() == SpliceBytes(old(Content()), old(fptr), b[..n])
      ensures OnlyOwn(fs.g, old(fs.Sight()), fs.Sight(), chain)
    {
      hide Coherent, View, FatBytes, TableOf, FatsAgree, Roomy, Partition, Chain, Free, WindowApart, SectorAt,
        FileSectors, Flat, Row, Col, Uniform, ClusterSector, SameOutside, OnlyOwn, Splice, ChainsOk, CacheOk, Overwrite,
        SpliceBytes;
      CoreFacts();
      ghost var q, d := Row(fptr, fs.g.ss), Sectors();
      var cc := Row(|b|, fs.g.ss);
      var csect := Col(Row(fptr, fs.g.ss), fs.g.csize);
      OneMore(q, fs.g.csize);
      if csect + cc > fs.g.csize {
        cc := fs.g.csize - csect;
      }
      SomeSectors(|b|, fs.g.ss, cc);
      WholeSectors(|b|, fs.g.ss, cc);
      var e := Chopped(b, fs.g.ss, cc);
      ChoppedFlat(b, fs.g.ss, cc);
      DirectWrite(s, e, q);
      n := fs.g.ss * cc;
      CoreFacts();
      WholeFits(d, fs.g, fptr, e, b[..n]);
      WholePiece(Sectors(), fs.g, fptr, cc);
      Advance(n);
      ContentIs(d, b[..n], old(objsize), old(fptr));
    }

    /** Bytes up to the end of the sector go into the buffer, which shows it or is about to, at the end of the file. */
    method WritePart(b: seq<byte>, s: nat) returns (n: nat)
      requires Core() && b != [] && fptr + |b| <= MAX_SIZE
      requires var q := Row(fptr, fs.g.ss);
        Row(q, fs.g.csize) < |chain| && clust == chain[Row(q, fs.g.csize)] && s == SectorAt(fs.g, chain, q)
      requires sect == s || (!dirty && fptr == objsize && Col(fptr, fs.g.ss) == 0)
      modifies buf, `sect, `sq, `dirty, `fptr, `objsize
      ensures Valid() && 0 < n <= |b| && fptr == old(fptr) + n
      ensures Content() == SpliceBytes(old(Content()), old(fptr), b[..n])
    {
      hide Coherent, View, FatBytes, TableOf, FatsAgree, Roomy, Partition, Chain, Free, WindowApart, SectorAt,
        FileSectors, Flat, Row, Col, Uniform, ClusterSector, SameOutside, OnlyOwn, Splice, ChainsOk, CacheOk, Overwrite,
        SpliceBytes;
      CoreFacts();
      ghost var q, d, w := Row(fptr, fs.g.ss), Sectors(), buf[..];
      var o := Col(fptr, fs.g.ss);
      n := fs.g.ss - o;
      if n > |b| {
        n := |b|;
      }
      var part := b[..n];
      PutPart(s, o, part, q);
      CoreFacts();
      PartFits(d, fs.g, fptr, objsize, w, part);
      OneMore(q, fs.g.csize);
      assert fptr + n <= |Flat(Sectors())|;
      LastByte(fptr, n, fs.g.ss, fs.g.csize, 1);
      Advance(n);
    }

    /** On a sector boundary, once the sector has been found. */
    method WriteBoundary(b: seq<byte>, s: nat) returns (n: nat)
      requires Core() && b != [] && fptr + |b| <= MAX_SIZE && Col(fptr, fs.g.ss) == 0
      requires var q := Row(fptr, fs.g.ss);
        Row(q, fs.g.csize) < |chain| && clust == chain[Row(q, fs.g.csize)] && s == SectorAt(fs.g, chain, q)
      modifies fs`disk, buf, `dirty, `sect, `sq, `fptr, `objsize
      ensures Valid() && 0 < n <= |b| && fptr == old(fptr) + n
      ensures Content() == SpliceBytes(old(Content()), old(fptr), b[..n])
      ensures OnlyOwn(fs.g, old(fs.Sight()), fs.Sight(), chain)
    {
      hide Coherent, View, FatBytes, TableOf, FatsAgree, Roomy, Partition, Chain, Free, WindowApart, SectorAt,
        FileSectors, Flat, Row, Col, Uniform, ClusterSector, SameOutside, OnlyOwn, Splice, ChainsOk, CacheOk, Overwrite,
        SpliceBytes, File.Core;
      CoreFacts();
      Flush();
      CoreFacts();
      ghost var v := fs.Sight();
      if Row(|b|, fs.g.ss) > 0 {
        RowPositive(|b|, fs.g.ss);
        n := WriteWhole(b, s);
        CoreFacts();
        OnlyOwnTrans(fs.g, old(fs.Sight()), v, fs.Sight(), chain, chain);
      } else {
        if sect != s && fptr < objsize {
          Load(s, Row(fptr, fs.g.ss));
        }
        CoreFacts();
        n := WritePart(b, s);
      }
    }

    /** Inside a sector, the buffer shows it. */
    lemma InsideFacts()
      requires Valid() && Col(fptr, fs.g.ss) != 0
      ensures var q := Row(fptr, fs.g.ss);
        Row(q, fs.g.csize) < |chain| && clust == chain[Row(q, fs.g.csize)] && sect == SectorAt(fs.g, chain, q)
    {
      hide Coherent, View, FatBytes, TableOf, FatsAgree, Roomy, Partition, Chain, Free, WindowApart, SectorAt,
        FileSectors, Flat, Row, Col, Uniform, ClusterSector, SameOutside, OnlyOwn, Splice, ChainsOk;
      fs.Facts();
      RowCol(fptr, fs.g.ss);
      PositionInside(fptr, fs.g.ss);
    }

    /** One turn of the loop of f_write; 0 when there is no cluster left. */
    method WriteStep(b: seq<byte>) returns (n: nat)
      requires Valid() && b != [] && fptr + |b| <= MAX_SIZE
      modifies fs`disk, fs`wflag, fs`winsect, fs.win, fs`lastClst, fs`freeClst, fs`fsiDirty
      modifies `chain, `sclust, `clust, buf, `dirty, `sect, `sq, `fptr, `objsize
      ensures Valid() && old(chain) <= chain && n <= |b| && fptr == old(fptr) + n
      ensures Content() == SpliceBytes(old(Content()), old(fptr), b[..n])
      ensures n == 0 ==> Free(fs.Table()) == 0
      ensures OnlyOwn(fs.g, old(fs.Sight()), fs.Sight(), chain)
    {
      hide Coherent, View, FatBytes, TableOf, FatsAgree, Roomy, Partition, Chain, Free, WindowApart, SectorAt,
        FileSectors, Flat, Row, Col, Uniform, ClusterSector, SameOutside, OnlyOwn, Splice, ChainsOk, CacheOk, Overwrite,
        SpliceBytes, File.Content, File.Sectors, File.Core;
      CoreFacts();
      ghost var v := fs.Sight();
      SpliceNone(Content(), fptr);
      var s := sect;
      if Col(fptr, fs.g.ss) == 0 {
        var ok;
        ok, s := LocateWrite();
        CoreFacts();
        v := fs.Sight();
        if !ok {
          return 0;
        }
        n := WriteBoundary(b, s);
        CoreFacts();
        OnlyOwnTrans(fs.g, old(fs.Sight()), v, fs.Sight(), chain, chain);
      } else {
        InsideFacts();
        n := WritePart(b, s);
        CoreFacts();
      }
    }

    /** The contents are the sectors up to the size. */
    lemma ContentIs(d: seq<Sector>, b: seq<byte>, size: nat, p: nat)
      requires Core() && size <= |Flat(d)| && p <= size && p + |b| <= |Flat(d)|
      requires Flat(Sectors()) == Overwrite(Flat(d), p, b) && objsize == if p + |b| > size then p + |b| else size
      ensures Content() == SpliceBytes(Flat(d)[..size], p, b)
    {
      hide Core, Flat;
      OverwriteContent(Flat(d), size, p, b);
    }

    /**
     * f_write: puts the bytes in at the file pointer, fewer only when no cluster is free any more or at the limit of
     * 4 GiB - 1.
     */
    method Write(data: seq<byte>) returns (ok: bool, bw: nat)
      requires Valid() && |data| <= 0xFFFF_FFFF
      modifies fs`disk, fs`wflag, fs`winsect, fs.win, fs`lastClst, fs`freeClst, fs`fsiDirty
      modifies `chain, `sclust, `clust, buf, `dirty, `sect, `sq, `fptr, `objsize, `modified
      ensures Valid() && ok == canWrite && old(chain) <= chain && fptr == old(fptr) + bw
      ensures !ok ==> bw == 0 && fs.Sight() == old(fs.Sight())
      ensures bw <= |data| && Content() == SpliceBytes(old(Content()), old(fptr), data[..bw])
      ensures ok && bw < |data| ==> Free(fs.Table()) == 0 || fptr == 0xFFFF_FFFF
      ensures ok ==> modified
      ensures OnlyOwn(fs.g, old(fs.Sight()), fs.Sight(), chain)
    {
      hide Coherent, View, FatBytes, TableOf, FatsAgree, Roomy, Partition, Chain, Free, WindowApart, SectorAt,
        FileSectors, Flat, Row, Col, Uniform, ClusterSector, SameOutside, OnlyOwn, Splice, ChainsOk, CacheOk,
        SpliceBytes, File.Content, File.Sectors, File.Core, File.Positioned;
      CoreFacts();
      ghost var c, p := Content(), fptr;
      SpliceNone(c, p);
      bw := 0;
      if !canWrite {
        return false, 0;
      }
      var btw := |data|;
      if (fptr + btw) % 0x1_0000_0000 < fptr {
        btw := MAX_SIZE - fptr;
      }
      WrapAround(fptr, |data|);
      ghost var want := btw;
      while btw > 0
        invariant fs.Valid() && Valid() && 0 <= btw && bw + btw == want <= |data| && fptr == p + bw &&
          p + want <= MAX_SIZE
        invariant old(chain) <= chain
        invariant p <= |c| && Content() == SpliceBytes(c, p, data[..bw])
        invariant OnlyOwn(fs.g, old(fs.Sight()), fs.Sight(), chain)
      {
        CoreFacts();
        ghost var v, cs := fs.Sight(), chain;
        var b := data[bw..bw + btw];
        var n := WriteStep(b);
        CoreFacts();
        OnlyOwnTrans(fs.g, old(fs.Sight()), v, fs.Sight(), cs, chain);
        SpliceMore(c, p, data[..bw], b[..n]);
        SliceMore(data, bw, want, n);
        if n == 0 {
          break;
        }
        btw := btw - n;
        bw := bw + n;
      }
      SetModified();
      ok := true;
    }

    method SetModified()
      requires Valid()
      modifies `modified
      ensures Valid() && Content() == old(Content()) && modified
    {
      hide Coherent, View, FatBytes, TableOf, FatsAgree, Roomy, Partition, Chain, Free, WindowApart, SectorAt,
        FileSectors, Flat, Row, Col, Uniform, ClusterSector, SameOutside, OnlyOwn, Splice, ChainsOk, CacheOk;
      fs.Facts();
      modified := true;
    }

    /** The position moves to p, inside the clusters of the file; the file grows when p is behind its end. */
    method MoveTo(p: nat)
      requires Core() && p <= |Flat(Sectors())| && p <= MAX_SIZE
      modifies `fptr, `objsize, `modified
      ensures Core() && Sectors() == old(Sectors()) && old(Content()) <= Content()
      ensures fptr == p && objsize == if p > old(objsize) then p else old(objsize)
      ensures objsize > old(objsize) || old(modified) ==> modified
    {
      hide Coherent, View, FatBytes, TableOf, FatsAgree, Roomy, Partition, Chain, Free, WindowApart, SectorAt,
        FileSectors, Flat, Row, Col, Uniform, ClusterSector, SameOutside, OnlyOwn, Splice, ChainsOk, CacheOk;
      fs.Facts();
      fptr := p;
      if fptr > objsize {
        objsize := fptr;
        modified := true;
      }
    }

    /** The cluster at hand is cluster k, the position its first byte, and the file reaches that far. */
    ghost predicate AtCluster(k: nat)
      requires Core()
      reads this, buf, fs, fs.win
    {
      k < |chain| && clust == chain[k] && fptr == k * ClusterBytes(fs.g)
    }

    /** Where a seek to byte ofs - 1 starts: in the present cluster, or else in the first one, allocated if need be. */
    method SeekStart(ofs: nat, ifptr: nat) returns (clst: nat, ghost k: nat)
      requires Core() && 0 < ofs && ifptr <= objsize && ClustOk(fs.g, chain, ifptr, clust) && fptr == 0
      modifies fs`disk, fs`wflag, fs`winsect, fs.win, fs`lastClst, fs`freeClst, fs`fsiDirty
      modifies `chain, `sclust, `clust, `fptr
      ensures Core() && Content() == old(Content()) && old(chain) <= chain && objsize == old(objsize)
      ensures OnlyOwn(fs.g, old(fs.Sight()), fs.Sight(), chain)
      ensures clst == 0 ==> chain == [] && Free(fs.Table()) == 0 && fptr == 0
      ensures clst != 0 ==> AtCluster(k) && clst == clust && fptr < ofs
    {
      hide Coherent, View, FatBytes, TableOf, FatsAgree, Roomy, Partition, Chain, Free, WindowApart, SectorAt,
        FileSectors, Flat, Row, Col, Uniform, ClusterSector, SameOutside, OnlyOwn, Splice, ChainsOk, CacheOk,
        File.Content, File.Sectors;
      CoreFacts();
      ChainsOkFacts(fs.Table(), others, chain, sclust);
      var bcs := ClusterBytes(fs.g);
      k := 0;
      if ifptr > 0 && Row(ofs - 1, bcs) >= Row(ifptr - 1, bcs) {
        k := Row(ifptr - 1, bcs);
        SectorRow(ifptr - 1, fs.g.ss, fs.g.csize);
        RowStart(ifptr, ofs, bcs);
        SetPointer((ifptr - 1) - Col(ifptr - 1, bcs));
        clst := clust;
        CoreFacts();
      } else {
        clst := sclust;
        if clst == 0 {
          clst := Follow(0, 0);
          CoreFacts();
        } else {
          HeadIs(fs.Table(), others, chain, sclust);
        }
        SetCluster(clst);
        CoreFacts();
      }
    }

    method SetPointer(p: nat)
      requires Core() && p <= objsize
      modifies `fptr
      ensures Core() && Content() == old(Content()) && fptr == p
    {
      hide Coherent, View, FatBytes, TableOf, FatsAgree, Roomy, Partition, Chain, Free, WindowApart, SectorAt,
        FileSectors, Flat, Row, Col, Uniform, ClusterSector, SameOutside, OnlyOwn, Splice, ChainsOk, CacheOk;
      fs.Facts();
      fptr := p;
    }

    /** One cluster ahead; in write mode the chain is stretched where it ends, and the file with it. */
    method SeekStep(clst: nat, ghost k: nat) returns (next: nat)
      requires Core() && AtCluster(k) && clst == clust && fptr + ClusterBytes(fs.g) <= MAX_SIZE
      requires !canWrite ==> fptr + ClusterBytes(fs.g) < objsize
      modifies fs`disk, fs`wflag, fs`winsect, fs.win, fs`lastClst, fs`freeClst, fs`fsiDirty
      modifies `chain, `sclust, `clust, `fptr, `objsize, `modified
      ensures objsize > old(objsize) || old(modified) ==> modified
      ensures Core() && old(Content()) <= Content() && old(chain) <= chain
      ensures OnlyOwn(fs.g, old(fs.Sight()), fs.Sight(), chain)
      ensures fptr == old(fptr) + ClusterBytes(fs.g) && objsize == if fptr > old(objsize) then fptr else old(objsize)
      ensures next == 0 ==> |chain| == k + 1 && clust == chain[k] && Free(fs.Table()) == 0
      ensures next != 0 ==> AtCluster(k + 1) && next == clust
    {
      hide Coherent, View, FatBytes, TableOf, FatsAgree, Roomy, Partition, Chain, Free, WindowApart, SectorAt,
        FileSectors, Flat, Row, Col, Uniform, ClusterSector, SameOutside, OnlyOwn, Splice, ChainsOk, CacheOk,
        File.Content, File.Sectors;
      CoreFacts();
      ghost var c := Content();
      MulNext(k, ClusterBytes(fs.g));
      if canWrite {
        RoomAhead(k);
        MoveTo(fptr + ClusterBytes(fs.g));
        next := Follow(clst, k + 1);
        CoreFacts();
        if next == 0 {
          return;
        }
      } else {
        SetPointer(fptr + ClusterBytes(fs.g));
        next := NextCluster(clst, k);
        CoreFacts();
      }
      SetCluster(next);
      CoreFacts();
    }

    lemma RoomAhead(k: nat)
      requires Core() && k < |chain|
      ensures (k + 1) * ClusterBytes(fs.g) <= |Flat(Sectors())|
    {
      hide Flat, Row, Col, Chain, Partition, WindowApart, Free, Roomy, Coherent;
      fs.Facts();
      ClusterEnd(k + 1, |chain|, fs.g.csize, fs.g.ss);
    }

    /** get_fat in the middle of the chain. */
    method NextCluster(clst: nat, ghost k: nat) returns (next: nat)
      requires Core() && k < |chain| && clst == chain[k] && (k + 1) * ClusterBytes(fs.g) < objsize
      modifies fs`disk, fs`wflag, fs`winsect, fs.win
      ensures Core() && Content() == old(Content()) && fs.Sight() == old(fs.Sight())
      ensures k + 1 < |chain| && next == chain[k + 1] && next != 0
    {
      hide Coherent, View, FatBytes, TableOf, FatsAgree, Roomy, Partition, Chain, Free, WindowApart, SectorAt,
        FileSectors, Flat, Row, Col, Uniform, ClusterSector, SameOutside, OnlyOwn, Splice, ChainsOk, CacheOk;
      fs.Facts();
      ghost var t := fs.Table();
      ChainsOkFacts(t, others, chain, sclust);
      ChainRange(fs.g, t, chain);
      ClusterIn(k + 1, |chain|, fs.g.csize, fs.g.ss, objsize);
      NextInChain(t, chain, k);
      next := fs.GetFat(clst);
      StaysPut(fs.g, old(fs.winsect), fs.winsect, t, chain);
    }

    /** The last part of a seek: into cluster k, or to its very end when the volume is full. */
    method SeekEnd(ofs: nat, clst: nat, ghost k: nat, ghost r: nat)
      requires Core() && k < |chain| && clust == chain[k] && fptr + ofs <= MAX_SIZE
      requires 0 < r <= ClusterBytes(fs.g) && fptr + ofs == k * ClusterBytes(fs.g) + r
      requires (ofs == r && clst == clust) || (ofs == 0 && r == ClusterBytes(fs.g))
      modifies fs`disk, `dirty, `sect, `sq, buf, `fptr, `objsize, `modified
      ensures objsize > old(objsize) || old(modified) ==> modified
      ensures Valid() && old(Content()) <= Content() && OnlyOwn(fs.g, old(fs.Sight()), fs.Sight(), chain)
      ensures fptr == old(fptr) + ofs && objsize == if fptr > old(objsize) then fptr else old(objsize)
      ensures fs.Table() == old(fs.Table())
    {
      hide Coherent, View, FatBytes, TableOf, FatsAgree, Roomy, Partition, Chain, Free, WindowApart, SectorAt,
        FileSectors, Flat, Row, Col, Uniform, ClusterSector, SameOutside, OnlyOwn, Splice, ChainsOk, CacheOk,
        File.Sectors;
      CoreFacts();
      ghost var d := Sectors();
      var nsect := 0;
      if Col(ofs, fs.g.ss) != 0 {
        nsect := ClusterSector(fs.g, clst) + Row(ofs, fs.g.ss);
      }
      RoomAhead(k);
      MulNext(k, ClusterBytes(fs.g));
      SeekPosition(fs.g, k, r, ofs);
      MoveTo(fptr + ofs);
      CoreFacts();
      if Col(fptr, fs.g.ss) != 0 {
        SeekSector(fs.g, chain, k, ofs, fptr);
        FillForRead(nsect, Row(fptr, fs.g.ss));
      }
    }

    /**
     * f_lseek: moves the position, behind the end only when the file may be written.  Then the chain is stretched and
     * the file grows; the bytes up to its former end stay, those in the gap are whatever the clusters held.  On a full
     * volume the position stops where the last cluster ends.
     */
    method LSeek(target: nat)
      requires Valid()
      modifies fs`disk, fs`wflag, fs`winsect, fs.win, fs`lastClst, fs`freeClst, fs`fsiDirty
      modifies `chain, `sclust, `clust, buf, `dirty, `sect, `sq, `fptr, `objsize, `modified
      ensures objsize > old(objsize) || old(modified) ==> modified
      ensures Valid() && old(Content()) <= Content() && old(chain) <= chain
      ensures objsize == if fptr > old(objsize) then fptr else old(objsize)
      ensures target <= old(objsize) ==> fptr == target
      ensures target > old(objsize) && !canWrite ==> fptr == old(objsize)
      ensures target > old(objsize) && canWrite ==>
        fptr == (if target > 0xFFFF_FFFF then 0xFFFF_FFFF else target) ||
        (Free(fs.Table()) == 0 && fptr == |chain| * ClusterBytes(fs.g) < target && fptr < 0xFFFF_FFFF)
      ensures OnlyOwn(fs.g, old(fs.Sight()), fs.Sight(), chain)
    {
      hide Coherent, View, FatBytes, TableOf, FatsAgree, Roomy, Partition, Chain, Free, WindowApart, SectorAt,
        FileSectors, Flat, Row, Col, Uniform, ClusterSector, SameOutside, OnlyOwn, Splice, ChainsOk, CacheOk,
        File.Content, File.Sectors, File.Core;
      CoreFacts();
      var ofs := if target >= 0x1_0000_0000 then MAX_SIZE else target;
      if ofs > objsize && !canWrite {
        ofs := objsize;
      }
      var ifptr := fptr;
      SetPointer(0);
      AtStart();
      if ofs > 0 {
        SeekForward(ofs, ifptr);
        SizeInChain();
      }
    }

    /** The chain is long enough for the size. */
    lemma SizeInChain()
      requires Valid()
      ensures fs.g.ss > 0 && fs.g.csize > 0 && objsize <= |chain| * ClusterBytes(fs.g)
    {
      fs.Facts();
      Regrouped(|chain|, fs.g.csize, fs.g.ss);
      hide Positioned, CacheOk, ChainsOk;
    }

    lemma AtStart()
      requires Core() && fptr == 0
      ensures Positioned()
    {
      fs.Facts();
      Split(0, fs.g.ss, 0, 0);
    }

    /** The cluster following loop of f_lseek. */
    method SeekForward(target: nat, ifptr: nat)
      requires Valid() && fptr == 0 < target <= MAX_SIZE && (canWrite || target <= objsize)
      requires ifptr <= objsize && ClustOk(fs.g, chain, ifptr, clust)
      modifies fs`disk, fs`wflag, fs`winsect, fs.win, fs`lastClst, fs`freeClst, fs`fsiDirty
      modifies `chain, `sclust, `clust, buf, `dirty, `sect, `sq, `fptr, `objsize, `modified
      ensures objsize > old(objsize) || old(modified) ==> modified
      ensures Valid() && old(Content()) <= Content() && old(chain) <= chain
      ensures objsize == if fptr > old(objsize) then fptr else old(objsize)
      ensures fptr == target || (Free(fs.Table()) == 0 && fptr == |chain| * ClusterBytes(fs.g) < target)
      ensures OnlyOwn(fs.g, old(fs.Sight()), fs.Sight(), chain)
    {
      hide Coherent, View, FatBytes, TableOf, FatsAgree, Roomy, Partition, Chain, Free, WindowApart, SectorAt,
        FileSectors, Flat, Row, Col, Uniform, ClusterSector, SameOutside, OnlyOwn, Splice, ChainsOk, CacheOk,
        File.Content, File.Sectors, File.Core;
      CoreFacts();
      ghost var c := Content();
      var clst;
      ghost var k: nat;
      clst, k := SeekStart(target, ifptr);
      CoreFacts();
      if clst == 0 {
        AtStart();
        return;
      }
      var bcs := ClusterBytes(fs.g);
      var ofs := target - fptr;
      while ofs > bcs
        invariant fs.Valid() && Core() && c <= Content() && old(chain) <= chain
        invariant OnlyOwn(fs.g, old(fs.Sight()), fs.Sight(), chain)
        invariant objsize == if fptr > old(objsize) then fptr else old(objsize)
        invariant objsize > old(objsize) || old(modified) ==> modified
        invariant clst != 0 ==> AtCluster(k) && clst == clust && fptr + ofs == target && 0 < ofs
        invariant clst == 0 ==> ofs == 0 && |chain| == k + 1 && clust == chain[k] && Free(fs.Table()) == 0
        invariant clst == 0 ==> fptr == k * bcs + bcs < target
      {
        ghost var v, cs := fs.Sight(), chain;
        ofs := ofs - bcs;
        clst := SeekStep(clst, k);
        CoreFacts();
        OnlyOwnTrans(fs.g, old(fs.Sight()), v, fs.Sight(), cs, chain);
        if clst == 0 {
          ofs := 0;
        } else {
          k := k + 1;
        }
      }
      ghost var v := fs.Sight();
      MulNext(k, bcs);
      SeekEnd(ofs, clst, k, if clst == 0 then bcs else ofs);
      CoreFacts();
      OnlyOwnTrans(fs.g, old(fs.Sight()), v, fs.Sight(), chain, chain);
    }
  }

  lemma ChainsOkFacts(t: Table, others: seq<seq<nat>>, chain: seq<nat>, sclust: nat)
    requires ChainsOk(t, others, chain, sclust)
    ensures chain == [] || Chain(t, chain)
    ensures sclust == 0 <==> chain == []
    ensures forall i :: 0 <= i < |chain| ==> 2 <= chain[i] < |t|
  {
  }

  lemma HeadIs(t: Table, others: seq<seq<nat>>, chain: seq<nat>, sclust: nat)
    requires ChainsOk(t, others, chain, sclust) && sclust != 0
    ensures chain != [] && sclust == chain[0]
  {
  }

  lemma FreeRange(t: Table)
    requires |t| > 2
    ensures Free(t) <= |t| - 2
  {
    FreeBounds(t);
  }

  lemma Regrouped(n: nat, c: nat, s: nat)
    ensures n * c * s == n * (s * c)
  {
  }

  lemma GrownSize(n: nat, c: nat, s: nat)
    ensures n * c * s <= (n + 1) * c * s
  {
    MulNext(n, c);
    Distrib(n * c, c, s);
  }

  lemma FlatPrefix(d: seq<Sector>, e: seq<Sector>, n: nat)
    requires d <= e && n <= |Flat(d)|
    ensures n <= |Flat(e)| && Flat(e)[..n] == Flat(d)[..n]
  {
    FlatAppend(d, e[|d|..]);
    assert d + e[|d|..] == e;
  }

  lemma FollowChains(ty: FsType, t: Table, free: nat, last: nat, from: nat, r: nat, u: Table, others: seq<seq<nat>>,
    chain: seq<nat>, sclust: nat, k: nat)
    requires ChainsOk(t, others, chain, sclust) && Created(ty, t, free, last, from, r, u) && Eoc(ty) >= |t| > 2
    requires free == Free(t) || free > |t| - 2
    requires k <= |chain| && if k == 0 then chain == [] && from == 0 else from == chain[k - 1]
    ensures r == 0 ==> u == t && Free(t) == 0 && k == |chain|
    ensures r != 0 && k < |chain| ==> r == chain[k] && u == t
    ensures r != 0 && k == |chain| ==> 2 <= r < |t| && t[r] == 0 && u != t
    ensures r != 0 && k == |chain| ==> ChainsOk(u, others, chain + [r], if chain == [] then r else sclust)
    ensures r != 0 && k == |chain| && free == Free(t) ==> Free(u) == free - 1
    ensures r != 0 && k == |chain| ==> u == Stretched(t, from, r, Eoc(ty))
  {
    hide Partition, Free, FirstFree;
    if k < |chain| {
      assert t[chain[k - 1]] == chain[k];
    } else {
      var chains := WithLast(others, chain);
      CreatedKeepsChains(ty, t, free, last, from, r, u, chains, |others|);
      if r != 0 {
        assert Stretched(t, from, r, Eoc(ty))[r] != 0;
        if from == 0 {
          assert [] + [r] == [r];
        } else {
          assert chains[|others|] == chain;
          assert (others + [chain])[|others| := chain + [r]] == others + [chain + [r]];
        }
        LastIsChain(u, others, chain + [r]);
      }
    }
  }

  lemma LastIsChain(t: Table, others: seq<seq<nat>>, chain: seq<nat>)
    requires Partition(t, WithLast(others, chain)) && chain != []
    ensures Chain(t, chain)
  {
    assert WithLast(others, chain)[|others|] == chain;
  }

  /** What the file object knows stays right when its chain has grown by cluster r. */
  lemma FollowKeeps(g: Layout, t: Table, v: seq<Sector>, w: nat, u: Table, v': seq<Sector>, w': nat,
                    chain: seq<nat>, r: nat, from: nat, eoc: nat, sect: nat, sq: nat, dirty: bool, buf: Sector)
    requires ValidLayout(g) && |t| == |u| == g.nFatent && |v| == |v'| == g.nsect && InRange(g, chain)
    requires 2 <= r < |t| && from < |t| && t[r] == 0 && eoc > 0 && u == Stretched(t, from, r, eoc)
    requires SameOutside(g, v, v') && OnFat(g, w', w) && WindowApart(g, w, t, chain) &&
      CacheOk(g, v, chain, sect, sq, dirty, buf)
    ensures WindowApart(g, w', u, chain + [r]) && CacheOk(g, v', chain + [r], sect, sq, dirty, buf)
    ensures InRange(g, chain + [r]) && (dirty ==> sect < |v|)
    ensures FileSectors(g, if dirty then v[sect := buf] else v, chain) <= FileSectors(g, if dirty then v'[sect := buf]
      else v', chain + [r])
  {
    hide Roomy, SectorAt, FileSectors, Row, Col, Owner;
    StaysApart(g, w, w', t, u, chain, chain + [r]);
    var a, b := if dirty then v[sect := buf] else v, if dirty then v'[sect := buf] else v';
    FileFrame(g, a, b, chain);
    FileExtend(g, b, chain, r);
    if sect != 0 {
      SectorAtBounds(g, chain, sq);
      SectorAtPrefix(g, chain, chain + [r], sq);
    }
  }

  lemma SectorAtPrefix(g: Layout, chain: seq<nat>, chain': seq<nat>, q: nat)
    requires g.csize > 0 && chain <= chain' && Row(q, g.csize) < |chain|
    ensures SectorAt(g, chain, q) == SectorAt(g, chain', q)
  {
  }

  lemma UniformAt(e: seq<Sector>, ss: nat, i: nat)
    requires Uniform(e, ss) && i < |e|
    ensures |e[i]| == ss
  {
  }

  lemma SpliceAt(v: seq<Sector>, s: nat, e: seq<Sector>, d: nat)
    requires s + |e| <= |v|
    ensures d < |v| ==> Splice(v, s, e)[d] == if s <= d < s + |e| then e[d - s] else v[d]
  {
  }

  lemma RowPositive(n: nat, ss: nat)
    requires ss > 0 && Row(n, ss) > 0
    ensures n >= ss
  {
  }

  /** Some of the whole sectors that fit in n bytes. */
  lemma WholeSectors(n: nat, ss: nat, cc: nat)
    requires ss > 0
    ensures ss <= n ==> Row(n, ss) > 0
    ensures 0 < cc <= Row(n, ss) ==> 0 < cc * ss <= n && ss * cc == cc * ss
  {
    RowCol(n, ss);
    var r := Row(n, ss);
    if ss <= n {
      RowLess(n, 1, ss);
    }
    if 0 < cc <= r {
      hide Row, Col;
      MulComm(cc, ss);
      MulComm(r, ss);
      MulStep(ss, 0, cc);
      if cc < r {
        MulStep(ss, cc, r);
      }
    }
  }

  lemma WholePiece(d: seq<Sector>, g: Layout, p: nat, cc: nat)
    requires g.ss > 0 && g.csize > 0 && Uniform(d, g.ss) && Col(p, g.ss) == 0 && 0 < cc && Row(p, g.ss) + cc <= |d|
    requires Col(Row(p, g.ss), g.csize) + cc <= g.csize
    ensures g.ss * cc > 0 && p + g.ss * cc <= |Flat(d)| && Col(p + g.ss * cc, g.ss) == 0
    ensures Flat(d)[p..p + g.ss * cc] == Flat(d[Row(p, g.ss)..Row(p, g.ss) + cc])
    ensures |Flat(d[Row(p, g.ss)..Row(p, g.ss) + cc])| == g.ss * cc
    ensures Row(Row(p + g.ss * cc - 1, g.ss), g.csize) == Row(Row(p, g.ss), g.csize)
  {
    hide Flat, Row, Col, Uniform;
    MulComm(g.ss, cc);
    MulStep(g.ss, 0, cc);
    PieceOfRun(d, g.ss, p, cc);
    LastByte(p, cc * g.ss, g.ss, g.csize, cc);
    ColAfterWhole(p, cc, g.ss);
  }

  lemma ColAfterWhole(p: nat, cc: nat, ss: nat)
    requires ss > 0 && Col(p, ss) == 0
    ensures Col(p + cc * ss, ss) == 0
  {
    RowCol(p, ss);
    Distrib(Row(p, ss), cc, ss);
    RowColOf(Row(p, ss) + cc, 0, ss);
  }

  /** The buffer holds the newest state of its sector. */
  lemma BufferIs(g: Layout, v: seq<Sector>, u: seq<Sector>, chain: seq<nat>, sect: nat, sq: nat, dirty: bool,
    buf: Sector)
    requires ValidLayout(g) && InRange(g, chain) && |v| == |u| == g.nsect
    requires CacheOk(g, v, chain, sect, sq, dirty, buf) && sect != 0
    requires u == if dirty then v[sect := buf] else v
    ensures sq < |FileSectors(g, u, chain)| && FileSectors(g, u, chain)[sq] == buf
  {
    hide Roomy, Row, Col, SectorAt, FileSectors;
    FileSectorAt(g, u, chain, sq);
  }

  lemma FirstOf(e: seq<Sector>, ss: nat)
    requires Uniform(e, ss) && e != []
    ensures |e[0]| == ss
  {
  }

  lemma OneMore(q: nat, c: nat)
    requires c > 0
    ensures Col(q, c) + 1 <= c
  {
  }

  lemma NearSector(a: nat, s: nat, n: nat)
    requires a < 0x1_0000_0000 && s + n <= 0x1_0000_0000
    ensures (a as int - s) % 0x1_0000_0000 < n <==> s <= a < s + n
  {
    if a >= s {
      Split(a - s, 0x1_0000_0000, 0, a - s);
    } else {
      var x: int := a - s;
      assert x % 0x1_0000_0000 == x + 0x1_0000_0000;
    }
  }

  lemma OverlayRun(g: Layout, v: seq<Sector>, u: seq<Sector>, dirty: bool, sect: nat, buf: Sector, s: nat, n: nat)
    requires |v| == |u| && s + n <= |v| <= 0x1_0000_0000 && (dirty ==> sect < |v|)
    requires u == if dirty then v[sect := buf] else v
    ensures u[s..s + n] == if dirty && (sect as int - s) % 0x1_0000_0000 < n then
      v[s..s + n][(sect - s) % 0x1_0000_0000 := buf] else v[s..s + n]
  {
    if dirty {
      NearSector(sect, s, n);
      if s <= sect {
        Split(sect - s, 0x1_0000_0000, 0, sect - s);
      }
    }
  }

  lemma CachedAgain(g: Layout, chain: seq<nat>, p: nat, q: nat)
    requires ValidLayout(g) && InRange(g, chain) && Distinct(chain) && Row(p, g.csize) < |chain| &&
      Row(q, g.csize) < |chain|
    requires SectorAt(g, chain, p) == SectorAt(g, chain, q)
    ensures p == q
  {
    if p != q {
      SectorAtInjective(g, chain, p, q);
    }
  }

  lemma StaysPut(g: Layout, before: nat, winsect: nat, t: Table, chain: seq<nat>)
    requires ValidLayout(g) && WindowApart(g, before, t, chain) && InRange(g, chain) && |t| == g.nFatent
    requires winsect == before || g.fatbase <= winsect < g.fatbase + g.fsize
    ensures WindowApart(g, winsect, t, chain)
  {
    hide Roomy;
    StaysApart(g, before, winsect, t, t, chain, chain);
  }

  /** Where the byte at the file pointer lies, and the byte in front of it. */
  lemma PositionFacts(g: Layout, t: Table, chain: seq<nat>, size: nat, fptr: nat)
    requires g.csize > 0 && g.ss > 0 && |t| == g.nFatent && (chain == [] || Chain(t, chain))
    requires fptr < size <= |chain| * g.csize * g.ss
    ensures InRange(g, chain) && chain != []
    ensures var q := Row(fptr, g.ss);
      var k := Row(q, g.csize);
      && q < |chain| * g.csize && k < |chain|
      && (fptr > 0 && Col(fptr, g.ss) == 0 ==> q > 0 && Row(fptr - 1, g.ss) == q - 1)
      && (fptr > 0 && Col(fptr, g.ss) != 0 ==> Row(fptr - 1, g.ss) == q)
      && (q > 0 && Col(q, g.csize) == 0 ==> k > 0 && Row(q - 1, g.csize) == k - 1 && t[chain[k - 1]] == chain[k])
      && (q > 0 && Col(q, g.csize) != 0 ==> Row(q - 1, g.csize) == k)
      && (fptr == 0 ==> Col(fptr, g.ss) == 0 && q == 0 && k == 0 && Col(q, g.csize) == 0)
  {
    ChainRange(g, t, chain);
    var q := Row(fptr, g.ss);
    if fptr == 0 {
      Split(0, g.ss, 0, 0);
      Split(0, g.csize, 0, 0);
    }
    RowLess(fptr, |chain| * g.csize, g.ss);
    RowLess(q, |chain|, g.csize);
    hide Row, Col;
    if fptr > 0 {
      RowPred(fptr, g.ss);
    }
    if q > 0 {
      RowPred(q, g.csize);
    }
  }

  /** On a sector boundary: the cluster in front, and the one the position is about to enter. */
  lemma BoundaryFacts(g: Layout, p: nat)
    requires g.ss > 0 && g.csize > 0 && Col(p, g.ss) == 0
    ensures var q := Row(p, g.ss);
      var k := Row(q, g.csize);
      && (p == 0 ==> q == 0 && k == 0 && Col(q, g.csize) == 0)
      && (p > 0 && Col(q, g.csize) == 0 ==> k > 0 && Row(Row(p - 1, g.ss), g.csize) == k - 1)
      && (p > 0 && Col(q, g.csize) != 0 ==> Row(Row(p - 1, g.ss), g.csize) == k)
  {
    var q := Row(p, g.ss);
    if p == 0 {
      Split(0, g.ss, 0, 0);
      Split(0, g.csize, 0, 0);
    } else {
      RowPred(p, g.ss);
      hide Row, Col;
      RowPred(q, g.csize);
    }
  }

  /** The bytes as n sectors. */
  function Chopped(b: seq<byte>, ss: nat, n: nat): (e: seq<Sector>)
    requires n * ss <= |b|
    ensures |e| == n
  {
    if n == 0 then [] else
      MulNext(n - 1, ss);
      [b[..ss]] + Chopped(b[ss..], ss, n - 1)
  }

  lemma {:induction false} ChoppedFlat(b: seq<byte>, ss: nat, n: nat)
    requires n * ss <= |b|
    ensures Uniform(Chopped(b, ss, n), ss) && Flat(Chopped(b, ss, n)) == b[..n * ss]
  {
    if n > 0 {
      MulNext(n - 1, ss);
      ChoppedFlat(b[ss..], ss, n - 1);
      var e := Chopped(b[ss..], ss, n - 1);
      assert Flat([b[..ss]] + e) == b[..ss] + Flat(e);
      assert b[..ss] + b[ss..][..(n - 1) * ss] == b[..ss + (n - 1) * ss];
    } else {
      assert b[..0 * ss] == [];
    }
  }

  lemma SomeSectors(n: nat, ss: nat, cc: nat)
    requires ss > 0 && ss <= n && cc <= Row(n, ss)
    ensures cc * ss <= n && Row(n, ss) > 0
  {
    RowCol(n, ss);
    RowLess(n, 1, ss);
    var r := Row(n, ss);
    hide Row, Col;
    Distrib(cc, r - cc, ss);
  }

  /** Whole sectors put over a file at a sector boundary. */
  lemma WholeFits(d: seq<Sector>, g: Layout, p: nat, e: seq<Sector>, b: seq<byte>)
    requires g.ss > 0 && Uniform(d, g.ss) && Uniform(e, g.ss) && Col(p, g.ss) == 0 && Row(p, g.ss) + |e| <= |d| &&
      Flat(e) == b
    ensures p + |b| <= |Flat(d)| && Flat(Splice(d, Row(p, g.ss), e)) == Overwrite(Flat(d), p, b)
  {
    hide Flat, Row, Col, Splice, Uniform;
    RowCol(p, g.ss);
    FlatReplace(d, g.ss, Row(p, g.ss), e);
  }

  /** Bytes put into a sector the buffer shows, or into a fresh one at the end of the file. */
  lemma PartFits(d: seq<Sector>, g: Layout, p: nat, size: nat, w: Sector, b: seq<byte>)
    requires g.ss > 0 && Uniform(d, g.ss) && Row(p, g.ss) < |d| && Col(p, g.ss) + |b| <= g.ss == |w| &&
      p <= size <= |Flat(d)|
    requires w == d[Row(p, g.ss)] || (p == size && Col(p, g.ss) == 0)
    ensures var d' := d[Row(p, g.ss) := Overwrite(w, Col(p, g.ss), b)];
      var m := if p + |b| > size then p + |b| else size;
      m <= |Flat(d')| == |Flat(d)| && Flat(d')[..m] == SpliceBytes(Flat(d)[..size], p, b)
  {
    hide Flat, Row, Col, Uniform;
    var q, o := Row(p, g.ss), Col(p, g.ss);
    RowCol(p, g.ss);
    if w == d[q] {
      FlatStore(d, g.ss, q, o, b);
      OverwriteContent(Flat(d), size, p, b);
    } else {
      FlatReplaceOne(d, g.ss, q, Overwrite(w, o, b));
      PutAtEnd(Flat(d), p, w, b);
    }
  }

  lemma PutAtEnd(f: seq<byte>, p: nat, w: seq<byte>, b: seq<byte>)
    requires p + |w| <= |f| && |b| <= |w|
    ensures (f[..p] + Overwrite(w, 0, b) + f[p + |w|..])[..p + |b|] == SpliceBytes(f[..p], p, b)
  {
  }

  lemma PositionInside(p: nat, ss: nat)
    requires ss > 0 && Col(p, ss) != 0
    ensures p > 0 && Row(p - 1, ss) == Row(p, ss)
  {
    if p == 0 {
      Split(0, ss, 0, 0);
    } else {
      RowPred(p, ss);
    }
  }

  /** The sum wraps around in 32 bits exactly when it does not fit. */
  lemma WrapAround(p: nat, n: nat)
    requires p <= 0xFFFF_FFFF && n <= 0xFFFF_FFFF
    ensures (p + n) % 0x1_0000_0000 < p <==> p + n > 0xFFFF_FFFF
  {
  }

  lemma SliceMore(data: seq<byte>, i: nat, j: nat, n: nat)
    requires i + n <= j <= |data|
    ensures |data[..i]| == i && data[..i] + data[i..j][..n] == data[..i + n]
  {
  }

  function ClusterBytes(g: Layout): (n: nat)
    requires g.ss > 0 && g.csize > 0
    ensures n > 0
  {
    MulStep(g.ss, 0, g.csize);
    g.ss * g.csize
  }

  /** Rounding the byte in front of p down to a row start. */
  lemma RowStart(p: nat, ofs: nat, c: nat)
    requires c > 0 && p > 0 && ofs > 0 && Row(ofs - 1, c) >= Row(p - 1, c)
    ensures Col(p - 1, c) <= p - 1
    ensures p - 1 - Col(p - 1, c) == Row(p - 1, c) * c < ofs
  {
    RowCol(p - 1, c);
    RowCol(ofs - 1, c);
    var a, b := Row(p - 1, c), Row(ofs - 1, c);
    hide Row, Col;
    Products(a, b, b, c);
  }

  lemma Regroup(k: nat, csize: nat, ss: nat)
    ensures k * (ss * csize) == k * csize * ss
  {
    MulComm(ss, csize);
    assert k * (csize * ss) == k * csize * ss;
  }

  lemma ClusterEnd(k: nat, n: nat, csize: nat, ss: nat)
    requires k <= n
    ensures k * (ss * csize) <= n * csize * ss
  {
    Regroup(n, csize, ss);
    Products(k, n, n, ss * csize);
  }

  lemma ClusterIn(k: nat, n: nat, csize: nat, ss: nat, size: nat)
    requires k * (ss * csize) < size <= n * csize * ss
    ensures k < n
  {
    Regroup(n, csize, ss);
    Products(if n <= k then n else k, k, k, ss * csize);
  }

  lemma NextInChain(t: Table, chain: seq<nat>, k: nat)
    requires Chain(t, chain) && k + 1 < |chain|
    ensures 2 <= chain[k] < |t| && t[chain[k]] == chain[k + 1] && chain[k + 1] != 0
  {
  }

  /**
   * The position r bytes into cluster k, r > 0: its last byte lies in that cluster, and its sector offset is that of r.
   */
  lemma SeekPosition(g: Layout, k: nat, r: nat, ofs: nat)
    requires g.ss > 0 && g.csize > 0 && 0 < r <= ClusterBytes(g)
    requires ofs == r || (ofs == 0 && r == ClusterBytes(g))
    ensures var p := k * ClusterBytes(g) + r;
      && Row(Row(p - 1, g.ss), g.csize) == k
      && (Col(p, g.ss) != 0 ==> ofs == r && Col(ofs, g.ss) != 0)
      && (Col(p, g.ss) != 0 ==> Row(ofs, g.ss) < g.csize && Row(p, g.ss) == k * g.csize + Row(ofs, g.ss))
  {
    var bcs, p := ClusterBytes(g), k * ClusterBytes(g) + r;
    RowColOf(k, r - 1, bcs);
    SectorRow(p - 1, g.ss, g.csize);
    RowCol(r, g.ss);
    RowLess(r, g.csize, g.ss);
    MulComm(g.ss, g.csize);
    hide Row, Col;
    var a, b := Row(r, g.ss), Col(r, g.ss);
    RowParts2(k, g.csize, g.ss, a, b);
    RowColOf(k * g.csize + a, b, g.ss);
    if r == bcs {
      RowColOf(g.csize, 0, g.ss);
    }
  }

  lemma RowParts2(k: nat, csize: nat, ss: nat, a: nat, b: nat)
    ensures k * (ss * csize) + (a * ss + b) == (k * csize + a) * ss + b
  {
    assert (k * csize + a) * ss == k * csize * ss + a * ss;
    assert k * csize * ss == k * (ss * csize);
  }

  lemma SeekSector(g: Layout, chain: seq<nat>, k: nat, ofs: nat, p: nat)
    requires g.ss > 0 && g.csize > 0 && k < |chain| && Row(ofs, g.ss) < g.csize &&
      Row(p, g.ss) == k * g.csize + Row(ofs, g.ss)
    ensures Row(Row(p, g.ss), g.csize) == k &&
      SectorAt(g, chain, Row(p, g.ss)) == ClusterSector(g, chain[k]) + Row(ofs, g.ss)
  {
    hide ClusterSector;
    RowColOf(k, Row(ofs, g.ss), g.csize);
    hide Row, Col;
  }
}
