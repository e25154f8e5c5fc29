/**
 * A mounted FAT volume: the one-sector window through which the FATs are read and written, with
 * changes reflected to the second FAT when the window is flushed.
 */
module FatVolume {
  import opened Bytes
  import opened Sectors
  import opened FatEntry

  /** Layout of the volume, fixed when it is mounted.  Sizes and positions are in sectors. */
  datatype Layout = Layout(ty: FsType, nFats: nat, ss: nat, csize: nat, nFatent: nat, fsize: nat, fatbase: nat,
    database: nat, nsect: nat)

  /** First sector behind the FATs. */
  function FatEnd(g: Layout): nat { g.fatbase + g.fsize + (if g.nFats == 2 then g.fsize else 0) }

  /** Every entry has room in the FAT and every cluster in the data area. */
  ghost predicate Roomy(g: Layout) {
    && 2 < g.nFatent
    && Base(g.ty, g.nFatent - 1) + Span(g.ty) <= g.fsize * g.ss
    && g.database + g.csize * (g.nFatent - 2) <= g.nsect
  }

  ghost predicate ValidLayout(g: Layout) {
    && (g.nFats == 1 || g.nFats == 2)
    && (g.ss == 512 || g.ss == 1024 || g.ss == 2048 || g.ss == 4096)
    && 0 < g.csize <= 128
    && g.nFatent <= MaxClusters(g.ty) + 2
    && 0 < g.fatbase && FatEnd(g) <= g.database <= g.nsect <= 0x1_0000_0000
    && Roomy(g)
  }

  /** Is the sector in the first FAT?  The difference is an unsigned 32-bit number. */
  predicate InFat(g: Layout, sect: nat) {
    (sect as int - g.fatbase) % 0x1_0000_0000 < g.fsize
  }

  lemma InFatMeans(g: Layout, sect: nat)
    requires ValidLayout(g) && sect < g.nsect
    ensures InFat(g, sect) <==> g.fatbase <= sect < g.fatbase + g.fsize
  {
    hide Roomy;
    if g.fatbase <= sect {
      Split(sect - g.fatbase, 0x1_0000_0000, 0, sect - g.fatbase);
    } else {
      var x: int := sect - g.fatbase;
      assert x % 0x1_0000_0000 == x + 0x1_0000_0000;
    }
  }

  /** The drive as its users see it: with the window, and its reflection to the second FAT, in place. */
  ghost function View(g: Layout, disk: seq<Sector>, win: Sector, winsect: nat, dirty: bool): (v: seq<Sector>)
    requires ValidLayout(g) && |disk| == g.nsect && winsect < g.nsect
    ensures |v| == |disk|
  {
    InFatMeans(g, winsect);
    if dirty && g.nFats == 2 && InFat(g, winsect) then disk[winsect := win][winsect + g.fsize := win]
    else disk[winsect := win]
  }

  /** With two FATs, the second is a copy of the first. */
  ghost predicate FatsAgree(g: Layout, v: seq<Sector>)
    requires ValidLayout(g) && |v| == g.nsect
  {
    g.nFats == 2 ==> v[g.fatbase..g.fatbase + g.fsize] == v[g.fatbase + g.fsize..g.fatbase + 2 * g.fsize]
  }

  ghost predicate Coherent(g: Layout, disk: seq<Sector>, win: Sector, winsect: nat, dirty: bool) {
    && ValidLayout(g)
    && |disk| == g.nsect && Uniform(disk, g.ss)
    && |win| == g.ss && winsect < g.nsect
    && (!dirty ==> disk[winsect] == win)
    && (dirty && g.nFats == 2 ==> !(g.fatbase + g.fsize <= winsect < g.fatbase + 2 * g.fsize))
    && FatsAgree(g, View(g, disk, win, winsect, dirty))
  }

  /** The first FAT as bytes. */
  ghost function FatBytes(g: Layout, v: seq<Sector>): seq<byte>
    requires ValidLayout(g) && |v| == g.nsect
  {
    Flat(v[g.fatbase..g.fatbase + g.fsize])
  }

  /** Nothing outside the FATs differs. */
  ghost predicate SameOutside(g: Layout, v: seq<Sector>, u: seq<Sector>)
    requires ValidLayout(g) && |v| == |u| == g.nsect
  {
    forall i :: 0 <= i < g.nsect && !(g.fatbase <= i < FatEnd(g)) ==> v[i] == u[i]
  }

  // ----- Flushing and moving the window -----

  /** Flushing makes the drive equal to the view. */
  lemma Flushed(g: Layout, disk: seq<Sector>, win: Sector, winsect: nat)
    requires Coherent(g, disk, win, winsect, true)
    ensures var d := View(g, disk, win, winsect, true);
      Coherent(g, d, win, winsect, false) && View(g, d, win, winsect, false) == d
  {
    InFatMeans(g, winsect);
  }

  lemma Moved(g: Layout, disk: seq<Sector>, win: Sector, winsect: nat, sect: nat)
    requires Coherent(g, disk, win, winsect, false) && sect < g.nsect
    ensures Coherent(g, disk, disk[sect], sect, false)
    ensures View(g, disk, disk[sect], sect, false) == View(g, disk, win, winsect, false) == disk
  {
    InFatMeans(g, sect);
    assert disk[sect := disk[sect]] == disk;
    assert disk[winsect := win] == disk;
  }

  /** While the window is dirty, the two FATs on the drive differ at most there. */
  lemma FatsAgreeOnDrive(g: Layout, disk: seq<Sector>, win: Sector, winsect: nat, dirty: bool, i: nat)
    requires Coherent(g, disk, win, winsect, dirty) && g.nFats == 2
    requires g.fatbase <= i < g.fatbase + g.fsize && !(dirty && i == winsect)
    ensures i + g.fsize < |disk| && disk[i] == disk[i + g.fsize]
  {
    hide Roomy, Uniform;
    InFatMeans(g, winsect);
    var v := View(g, disk, win, winsect, dirty);
    var a, b := v[g.fatbase..g.fatbase + g.fsize], v[g.fatbase + g.fsize..g.fatbase + 2 * g.fsize];
    assert a[i - g.fatbase] == b[i - g.fatbase];
    assert v[i] == v[i + g.fsize];
    assert !dirty || !InFat(g, winsect) ==> v[i] == disk[i] && v[i + g.fsize] == disk[i + g.fsize];
  }

  /** A FAT sector of the view replaced, in both FATs if there are two. */
  ghost function InFats(g: Layout, v: seq<Sector>, q: nat, s: Sector): (u: seq<Sector>)
    requires ValidLayout(g) && |v| == g.nsect && q < g.fsize
    ensures |u| == |v|
  {
    if g.nFats == 2 then v[g.fatbase + q := s][g.fatbase + g.fsize + q := s] else v[g.fatbase + q := s]
  }

  lemma UniformSlice(v: seq<Sector>, ss: nat, i: nat, j: nat)
    requires Uniform(v, ss) && i <= j <= |v|
    ensures Uniform(v[i..j], ss)
  {
  }

  lemma InFatsBytes(g: Layout, v: seq<Sector>, q: nat, o: nat, b: seq<byte>)
    requires ValidLayout(g) && |v| == g.nsect && Uniform(v, g.ss) && q < g.fsize && o + |b| <= g.ss
    ensures var u := InFats(g, v, q, Overwrite(v[g.fatbase + q], o, b));
      && q * g.ss + o + |b| <= |FatBytes(g, v)|
      && FatBytes(g, u) == Overwrite(FatBytes(g, v), q * g.ss + o, b)
  {
    hide Roomy;
    var s := Overwrite(v[g.fatbase + q], o, b);
    var a := v[g.fatbase..g.fatbase + g.fsize];
    assert InFats(g, v, q, s)[g.fatbase..g.fatbase + g.fsize] == a[q := s];
    UniformSlice(v, g.ss, g.fatbase, g.fatbase + g.fsize);
    FlatStore(a, g.ss, q, o, b);
  }

  lemma InFatsAgree(g: Layout, v: seq<Sector>, q: nat, s: Sector)
    requires ValidLayout(g) && |v| == g.nsect && q < g.fsize && FatsAgree(g, v)
    ensures FatsAgree(g, InFats(g, v, q, s))
  {
    hide Roomy;
    if g.nFats == 2 {
      var a := v[g.fatbase..g.fatbase + g.fsize];
      var u := InFats(g, v, q, s);
      assert u[g.fatbase..g.fatbase + g.fsize] == a[q := s];
      assert u[g.fatbase + g.fsize..g.fatbase + 2 * g.fsize] == a[q := s];
    }
  }

  lemma StoredView(g: Layout, disk: seq<Sector>, win: Sector, winsect: nat, dirty: bool, win': Sector)
    requires Coherent(g, disk, win, winsect, dirty) && g.fatbase <= winsect < g.fatbase + g.fsize && |win'| == g.ss
    ensures View(g, disk, win', winsect, true) ==
      InFats(g, View(g, disk, win, winsect, dirty), winsect - g.fatbase, win')
  {
    hide Roomy, FatsAgree, Uniform;
    InFatMeans(g, winsect);
  }

  lemma ViewUniform(g: Layout, disk: seq<Sector>, win: Sector, winsect: nat, dirty: bool)
    requires Coherent(g, disk, win, winsect, dirty)
    ensures Uniform(View(g, disk, win, winsect, dirty), g.ss) && View(g, disk, win, winsect, dirty)[winsect] == win
  {
  }

  /** Changing bytes of the window while it shows a FAT sector changes those bytes of the FAT. */
  lemma Stored(g: Layout, disk: seq<Sector>, win: Sector, winsect: nat, dirty: bool, o: nat, b: seq<byte>)
    requires Coherent(g, disk, win, winsect, dirty) && g.fatbase <= winsect < g.fatbase + g.fsize && o + |b| <= g.ss
    ensures var v, win' := View(g, disk, win, winsect, dirty), Overwrite(win, o, b);
      var v' := View(g, disk, win', winsect, true);
      var k := (winsect - g.fatbase) * g.ss + o;
      && Coherent(g, disk, win', winsect, true)
      && SameOutside(g, v, v')
      && k + |b| <= |FatBytes(g, v)|
      && FatBytes(g, v') == Overwrite(FatBytes(g, v), k, b)
  {
    hide Roomy, FatsAgree, Uniform, View, FatBytes;
    var v, win' := View(g, disk, win, winsect, dirty), Overwrite(win, o, b);
    ViewUniform(g, disk, win, winsect, dirty);
    StoredView(g, disk, win, winsect, dirty, win');
    InFatsAgree(g, v, winsect - g.fatbase, win');
    InFatsBytes(g, v, winsect - g.fatbase, o, b);
  }

  // ----- Data sectors -----

  /** Sectors of the data area, which the window does not show. */
  ghost predicate DataRun(g: Layout, winsect: nat, d: nat, n: nat) {
    FatEnd(g) <= d && d + n <= g.nsect && !(d <= winsect < d + n)
  }

  lemma DataRead(g: Layout, disk: seq<Sector>, win: Sector, winsect: nat, dirty: bool, d: nat, n: nat)
    requires Coherent(g, disk, win, winsect, dirty) && DataRun(g, winsect, d, n)
    ensures disk[d..d + n] == View(g, disk, win, winsect, dirty)[d..d + n]
  {
    hide Roomy, FatsAgree, Uniform;
    InFatMeans(g, winsect);
  }

  lemma DataView(g: Layout, disk: seq<Sector>, win: Sector, winsect: nat, dirty: bool, d: nat, e: seq<Sector>)
    requires Coherent(g, disk, win, winsect, dirty) && DataRun(g, winsect, d, |e|)
    ensures View(g, Splice(disk, d, e), win, winsect, dirty) == Splice(View(g, disk, win, winsect, dirty), d, e)
  {
    hide Roomy, FatsAgree, Uniform;
    InFatMeans(g, winsect);
  }

  /** Data sectors are not in the FATs. */
  lemma DataNotFat(g: Layout, v: seq<Sector>, d: nat, e: seq<Sector>)
    requires ValidLayout(g) && |v| == g.nsect && FatEnd(g) <= d && d + |e| <= g.nsect
    ensures FatBytes(g, Splice(v, d, e)) == FatBytes(g, v) && (FatsAgree(g, v) ==> FatsAgree(g, Splice(v, d, e)))
  {
    hide Roomy, Flat;
    var u := Splice(v, d, e);
    assert u[g.fatbase..g.fatbase + g.fsize] == v[g.fatbase..g.fatbase + g.fsize];
    if g.nFats == 2 {
      assert u[g.fatbase + g.fsize..g.fatbase + 2 * g.fsize] == v[g.fatbase + g.fsize..g.fatbase + 2 * g.fsize];
    }
  }

  lemma DataWritten(g: Layout, disk: seq<Sector>, win: Sector, winsect: nat, dirty: bool, d: nat, e: seq<Sector>)
    requires Coherent(g, disk, win, winsect, dirty) && DataRun(g, winsect, d, |e|) && Uniform(e, g.ss)
    ensures Coherent(g, Splice(disk, d, e), win, winsect, dirty)
    ensures var v, u := View(g, disk, win, winsect, dirty), View(g, Splice(disk, d, e), win, winsect, dirty);
      u == Splice(v, d, e) && FatBytes(g, u) == FatBytes(g, v)
  {
    hide Roomy, FatsAgree, FatBytes, View;
    DataView(g, disk, win, winsect, dirty, d, e);
    DataNotFat(g, View(g, disk, win, winsect, dirty), d, e);
  }

  // ----- Positions of entries -----

  lemma EntryFits(g: Layout, c: nat)
    requires ValidLayout(g) && c < g.nFatent
    ensures Base(g.ty, c) + Span(g.ty) <= g.fsize * g.ss
  {
  }

  lemma SectorOf(g: Layout, k: nat)
    requires ValidLayout(g) && k < g.fsize * g.ss
    ensures k / g.ss < g.fsize && k == k / g.ss * g.ss + k % g.ss
  {
  }

  /** A word of w bytes at a multiple of w does not straddle sectors. */
  lemma Aligned(g: Layout, c: nat, w: nat)
    requires ValidLayout(g) && (w == 2 || w == 4)
    ensures c / (g.ss / w) == w * c / g.ss
    ensures w * c % g.ss + w <= g.ss
  {
    hide Roomy;
    var m := g.ss / w;
    assert g.ss == w * m;
    var q, r := c / m, c % m;
    assert c == m * q + r;
    assert w * c == g.ss * q + w * r by {
      assert w * (m * q) == (w * m) * q;
    }
    Split(w * c, g.ss, q, w * r);
  }

  lemma FatBytesLength(g: Layout, v: seq<Sector>)
    requires ValidLayout(g) && |v| == g.nsect && Uniform(v, g.ss)
    ensures |FatBytes(g, v)| == g.fsize * g.ss
  {
    FlatLength(v[g.fatbase..g.fatbase + g.fsize], g.ss);
  }

  /** A byte of the FAT is found in its sector. */
  lemma FatByte(g: Layout, v: seq<Sector>, k: nat)
    requires ValidLayout(g) && |v| == g.nsect && Uniform(v, g.ss) && k < g.fsize * g.ss
    ensures |FatBytes(g, v)| == g.fsize * g.ss
    ensures k / g.ss < g.fsize && FatBytes(g, v)[k] == v[g.fatbase + k / g.ss][k % g.ss]
  {
    hide Roomy;
    FatBytesLength(g, v);
    SectorOf(g, k);
    UniformSlice(v, g.ss, g.fatbase, g.fatbase + g.fsize);
    FlatAt(v[g.fatbase..g.fatbase + g.fsize], g.ss, k / g.ss, k % g.ss);
  }

  // ----- The volume -----

  lemma CoherentFacts(g: Layout, disk: seq<Sector>, win: Sector, winsect: nat, dirty: bool)
    requires Coherent(g, disk, win, winsect, dirty)
    ensures ValidLayout(g) && |disk| == g.nsect && |win| == g.ss && winsect < g.nsect
    ensures 512 <= g.ss && g.ss % 4 == 0 && FatEnd(g) <= g.database <= g.nsect && 2 < g.nFatent
  {
  }

  class Volume {
    const g: Layout
    var lastClst: nat
    var freeClst: nat
    var fsiDirty: bool
    var wflag: bool
    var winsect: nat
    const win: array<byte>
    var disk: seq<Sector>

    /** A volume just mounted, with the window on some sector of the drive. */
    constructor (g: Layout, disk: seq<Sector>, sect: nat)
      requires ValidLayout(g) && |disk| == g.nsect && Uniform(disk, g.ss) && sect < g.nsect
      requires FatsAgree(g, disk)
      ensures Valid() && this.g == g && Sight() == disk && winsect == sect && fresh(win)
      ensures lastClst == freeClst == 0xFFFF_FFFF
    {
      this.g := g;
      lastClst, freeClst, fsiDirty := 0xFFFF_FFFF, 0xFFFF_FFFF, false;
      wflag, winsect := false, sect;
      this.disk := disk;
      var d := disk[sect];
      win := new byte[g.ss](i requires 0 <= i < |d| => d[i]);
      new;
      assert win[..] == disk[sect];
      assert disk[sect := disk[sect]] == disk;
    }

    ghost predicate Valid()
      reads this, win
    {
      win.Length == g.ss && Coherent(g, disk, win[..], winsect, wflag)
    }

    lemma Facts()
      requires Valid()
      ensures ValidLayout(g) && 0 < g.csize && 512 <= g.ss && 2 < g.nFatent
      ensures |disk| == g.nsect && winsect < g.nsect && g.fatbase + g.fsize <= FatEnd(g) <= g.database <= g.nsect
    {
    }

    /** The drive as the rest of the file system sees it. */
    ghost function Sight(): (v: seq<Sector>)
      requires Valid()
      reads this, win
      ensures |v| == g.nsect && Uniform(v, g.ss)
    {
      ViewUniform(g, disk, win[..], winsect, wflag);
      View(g, disk, win[..], winsect, wflag)
    }

    /** The FAT as bytes. */
    ghost function Fat(): (f: seq<byte>)
      requires Valid()
      reads this, win
      ensures |f| == g.fsize * g.ss
    {
      FatBytesLength(g, Sight());
      FatBytes(g, Sight())
    }

    /** The FAT as entries. */
    ghost function Table(): (t: seq<nat>)
      requires Valid()
      reads this, win
      ensures |t| == g.nFatent
    {
      EntryFits(g, g.nFatent - 1);
      TableOf(g.ty, Fat(), g.nFatent)
    }

    /** sync_window: afterwards the drive itself shows what everyone sees. */
    method SyncWindow()
      requires Valid()
      modifies `disk, `wflag
      ensures Valid() && Sight() == old(Sight()) && !wflag && disk == Sight()
      ensures old(!wflag) ==> disk == old(disk)
    {
      hide Roomy, FatsAgree, Uniform;
      if wflag {
        Flushed(g, disk, win[..], winsect);
        disk := disk[winsect := win[..]];
        wflag := false;
        InFatMeans(g, winsect);
        if InFat(g, winsect) {
          if g.nFats == 2 {
            disk := disk[winsect + g.fsize := win[..]];
          }
        }
      } else {
        assert disk[winsect := win[..]] == disk;
      }
    }

    /** move_window: shows another sector; what everyone sees does not change. */
    method MoveWindow(sect: nat)
      requires Valid() && sect < g.nsect
      modifies `disk, `wflag, `winsect, win
      ensures Valid() && Sight() == old(Sight())
      ensures winsect == sect && win[..] == Sight()[sect]
    {
      hide Roomy, FatsAgree, Uniform;
      if sect != winsect {
        SyncWindow();
        Moved(g, disk, win[..], winsect, sect);
        var d := disk[sect];
        forall i | 0 <= i < win.Length {
          win[i] := d[i];
        }
        assert win[..] == d;
        winsect := sect;
      }
    }

    /** disk_read of data sectors. */
    method DiskRead(d: nat, n: nat) returns (e: seq<Sector>)
      requires Valid() && DataRun(g, winsect, d, n)
      ensures e == Sight()[d..d + n] && Uniform(e, g.ss)
    {
      DataRead(g, disk, win[..], winsect, wflag, d, n);
      e := disk[d..d + n];
    }

    /** disk_write of data sectors. */
    method DiskWrite(d: nat, e: seq<Sector>)
      requires Valid() && DataRun(g, winsect, d, |e|) && Uniform(e, g.ss)
      modifies `disk
      ensures Valid() && Sight() == Splice(old(Sight()), d, e) && Table() == old(Table())
    {
      hide Roomy, FatsAgree, Splice, View, FatBytes, Uniform;
      DataWritten(g, disk, win[..], winsect, wflag, d, e);
      disk := Splice(disk, d, e);
    }

    /** Some bytes of the FAT sector in the window are changed. */
    method StoreBytes(o: nat, b: seq<byte>)
      requires Valid() && g.fatbase <= winsect < g.fatbase + g.fsize && o + |b| <= g.ss
      modifies `wflag, win
      ensures Valid() && wflag
      ensures SameOutside(g, old(Sight()), Sight())
      ensures (winsect - g.fatbase) * g.ss + o + |b| <= |old(Fat())|
      ensures Fat() == Overwrite(old(Fat()), (winsect - g.fatbase) * g.ss + o, b)
    {
      hide Coherent, ValidLayout, FatsAgree, Uniform, View, FatBytes, SameOutside;
      CoherentFacts(g, disk, win[..], winsect, wflag);
      Stored(g, disk, win[..], winsect, wflag, o, b);
      forall i | 0 <= i < |b| {
        win[o + i] := b[i];
      }
      wflag := true;
      assert win[..] == Overwrite(old(win[..]), o, b);
    }

    /** get_fat: the value of an entry; 1 when the cluster number is out of range. */
    method GetFat(clst: nat) returns (val: nat)
      requires Valid()
      modifies `disk, `wflag, `winsect, win
      ensures Valid() && Sight() == old(Sight())
      ensures winsect == old(winsect) || g.fatbase <= winsect < g.fatbase + g.fsize
      ensures val == if clst < 2 || clst >= g.nFatent then 1 else Table()[clst]
    {
      hide Coherent, ValidLayout, FatsAgree, Uniform, View, FatBytes, Word16, Word32;
      CoherentFacts(g, disk, win[..], winsect, wflag);
      if clst < 2 || clst >= g.nFatent {
        return 1;
      }
      EntryFits(g, clst);
      match g.ty {
        case FAT12 =>
          val := ReadEntry12(clst);
        case FAT16 =>
          val := ReadWord16(clst);
        case FAT32 =>
          val := ReadWord32(clst);
          val := val % 0x1000_0000;
      }
    }

    method ReadEntry12(clst: nat) returns (val: nat)
      requires Valid() && Base(FAT12, clst) + 2 <= g.fsize * g.ss
      modifies `disk, `wflag, `winsect, win
      ensures Valid() && Sight() == old(Sight())
      ensures g.fatbase <= winsect < g.fatbase + g.fsize
      ensures val == Get(FAT12, Fat(), clst)
    {
      hide Coherent, ValidLayout, FatsAgree, Uniform, View, FatBytes;
      var bc := clst;
      bc := bc + bc / 2;
      var lo := ReadByte(bc);
      bc := bc + 1;
      var hi := ReadByte(bc);
      var wc: nat := lo as int + 0x100 * (hi as int);
      val := if clst % 2 == 1 then wc / 16 else wc % 0x1000;
    }

    /** One byte of the FAT, through the window. */
    method ReadByte(bc: nat) returns (b: byte)
      requires Valid() && bc < g.fsize * g.ss
      modifies `disk, `wflag, `winsect, win
      ensures Valid() && Sight() == old(Sight())
      ensures winsect == g.fatbase + bc / g.ss < g.fatbase + g.fsize
      ensures b == Fat()[bc]
    {
      hide Coherent, ValidLayout, FatsAgree, Uniform, View, FatBytes;
      CoherentFacts(g, disk, win[..], winsect, wflag);
      FatByte(g, Sight(), bc);
      MoveWindow(g.fatbase + bc / g.ss);
      b := win[bc % g.ss];
    }

    method ReadWord16(c: nat) returns (w: nat)
      requires Valid() && 2 * c + 2 <= g.fsize * g.ss
      modifies `disk, `wflag, `winsect, win
      ensures Valid() && Sight() == old(Sight())
      ensures g.fatbase <= winsect < g.fatbase + g.fsize
      ensures w == Word16(Fat(), 2 * c)
    {
      hide Coherent, ValidLayout, FatsAgree, Uniform, View, FatBytes, Word16, Word32;
      CoherentFacts(g, disk, win[..], winsect, wflag);
      Aligned(g, c, 2);
      FatWindow(g, Sight(), 2 * c, 2);
      MoveWindow(g.fatbase + c / (g.ss / 2));
      w := Word16(win[..], 2 * c % g.ss);
      SameWord(Fat(), 2 * c, win[..], 2 * c % g.ss, 2);
    }

    method ReadWord32(c: nat) returns (w: nat)
      requires Valid() && 4 * c + 4 <= g.fsize * g.ss
      modifies `disk, `wflag, `winsect, win
      ensures Valid() && Sight() == old(Sight())
      ensures winsect == g.fatbase + 4 * c / g.ss < g.fatbase + g.fsize
      ensures w == Word32(Fat(), 4 * c) && 4 * c % g.ss + 4 <= g.ss && w == Word32(win[..], 4 * c % g.ss)
    {
      hide Coherent, ValidLayout, FatsAgree, Uniform, View, FatBytes, Word16, Word32;
      CoherentFacts(g, disk, win[..], winsect, wflag);
      Aligned(g, c, 4);
      FatWindow(g, Sight(), 4 * c, 4);
      MoveWindow(g.fatbase + c / (g.ss / 4));
      w := Word32(win[..], 4 * c % g.ss);
      SameWord(Fat(), 4 * c, win[..], 4 * c % g.ss, 4);
    }

    /** The n bytes of the FAT from k on are stored, when the window shows their sector. */
    method StoreAt(k: nat, b: seq<byte>)
      requires Valid() && k + |b| <= g.fsize * g.ss && winsect == g.fatbase + k / g.ss && k % g.ss + |b| <= g.ss
      requires k < g.fsize * g.ss
      modifies `wflag, win
      ensures Valid() && SameOutside(g, old(Sight()), Sight())
      ensures Fat() == Overwrite(old(Fat()), k, b)
    {
      hide Coherent, FatsAgree, Uniform, View, FatBytes, SameOutside, Roomy, Overwrite;
      CoherentFacts(g, disk, win[..], winsect, wflag);
      SectorOf(g, k);
      StoreBytes(k % g.ss, b);
    }

    /** put_fat: sets an entry; other entries and everything outside the FATs stay. */
    method PutFat(clst: nat, val: nat) returns (ok: bool)
      requires Valid()
      modifies `disk, `wflag, `winsect, win
      ensures Valid() && ok == (2 <= clst < g.nFatent)
      ensures !ok ==> Sight() == old(Sight()) && winsect == old(winsect)
      ensures ok ==> SameOutside(g, old(Sight()), Sight()) && g.fatbase <= winsect < g.fatbase + g.fsize
      ensures ok ==> Table() == old(Table())[clst := val % Range(g.ty)]
    {
      hide Coherent, ValidLayout, FatsAgree, Uniform, View, FatBytes, Put, TableOf, SameOutside;
      CoherentFacts(g, disk, win[..], winsect, wflag);
      if clst < 2 || clst >= g.nFatent {
        return false;
      }
      EntryFits(g, clst);
      EntryFits(g, g.nFatent - 1);
      PutEntry(clst, val);
      TablePut(g.ty, old(Fat()), g.nFatent, clst, val);
      return true;
    }

    method PutEntry(clst: nat, val: nat)
      requires Valid() && Base(g.ty, clst) + Span(g.ty) <= g.fsize * g.ss
      modifies `disk, `wflag, `winsect, win
      ensures Valid() && SameOutside(g, old(Sight()), Sight()) && g.fatbase <= winsect < g.fatbase + g.fsize
      ensures Holds(g.ty, old(Fat()), clst) && Fat() == Put(g.ty, old(Fat()), clst, val)
    {
      hide Coherent, ValidLayout, FatsAgree, Uniform, View, FatBytes, Put, SameOutside;
      match g.ty {
        case FAT12 => PutEntry12(clst, val);
        case FAT16 => PutEntry16(clst, val);
        case FAT32 => PutEntry32(clst, val);
      }
    }

    method PutEntry16(clst: nat, val: nat)
      requires Valid() && 2 * clst + 2 <= g.fsize * g.ss
      modifies `disk, `wflag, `winsect, win
      ensures Valid() && SameOutside(g, old(Sight()), Sight()) && g.fatbase <= winsect < g.fatbase + g.fsize
      ensures Holds(FAT16, old(Fat()), clst) && Fat() == Put(FAT16, old(Fat()), clst, val)
    {
      hide Coherent, ValidLayout, FatsAgree, Uniform, View, FatBytes, Overwrite, SameOutside, Le;
      CoherentFacts(g, disk, win[..], winsect, wflag);
      Aligned(g, clst, 2);
      WholeWord(g, 2 * clst, 2);
      MoveWindow(g.fatbase + clst / (g.ss / 2));
      StoreAt(2 * clst, Le(val, 2));
    }

    method PutEntry32(clst: nat, val: nat)
      requires Valid() && 4 * clst + 4 <= g.fsize * g.ss
      modifies `disk, `wflag, `winsect, win
      ensures Valid() && SameOutside(g, old(Sight()), Sight()) && g.fatbase <= winsect < g.fatbase + g.fsize
      ensures Holds(FAT32, old(Fat()), clst) && Fat() == Put(FAT32, old(Fat()), clst, val)
    {
      hide Coherent, ValidLayout, FatsAgree, Uniform, View, FatBytes, Overwrite, SameOutside, Le, Merge32;
      CoherentFacts(g, disk, win[..], winsect, wflag);
      var w := ReadWord32(clst);
      StoreAt(4 * clst, Le(Merge32(w, val), 4));
    }

    /** The two bytes of a FAT12 entry may lie in different sectors. */
    method PutEntry12(clst: nat, val: nat)
      requires Valid() && Base(FAT12, clst) + 2 <= g.fsize * g.ss
      modifies `disk, `wflag, `winsect, win
      ensures Valid() && SameOutside(g, old(Sight()), Sight()) && g.fatbase <= winsect < g.fatbase + g.fsize
      ensures Holds(FAT12, old(Fat()), clst) && Fat() == Put(FAT12, old(Fat()), clst, val)
    {
      hide Coherent, ValidLayout, FatsAgree, Uniform, View, FatBytes, Low12, High12, Put;
      CoherentFacts(g, disk, win[..], winsect, wflag);
      ghost var f := Fat();
      var bc := clst;
      bc := bc + bc / 2;
      var p := ReadByte(bc);
      StoreAt(bc, [Low12(clst, p, val)]);
      bc := bc + 1;
      p := ReadByte(bc);
      StoreAt(bc, [High12(clst, p, val)]);
      TwoBytes(f, clst, val);
    }
  }

  lemma TwoBytes(f: seq<byte>, c: nat, v: nat)
    requires Holds(FAT12, f, c)
    ensures var i := Base(FAT12, c);
      var f1 := Overwrite(f, i, [Low12(c, f[i], v)]);
      f1[i + 1] == f[i + 1] && Overwrite(f1, i + 1, [High12(c, f[i + 1], v)]) == Put(FAT12, f, c, v)
  {
    hide Low12, High12;
  }

  lemma WholeWord(g: Layout, k: nat, w: nat)
    requires ValidLayout(g) && k + w <= g.fsize * g.ss && w > 0
    ensures k / g.ss < g.fsize && g.fatbase + k / g.ss < g.nsect
  {
    SectorOf(g, k);
  }

  /** The n bytes of the FAT from k on, when they lie in one sector. */
  lemma FatWindow(g: Layout, v: seq<Sector>, k: nat, n: nat)
    requires ValidLayout(g) && |v| == g.nsect && Uniform(v, g.ss)
    requires k + n <= g.fsize * g.ss && k % g.ss + n <= g.ss && n > 0
    ensures |FatBytes(g, v)| == g.fsize * g.ss && k / g.ss < g.fsize
    ensures FatBytes(g, v)[k..k + n] == v[g.fatbase + k / g.ss][k % g.ss..k % g.ss + n]
  {
    hide Roomy;
    var f, q := v[g.fatbase..g.fatbase + g.fsize], k / g.ss;
    FatBytesLength(g, v);
    SectorOf(g, k);
    UniformSlice(v, g.ss, g.fatbase, g.fatbase + g.fsize);
    FlatSector(f, g.ss, q);
    SliceSlice(Flat(f), q * g.ss, q * g.ss + g.ss, k % g.ss, k % g.ss + n);
  }
}
