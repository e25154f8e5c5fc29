/** The boot sector f_mkfs writes for a FAT12/16/32 volume, and what mounting makes of it. */
module FatFormat {
  import opened Bytes
  import opened FatEntry
  import opened FatVolume
  import opened Sectors
  import opened FatGeometry

  // ----- The boot sector -----

  const SIGNATURE: nat := 0xAA55
  const OEM_NAME: seq<byte> := [77, 83, 68, 79, 83, 53, 46, 48]
  const FAT32_NAME: seq<byte> := [70, 65, 84, 51, 50, 32, 32, 32]

  /** What the sector says: all that mounting looks at, and where else the volume has something. */
  ghost predicate BootSector(b: seq<byte>, g: Geometry, szVol: nat, ss: nat, nFat: nat, nRoot: nat) {
    && |b| == ss && SectorSize(ss)
    && b[0] == 0xEB && b[1] == 0xFE && b[3..11] == [77, 83, 68, 79, 83, 53, 46, 48] && Word16(b, 510) == 0xAA55
    && Word16(b, 11) == ss && b[13] as int == g.pau && Word16(b, 14) == g.szRsv && b[16] as int == nFat
    && Word16(b, 17) == (if g.ty == FAT32 then 0 else nRoot)
    && Word16(b, 19) == (if szVol < 0x1_0000 then szVol else 0)
    && (szVol >= 0x1_0000 ==> Word32(b, 32) == szVol)
    && Word16(b, 22) == (if g.ty == FAT32 then 0 else g.szFat)
    && (g.ty == FAT32 ==> Tail32(b, g.szFat))
  }

  /** The fields only FAT32 has: size of a FAT, version, root directory, FSINFO sector, backup sector and name. */
  ghost predicate Tail32(b: seq<byte>, szFat: nat) {
    && |b| >= 90 && Word32(b, 36) == szFat && Word16(b, 42) == 0 && Word32(b, 44) == 2
    && Word16(b, 48) == 1 && Word16(b, 50) == 6 && b[82..90] == [70, 65, 84, 51, 50, 32, 32, 32]
  }

  /** The fields nothing here reads: for int13 the media, the disk geometry and where the volume begins. */
  ghost predicate Disk(b: seq<byte>, bVol: nat) {
    |b| >= 36 && b[21] == 0xF8 && Word16(b, 24) == 63 && Word16(b, 26) == 255 && Word32(b, 28) == bVol
  }

  /** Drive number, signature and serial number at t, and behind them the volume label and the name of the kind. */
  ghost predicate Label(b: seq<byte>, t: nat, vsn: nat, name: seq<byte>) {
    && t + 26 <= |b| && b[t] == 0x80 && b[t + 2] == 0x29 && Word32(b, t + 3) == vsn
    && b[t + 7..t + 18] == [78, 79, 32, 78, 65, 77, 69, 32, 32, 32, 32] && b[t + 18..t + 26] == name
  }

  /** What the sector says besides, at the places of its kind of volume. */
  ghost predicate Labelled(b: seq<byte>, ty: FsType, bVol: nat, vsn: nat) {
    && Disk(b, bVol) && b[2] == 0x90
    && (ty == FAT32 ==> Label(b, 64, vsn, [70, 65, 84, 51, 50, 32, 32, 32]))
    && (ty != FAT32 ==> Label(b, 36, vsn, [70, 65, 84, 32, 32, 32, 32, 32]))
  }

  method StByte(buf: array<byte>, p: nat, v: nat)
    requires p < buf.Length && v < 256
    modifies buf
    ensures buf[p] as int == v && forall i :: 0 <= i < buf.Length && i != p ==> buf[i] == old(buf[i])
  {
    buf[p] := v;
  }

  method StWord(buf: array<byte>, p: nat, v: nat)
    requires p + 2 <= buf.Length && v < 0x1_0000
    modifies buf
    ensures buf[p] as int == v % 256 && buf[p + 1] as int == v / 256
    ensures forall i :: 0 <= i < buf.Length && !(p <= i < p + 2) ==> buf[i] == old(buf[i])
  {
    buf[p] := v % 256;
    buf[p + 1] := v / 256;
  }

  method StDword(buf: array<byte>, p: nat, v: nat)
    requires p + 4 <= buf.Length && v < DWORD
    modifies buf
    ensures buf[p] as int == v % 256 && buf[p + 1] as int == v / 0x100 % 256
    ensures buf[p + 2] as int == v / 0x1_0000 % 256 && buf[p + 3] as int == v / 0x100_0000
    ensures forall i :: 0 <= i < buf.Length && !(p <= i < p + 4) ==> buf[i] == old(buf[i])
  {
    buf[p] := v % 256;
    buf[p + 1] := v / 0x100 % 256;
    buf[p + 2] := v / 0x1_0000 % 256;
    buf[p + 3] := v / 0x100_0000;
  }

  lemma Bytes16(v: nat)
    requires v < 0x1_0000
    ensures v % 256 + 0x100 * (v / 256) == v
  {
  }

  lemma Bytes32(v: nat)
    requires v < DWORD
    ensures v % 256 + 0x100 * (v / 0x100 % 256) + 0x1_0000 * (v / 0x1_0000 % 256) + 0x100_0000 * (v / 0x100_0000) == v
    ensures v / 0x100_0000 < 256
  {
    var v1, v2, v3 := v / 0x100, v / 0x1_0000, v / 0x100_0000;
    assert v2 == v1 / 0x100 && v3 == v2 / 0x100;
  }

  method StBytes(buf: array<byte>, p: nat, t: seq<byte>)
    requires p + |t| <= buf.Length
    modifies buf
    ensures buf[p..p + |t|] == t
    ensures forall i :: 0 <= i < buf.Length && !(p <= i < p + |t|) ==> buf[i] == old(buf[i])
  {
    forall i | 0 <= i < |t| {
      buf[p + i] := t[i];
    }
  }

  /** The fields all FAT volumes have. */
  method WriteCommon(buf: array<byte>, g: Geometry, szVol: nat, ss: nat, nFat: nat, nRoot: nat, bVol: nat)
    requires buf.Length == ss && Suits(g, szVol, ss, nFat, nRoot) && 128 <= szVol < DWORD && (nFat == 1 || nFat == 2) &&
      0 < nRoot <= 32768
    requires bVol < DWORD
    modifies buf
    ensures Common(buf[..], g, szVol, ss, nFat, nRoot) && Disk(buf[..], bVol) && buf[2] == 0x90
    ensures forall i :: 36 <= i < ss ==> buf[i] == 0
    ensures buf[22] == 0 && buf[23] == 0
  {
    hide Overhead, SubType, FatSize, Ceil, Common, Start, Suits;
    SuitsFacts(g, szVol, ss, nFat, nRoot);
    forall i | 0 <= i < buf.Length {
      buf[i] := 0;
    }
    WriteStart(buf, ss, g.pau, g.szRsv, nFat, if g.ty == FAT32 then 0 else nRoot);
    ghost var first := buf[..];
    WriteSize(buf, szVol, bVol);
    StartKept(first, buf[..], ss, g.pau, g.szRsv, nFat, if g.ty == FAT32 then 0 else nRoot);
    CommonFrom(buf[..], g, szVol, ss, nFat, nRoot);
  }

  lemma SuitsFacts(g: Geometry, szVol: nat, ss: nat, nFat: nat, nRoot: nat)
    requires Suits(g, szVol, ss, nFat, nRoot)
    ensures SectorSize(ss) && 0 < g.pau <= 128 && g.szRsv == (if g.ty == FAT32 then 32 else 1)
    ensures 0 < g.szFat < DWORD && (g.ty != FAT32 ==> g.szFat < 0x1_0000)
  {
  }

  /** Bytes 0 to 18. */
  ghost predicate Start(b: seq<byte>, ss: nat, pau: nat, rsv: nat, nFat: nat, root: nat) {
    && |b| >= 512 && b[0] == 0xEB && b[1] == 0xFE && b[3..11] == OEM_NAME
    && Word16(b, 11) == ss && b[13] as int == pau && Word16(b, 14) == rsv && b[16] as int == nFat
    && Word16(b, 17) == root
  }

  lemma StartKept(b: seq<byte>, c: seq<byte>, ss: nat, pau: nat, rsv: nat, nFat: nat, root: nat)
    requires Start(b, ss, pau, rsv, nFat, root) && |c| == |b| && forall i :: 0 <= i < 19 ==> c[i] == b[i]
    ensures Start(c, ss, pau, rsv, nFat, root)
  {
    assert c[3..11] == b[3..11];
  }

  lemma CommonFrom(b: seq<byte>, g: Geometry, szVol: nat, ss: nat, nFat: nat, nRoot: nat)
    requires |b| == ss && SectorSize(ss) && Start(b, ss, g.pau, g.szRsv, nFat, if g.ty == FAT32 then 0 else nRoot)
    requires Word16(b, 19) == (if szVol < 0x1_0000 then szVol else 0) && (szVol >= 0x1_0000 ==> Word32(b, 32) == szVol)
    ensures Common(b, g, szVol, ss, nFat, nRoot)
  {
  }

  method WriteStart(buf: array<byte>, ss: nat, pau: nat, rsv: nat, nFat: nat, root: nat)
    requires buf.Length >= 512 && ss < 0x1_0000 && pau < 256 && rsv < 0x1_0000 && nFat < 256 && root < 0x1_0000
    modifies buf
    ensures Start(buf[..], ss, pau, rsv, nFat, root) && buf[2] == 0x90
    ensures forall i :: 19 <= i < buf.Length ==> buf[i] == old(buf[i])
  {
    Bytes16(ss);
    Bytes16(rsv);
    Bytes16(root);
    StByte(buf, 0, 0xEB);
    StByte(buf, 1, 0xFE);
    StByte(buf, 2, 0x90);
    StBytes(buf, 3, OEM_NAME);
    StWord(buf, 11, ss);
    StByte(buf, 13, pau);
    StWord(buf, 14, rsv);
    StByte(buf, 16, nFat);
    StWord(buf, 17, root);
    assert buf[3..11] == OEM_NAME;
  }

  method WriteSize(buf: array<byte>, szVol: nat, bVol: nat)
    requires buf.Length >= 512 && szVol < DWORD && bVol < DWORD && forall i :: 19 <= i < buf.Length ==> buf[i] == 0
    modifies buf
    ensures Word16(buf[..], 19) == (if szVol < 0x1_0000 then szVol else 0) &&
      (szVol >= 0x1_0000 ==> Word32(buf[..], 32) == szVol)
    ensures Disk(buf[..], bVol)
    ensures forall i :: 0 <= i < 19 ==> buf[i] == old(buf[i])
    ensures forall i :: 36 <= i < buf.Length ==> buf[i] == 0
    ensures buf[22] == 0 && buf[23] == 0
  {
    if szVol < 0x1_0000 {
      Bytes16(szVol);
      StWord(buf, 19, szVol);
    } else {
      Bytes32(szVol);
      StDword(buf, 32, szVol);
    }
    StByte(buf, 21, 0xF8);
    StWord(buf, 24, 63);
    StWord(buf, 26, 255);
    Bytes32(bVol);
    StDword(buf, 28, bVol);
  }

  ghost predicate Common(b: seq<byte>, g: Geometry, szVol: nat, ss: nat, nFat: nat, nRoot: nat) {
    && |b| == ss && SectorSize(ss) && b[0] == 0xEB && b[1] == 0xFE && b[3..11] == OEM_NAME
    && Word16(b, 11) == ss && b[13] as int == g.pau && Word16(b, 14) == g.szRsv && b[16] as int == nFat
    && Word16(b, 17) == (if g.ty == FAT32 then 0 else nRoot)
    && Word16(b, 19) == (if szVol < 0x1_0000 then szVol else 0)
    && (szVol >= 0x1_0000 ==> Word32(b, 32) == szVol)
  }

  const NO_NAME: seq<byte> := [78, 79, 32, 78, 65, 77, 69, 32, 32, 32, 32]
  const FAT_NAME: seq<byte> := [70, 65, 84, 32, 32, 32, 32, 32]

  /** The end of either kind of tail. */
  method WriteLabel(buf: array<byte>, t: nat, vsn: nat, name: seq<byte>)
    requires t + 26 <= buf.Length && vsn < DWORD && |name| == 8
    modifies buf
    ensures Label(buf[..], t, vsn, name)
    ensures forall i :: 0 <= i < buf.Length && (i < t || i >= t + 26) ==> buf[i] == old(buf[i])
  {
    Bytes32(vsn);
    StDword(buf, t + 3, vsn);
    StByte(buf, t, 0x80);
    StByte(buf, t + 2, 0x29);
    StBytes(buf, t + 7, NO_NAME + name);
    NameAt(buf[..], t + 7, name);
  }

  lemma NameAt(b: seq<byte>, p: nat, name: seq<byte>)
    requires p + 19 <= |b| && b[p..p + 19] == NO_NAME + name && |name| == 8
    ensures b[p..p + 11] == NO_NAME && b[p + 11..p + 19] == name
  {
    SliceSlice(b, p, p + 19, 0, 11);
    SliceSlice(b, p, p + 19, 11, 19);
  }

  method WriteTail32(buf: array<byte>, szFat: nat, vsn: nat)
    requires buf.Length >= 512 && szFat < DWORD && vsn < DWORD && forall i :: 36 <= i < buf.Length ==> buf[i] == 0
    modifies buf
    ensures Tail32(buf[..], szFat) && Label(buf[..], 64, vsn, FAT32_NAME)
    ensures forall i :: 0 <= i < 36 ==> buf[i] == old(buf[i])
  {
    hide Label;
    Bytes32(szFat);
    StDword(buf, 36, szFat);
    StDword(buf, 44, 2);
    StWord(buf, 48, 1);
    StWord(buf, 50, 6);
    WriteLabel(buf, 64, vsn, FAT32_NAME);
    LabelName(buf[..], 64, vsn, FAT32_NAME);
  }

  lemma LabelName(b: seq<byte>, t: nat, vsn: nat, name: seq<byte>)
    requires Label(b, t, vsn, name)
    ensures b[t + 18..t + 26] == name
  {
  }

  method WriteTail16(buf: array<byte>, szFat: nat, vsn: nat)
    requires buf.Length >= 512 && szFat < 0x1_0000 && vsn < DWORD
    modifies buf
    ensures Word16(buf[..], 22) == szFat && Label(buf[..], 36, vsn, FAT_NAME)
    ensures forall i :: 0 <= i < 36 && i != 22 && i != 23 ==> buf[i] == old(buf[i])
  {
    hide Label;
    Bytes16(szFat);
    StWord(buf, 22, szFat);
    WriteLabel(buf, 36, vsn, FAT_NAME);
  }

  /** The boot sector f_mkfs writes. */
  method WriteBootSector(buf: array<byte>, g: Geometry, szVol: nat, ss: nat, nFat: nat, nRoot: nat, bVol: nat, vsn: nat)
    requires buf.Length == ss && Suits(g, szVol, ss, nFat, nRoot) && 128 <= szVol < DWORD && (nFat == 1 || nFat == 2) &&
      0 < nRoot <= 32768
    requires bVol < DWORD && vsn < DWORD
    modifies buf
    ensures BootSector(buf[..], g, szVol, ss, nFat, nRoot) && Labelled(buf[..], g.ty, bVol, vsn)
  {
    hide Common, Suits, BootSector, Word16, Word32, Label, Labelled, Disk;
    SuitsFacts(g, szVol, ss, nFat, nRoot);
    WriteCommon(buf, g, szVol, ss, nFat, nRoot, bVol);
    ghost var first := buf[..];
    if g.ty == FAT32 {
      WriteTail32(buf, g.szFat, vsn);
    } else {
      WriteTail16(buf, g.szFat, vsn);
    }
    ghost var second := buf[..];
    StWord(buf, 510, SIGNATURE);
    Assembled(first, second, buf[..], g, szVol, ss, nFat, nRoot);
    LabelledFrom(first, second, buf[..], g.ty, bVol, vsn);
  }

  lemma Assembled(first: seq<byte>, second: seq<byte>, b: seq<byte>, g: Geometry, szVol: nat, ss: nat, nFat: nat,
    nRoot: nat)
    requires |first| == |second| == |b| == ss && SectorSize(ss) && Common(first, g, szVol, ss, nFat, nRoot)
    requires first[22] == 0 && first[23] == 0
    requires forall i :: 0 <= i < 36 && i != 22 && i != 23 ==> second[i] == first[i]
    requires g.ty == FAT32 ==> second[22] == first[22] && second[23] == first[23]
    requires g.ty == FAT32 ==> Tail32(second, g.szFat)
    requires g.ty != FAT32 ==> Word16(second, 22) == g.szFat
    requires forall i :: 0 <= i < ss && !(510 <= i < 512) ==> b[i] == second[i]
    requires b[510] == 0x55 && b[511] == 0xAA
    ensures BootSector(b, g, szVol, ss, nFat, nRoot)
  {
    assert b[82..90] == second[82..90] && b[3..11] == second[3..11] == first[3..11];
  }

  lemma LabelledFrom(first: seq<byte>, second: seq<byte>, b: seq<byte>, ty: FsType, bVol: nat, vsn: nat)
    requires |first| == |second| == |b| >= 512 && Disk(first, bVol) && first[2] == 0x90
    requires forall i :: 0 <= i < 36 && i != 22 && i != 23 ==> second[i] == first[i]
    requires ty == FAT32 ==> Label(second, 64, vsn, FAT32_NAME)
    requires ty != FAT32 ==> Label(second, 36, vsn, FAT_NAME)
    requires forall i :: 0 <= i < |b| && !(510 <= i < 512) ==> b[i] == second[i]
    ensures Labelled(b, ty, bVol, vsn)
  {
    var t := if ty == FAT32 then 64 else 36;
    assert b[t + 7..t + 18] == second[t + 7..t + 18] && b[t + 18..t + 26] == second[t + 18..t + 26];
  }

  // ----- Mounting -----

  /** check_fs, as far as FAT volumes are concerned: 0 for a FAT boot sector, 1 for exFAT, 2 and 3 for others. */
  method CheckFs(win: seq<byte>) returns (r: nat)
    requires |win| >= 512
    ensures r == if IsExFat(win) then 1 else if IsFat(win) then 0 else if Word16(win, 510) == SIGNATURE then 2 else 3
  {
    var sign := Word16(win, 510);
    if sign == SIGNATURE && win[..11] == EXFAT_JUMP {
      return 1;
    }
    var b := win[0];
    if b == 0xEB || b == 0xE9 || b == 0xE8 {
      if sign == SIGNATURE && win[82..90] == FAT32_NAME {
        return 0;
      }
      var w := Word16(win, 11);
      b := win[13];
      if (w == 512 || w == 1024 || w == 2048 || w == 4096) && PowerOfTwo(b) && Word16(win, 14) != 0
         && (win[16] == 1 || win[16] == 2) && Word16(win, 17) != 0
         && (Word16(win, 19) >= 128 || Word32(win, 32) >= 0x1_0000) && Word16(win, 22) != 0 {
        return 0;
      }
    }
    r := if sign == SIGNATURE then 2 else 3;
  }

  const EXFAT_JUMP: seq<byte> := [0xEB, 0x76, 0x90, 69, 88, 70, 65, 84, 32, 32, 32]

  ghost predicate IsExFat(b: seq<byte>)
    requires |b| >= 512
  {
    Word16(b, 510) == 0xAA55 && b[..11] == [0xEB, 0x76, 0x90, 69, 88, 70, 65, 84, 32, 32, 32]
  }

  /** A boot sector named FAT32, or one whose fields are all plausible. */
  ghost predicate IsFat(b: seq<byte>)
    requires |b| >= 512
  {
    && (b[0] == 0xEB || b[0] == 0xE9 || b[0] == 0xE8)
    && ((Word16(b, 510) == 0xAA55 && b[82..90] == [70, 65, 84, 51, 50, 32, 32, 32]) || Plausible(b))
  }

  ghost predicate Plausible(b: seq<byte>)
    requires |b| >= 512
  {
    && SectorSize(Word16(b, 11)) && PowerOfTwo(b[13]) && Word16(b, 14) != 0 && (b[16] == 1 || b[16] == 2)
    && Word16(b, 17) != 0 && (Word16(b, 19) >= 128 || Word32(b, 32) >= 0x1_0000) && Word16(b, 22) != 0
  }

  /** What mounting found out. */
  datatype Mounted = Mounted(ty: FsType, nFats: nat, csize: nat, nFatent: nat, fsize: nat, fatbase: nat, database: nat,
    tsect: nat, dirbase: nat)

  /** The part of mount_volume that reads a FAT12/16/32 boot sector; sums are 32-bit numbers. */
  method MountVolume(win: seq<byte>, bsect: nat, ss: nat) returns (ok: bool, fs: Mounted)
    requires |win| >= 512 && SectorSize(ss) && bsect < DWORD
    ensures ok <==> Accepted(win, bsect, ss, Described(win, bsect, ss))
    ensures ok ==> fs == Described(win, bsect, ss)
  {
    hide Ceil, FatSize, SubType, Word16, Word32, PowerOfTwo, Row, Accepted;
    DescribedIf(win, bsect, ss);
    fs := Mounted(FAT12, 0, 0, 0, 0, 0, 0, 0, 0);
    if Word16(win, 11) != ss {
      return false, fs;
    }
    var fasize := Word16(win, 22);
    if fasize == 0 {
      fasize := Word32(win, 36);
    }
    var fsize := fasize;
    var nFats: nat := win[16];
    if nFats != 1 && nFats != 2 {
      return false, fs;
    }
    fasize := fasize * nFats % DWORD;
    var csize: nat := win[13];
    if !PowerOfTwo(csize) {
      return false, fs;
    }
    var nRootdir := Word16(win, 17);
    if nRootdir % (ss / 32) != 0 {
      return false, fs;
    }
    var tsect := Word16(win, 19);
    if tsect == 0 {
      tsect := Word32(win, 32);
    }
    var nrsv := Word16(win, 14);
    if nrsv == 0 {
      return false, fs;
    }
    var sysect := (nrsv + fasize + nRootdir / (ss / 32)) % DWORD;
    if tsect < sysect {
      return false, fs;
    }
    Powers(csize);
    var nclst := Row(tsect - sysect, csize);
    if nclst == 0 || nclst > MaxClusters(FAT32) {
      return false, fs;
    }
    var fmt := SubType(nclst);
    fs := Mounted(fmt, nFats, csize, nclst + 2, fsize, (bsect + nrsv) % DWORD, (bsect + sysect) % DWORD, tsect, 0);
    if fmt == FAT32 {
      if Word16(win, 42) != 0 || nRootdir != 0 {
        return false, fs;
      }
      fs := fs.(dirbase := Word32(win, 44));
    } else {
      if nRootdir == 0 {
        return false, fs;
      }
      fs := fs.(dirbase := (fs.fatbase + fasize) % DWORD);
    }
    var szbfat := FatSize(fmt, nclst + 2);
    if fsize < Ceil(szbfat, ss) {
      return false, fs;
    }
    ok := true;
  }

  /** The checks on the fields of a boot sector. */
  ghost predicate Checks(b: seq<byte>, ss: nat)
    requires |b| >= 512 && SectorSize(ss)
  {
    var fsize := if Word16(b, 22) != 0 then Word16(b, 22) else Word32(b, 36);
    var tsect := if Word16(b, 19) != 0 then Word16(b, 19) else Word32(b, 32);
    var sysect, csize: nat := SystemArea(b, fsize, ss), b[13];
    && Word16(b, 11) == ss && (b[16] == 1 || b[16] == 2) && PowerOfTwo(csize) && csize > 0
    && Word16(b, 17) % (ss / 32) == 0 && Word16(b, 14) != 0 && sysect <= tsect
    && var n := Row(tsect - sysect, csize);
       && 0 < n <= MaxClusters(FAT32)
       && (if SubType(n) == FAT32 then Word16(b, 42) == 0 && Word16(b, 17) == 0 else Word16(b, 17) != 0)
       && Ceil(FatSize(SubType(n), n + 2), ss) <= fsize
  }

  lemma DescribedIf(b: seq<byte>, bsect: nat, ss: nat)
    requires |b| >= 512 && SectorSize(ss)
    ensures Accepted(b, bsect, ss, Described(b, bsect, ss)) <==> Checks(b, ss)
  {
    hide Ceil, FatSize, SubType, Word16, Word32, PowerOfTwo, Row, SystemArea, MaxClusters;
  }

  lemma Powers(n: nat)
    ensures PowerOfTwo(n) ==> 0 < n <= 128
  {
  }

  /** Sectors of the root directory. */
  ghost function RootArea(b: seq<byte>, ss: nat): (n: nat)
    requires |b| >= 512 && SectorSize(ss)
  {
    Word16(b, 17) / (ss / 32)
  }

  /** Size of the system area in sectors, cut off at 32 bits as the code computes it. */
  ghost function SystemArea(b: seq<byte>, fsize: nat, ss: nat): nat
    requires |b| >= 512 && SectorSize(ss)
  {
    (Word16(b, 14) + fsize * (b[16] as int) % DWORD + RootArea(b, ss)) % DWORD
  }

  /** Where the root directory of a FAT12 or FAT16 volume begins: behind the FATs. */
  ghost function RootPlace(b: seq<byte>, bsect: nat, fsize: nat): nat
    requires |b| >= 512
  {
    ((bsect + Word16(b, 14)) % DWORD + fsize * (b[16] as int) % DWORD) % DWORD
  }

  /** The volume a boot sector describes, if it describes one. */
  ghost function Described(b: seq<byte>, bsect: nat, ss: nat): Mounted
    requires |b| >= 512 && SectorSize(ss)
  {
    var fsize := if Word16(b, 22) != 0 then Word16(b, 22) else Word32(b, 36);
    var tsect := if Word16(b, 19) != 0 then Word16(b, 19) else Word32(b, 32);
    var sysect, csize: nat := SystemArea(b, fsize, ss), b[13];
    var n := if sysect <= tsect && csize > 0 then Row(tsect - sysect, csize) else 0;
    Mounted(SubType(n), b[16], csize, n + 2, fsize, (bsect + Word16(b, 14)) % DWORD, (bsect + sysect) % DWORD, tsect,
      if SubType(n) == FAT32 then Word32(b, 44) else RootPlace(b, bsect, fsize))
  }

  /** The boot sector describes this volume. */
  ghost predicate Accepted(b: seq<byte>, bsect: nat, ss: nat, f: Mounted)
    requires |b| >= 512 && SectorSize(ss)
  {
    var sysect := SystemArea(b, f.fsize, ss);
    && Word16(b, 11) == ss && f.nFats == b[16] as int && (f.nFats == 1 || f.nFats == 2)
    && f.fsize == (if Word16(b, 22) != 0 then Word16(b, 22) else Word32(b, 36))
    && f.csize == b[13] as int && PowerOfTwo(f.csize)
    && Word16(b, 17) % (ss / 32) == 0 && Word16(b, 14) != 0
    && f.tsect == (if Word16(b, 19) != 0 then Word16(b, 19) else Word32(b, 32))
    && sysect <= f.tsect && f.csize > 0 && f.nFatent == Row(f.tsect - sysect, f.csize) + 2
    && 2 < f.nFatent <= MaxClusters(FAT32) + 2 && f.ty == SubType(f.nFatent - 2)
    && f.fatbase == (bsect + Word16(b, 14)) % DWORD && f.database == (bsect + sysect) % DWORD
    && f.dirbase == (if f.ty == FAT32 then Word32(b, 44) else RootPlace(b, bsect, f.fsize))
    && (if f.ty == FAT32 then Word16(b, 42) == 0 && Word16(b, 17) == 0 else Word16(b, 17) != 0)
    && Ceil(FatSize(f.ty, f.nFatent), ss) <= f.fsize
  }

  /** A boot sector describes at most one volume. */
  lemma AcceptedOnce(b: seq<byte>, bsect: nat, ss: nat, f: Mounted)
    requires |b| >= 512 && SectorSize(ss) && Accepted(b, bsect, ss, f)
    ensures f == Described(b, bsect, ss)
  {
    hide SystemArea, SubType, Ceil, FatSize, PowerOfTwo, Row, Word16, Word32;
  }

  /** The volume a geometry stands for; the root directory is in cluster 2, or between the FATs and the data. */
  ghost function Formatted(g: Geometry, szVol: nat, nFat: nat, bVol: nat): Mounted {
    Mounted(g.ty, nFat, g.pau, g.nClst + 2, g.szFat, bVol + g.szRsv, bVol + g.szRsv + g.szFat * nFat + g.szDir, szVol,
      if g.ty == FAT32 then 2 else bVol + g.szRsv + g.szFat * nFat)
  }

  lemma RootAligned(nRoot: nat, ss: nat)
    requires SectorSize(ss) && nRoot % (ss / 32) == 0
    ensures nRoot * 32 / ss == nRoot / (ss / 32)
  {
    var m := ss / 32;
    var q := nRoot / m;
    assert nRoot == m * q + nRoot % m;
    assert nRoot * 32 == ss * q;
    Split(ss * q, ss, q, 0);
  }

  lemma SystemAreaIs(b: seq<byte>, g: Geometry, szVol: nat, ss: nat, nFat: nat, nRoot: nat)
    requires |b| >= 512 && BootSector(b, g, szVol, ss, nFat, nRoot) && Suits(g, szVol, ss, nFat, nRoot)
    requires szVol < DWORD && (nFat == 1 || nFat == 2) && nRoot % (ss / 32) == 0
    ensures SystemArea(b, g.szFat, ss) == Overhead(g, nFat)
  {
    hide Word16, Word32, SubType, Ceil, FatSize;
    RootAligned(nRoot, ss);
    Split(0, ss / 32, 0, 0);
    Split(g.szFat * nFat, DWORD, 0, g.szFat * nFat);
    Split(Overhead(g, nFat), DWORD, 0, Overhead(g, nFat));
  }

  /** Mounting accepts a boot sector written for a consistent geometry, and recovers that geometry. */
  lemma FormattedIsAccepted(b: seq<byte>, g: Geometry, szVol: nat, ss: nat, nFat: nat, nRoot: nat, bVol: nat)
    requires |b| >= 512 && BootSector(b, g, szVol, ss, nFat, nRoot) && Suits(g, szVol, ss, nFat, nRoot)
    requires 128 <= szVol && bVol + szVol <= DWORD && szVol < DWORD && (nFat == 1 || nFat == 2) && 0 < nRoot <= 32768 &&
      nRoot % (ss / 32) == 0
    requires bVol + Overhead(g, nFat) < DWORD
    ensures IsFat(b) && !IsExFat(b) && Accepted(b, bVol, ss, Formatted(g, szVol, nFat, bVol))
  {
    hide Word16, Word32, SubType, Ceil, FatSize, SystemArea, Overhead, PowerOfTwo, RootPlace;
    SystemAreaIs(b, g, szVol, ss, nFat, nRoot);
    RootPlaceIs(b, g, szVol, ss, nFat, nRoot, bVol);
    Positive(g.pau);
    OverheadLarge(g, nFat);
    Split(bVol + g.szRsv, DWORD, 0, bVol + g.szRsv);
    Split(bVol + Overhead(g, nFat), DWORD, 0, bVol + Overhead(g, nFat));
    Split(0, ss / 32, 0, 0);
    NotExFat(b);
  }

  lemma OverheadLarge(g: Geometry, nFat: nat)
    ensures g.szRsv <= Overhead(g, nFat) == g.szRsv + g.szFat * nFat + g.szDir
  {
  }

  lemma RootPlaceIs(b: seq<byte>, g: Geometry, szVol: nat, ss: nat, nFat: nat, nRoot: nat, bVol: nat)
    requires |b| >= 512 && BootSector(b, g, szVol, ss, nFat, nRoot) && bVol + Overhead(g, nFat) < DWORD
    ensures RootPlace(b, bVol, g.szFat) == bVol + g.szRsv + g.szFat * nFat
  {
    hide Word16, Word32, Tail32;
    Split(g.szFat * nFat, DWORD, 0, g.szFat * nFat);
    Split(bVol + g.szRsv, DWORD, 0, bVol + g.szRsv);
    Split(bVol + g.szRsv + g.szFat * nFat, DWORD, 0, bVol + g.szRsv + g.szFat * nFat);
  }

  lemma NotExFat(b: seq<byte>)
    requires |b| >= 512 && b[1] == 0xFE
    ensures b[..11] != EXFAT_JUMP
  {
    assert b[..11][1] == 0xFE;
  }

  /**
   * Formatting and mounting: whenever the format succeeds, the boot sector is taken for a FAT volume, and mounting
   * recovers the sub-type, cluster count, FAT position and data position it was made for.  It succeeds exactly when a
   * sub-type allowed is possible with the cluster size asked for, or with the sizes tried when none is.
   */
  method FormatThenMount(buf: array<byte>, v: Target, bVol: nat, szAu: nat, fsty: FsType, fat32: bool, vsn: nat)
    returns (formatted: bool, g: Geometry, kind: nat, mounted: bool, fs: Mounted)
    requires Sane(v) && buf.Length == v.ss && v.nRoot % (v.ss / 32) == 0
    requires (szAu == 0 || PowerOfTwo(szAu)) && fsty != FAT12 && bVol + v.szVol <= DWORD && vsn < DWORD
    modifies buf
    ensures formatted ==> kind == 0 && mounted && fs == Formatted(g, v.szVol, v.nFat, bVol)
    ensures formatted ==> Suits(g, v.szVol, v.ss, v.nFat, v.nRoot) && Allowed(g.ty, fsty, fat32)
    ensures formatted ==> g.pau > 0 && JustEnough(g.ty, g.szFat, v.szVol / g.pau, v.ss)
    ensures szAu != 0 ==> (formatted <==> Possible(fsty, fat32, szAu, v.szVol, v.ss, v.nFat, v.nRoot))
    ensures szAu == 0 ==> (formatted <==> Automatic(v, fsty, fat32))
  {
    hide Suits, BootSector, Accepted, IsFat, IsExFat, Overhead, PowerOfTwo, Word16, Word32, Attempts, FirstWorks;
    hide NoneWorks, Possible, Automatic, Allowed, Described, JustEnough;
    ghost var k;
    formatted, g, k := Determine(v.szVol, v.ss, v.nFat, v.nRoot, szAu, fsty, fat32);
    Determined(v, szAu, fsty, fat32, formatted, k);
    kind, mounted, fs := 3, false, Mounted(FAT12, 0, 0, 0, 0, 0, 0, 0, 0);
    if formatted {
      WriteBootSector(buf, g, v.szVol, v.ss, v.nFat, v.nRoot, bVol, vsn);
      BootAccepted(buf[..], g, v, bVol);
      kind := CheckFs(buf[..]);
      mounted, fs := MountVolume(buf[..], bVol, v.ss);
    }
  }

  lemma BootAccepted(b: seq<byte>, g: Geometry, v: Target, bVol: nat)
    requires Sane(v) && |b| >= 512 && BootSector(b, g, v.szVol, v.ss, v.nFat, v.nRoot)
    requires Suits(g, v.szVol, v.ss, v.nFat, v.nRoot) && bVol + v.szVol <= DWORD && v.nRoot % (v.ss / 32) == 0
    ensures var f := Formatted(g, v.szVol, v.nFat, bVol);
      IsFat(b) && !IsExFat(b) && Accepted(b, bVol, v.ss, f) && f == Described(b, bVol, v.ss)
  {
    hide Suits, BootSector, Accepted, IsFat, IsExFat, Overhead, Word16, Word32, Described;
    OverheadFits(g, v.szVol, v.ss, v.nFat, v.nRoot);
    FormattedIsAccepted(b, g, v.szVol, v.ss, v.nFat, v.nRoot, bVol);
    AcceptedOnce(b, bVol, v.ss, Formatted(g, v.szVol, v.nFat, bVol));
  }

  lemma OverheadFits(g: Geometry, szVol: nat, ss: nat, nFat: nat, nRoot: nat)
    requires Suits(g, szVol, ss, nFat, nRoot)
    ensures Overhead(g, nFat) < szVol
  {
    if Overhead(g, nFat) == szVol {
      Positive(g.pau);
      Split(0, g.pau, 0, 0);
    }
  }

  // ----- What mounting guarantees -----

  ghost function LayoutOf(f: Mounted, bsect: nat, ss: nat): Layout {
    Layout(f.ty, f.nFats, ss, f.csize, f.nFatent, f.fsize, f.fatbase, f.database, bsect + f.tsect)
  }

  lemma FatSizeCovers(ty: FsType, n: nat)
    requires n > 0
    ensures Base(ty, n - 1) + Span(ty) <= FatSize(ty, n)
  {
    var k := n / 2;
    if n == 2 * k {
      assert (n - 1) / 2 == k - 1 && n * 3 / 2 == 3 * k;
    } else {
      assert n == 2 * k + 1 && (n - 1) / 2 == k && n * 3 / 2 == 3 * k + 1;
    }
  }

  /** Nothing has been cut off at 32 bits. */
  ghost predicate NotCut(b: seq<byte>, bsect: nat, ss: nat, f: Mounted)
    requires |b| >= 512 && SectorSize(ss)
  {
    && f.fsize * f.nFats < DWORD && Word16(b, 14) + f.fsize * f.nFats + RootArea(b, ss) < DWORD
    && bsect + Word16(b, 14) + f.fsize * f.nFats + RootArea(b, ss) < DWORD && bsect + f.tsect <= DWORD
  }

  lemma PlacesAre(b: seq<byte>, bsect: nat, ss: nat, f: Mounted)
    requires |b| >= 512 && SectorSize(ss) && Accepted(b, bsect, ss, f) && NotCut(b, bsect, ss, f)
    ensures SystemArea(b, f.fsize, ss) == Word16(b, 14) + f.fsize * f.nFats + RootArea(b, ss)
    ensures f.fatbase == bsect + Word16(b, 14) && f.database == bsect + SystemArea(b, f.fsize, ss)
    ensures f.fatbase + f.fsize * f.nFats <= f.database
  {
    hide Word16, Word32, Ceil, FatSize, SubType, PowerOfTwo, Row;
    var rsv, root := Word16(b, 14), RootArea(b, ss);
    Split(f.fsize * f.nFats, DWORD, 0, f.fsize * f.nFats);
    Split(rsv + f.fsize * f.nFats + root, DWORD, 0, rsv + f.fsize * f.nFats + root);
    Split(bsect + rsv, DWORD, 0, bsect + rsv);
    Split(bsect + rsv + f.fsize * f.nFats + root, DWORD, 0, bsect + rsv + f.fsize * f.nFats + root);
  }

  lemma AcceptedFacts(b: seq<byte>, bsect: nat, ss: nat, f: Mounted)
    requires |b| >= 512 && SectorSize(ss) && Accepted(b, bsect, ss, f)
    ensures (f.nFats == 1 || f.nFats == 2) && 0 < f.csize <= 128 && Word16(b, 14) != 0
    ensures 2 < f.nFatent <= MaxClusters(f.ty) + 2 && Ceil(FatSize(f.ty, f.nFatent), ss) <= f.fsize
    ensures SystemArea(b, f.fsize, ss) <= f.tsect && f.nFatent - 2 == Row(f.tsect - SystemArea(b, f.fsize, ss), f.csize)
  {
    hide Word16, Word32, Ceil, FatSize, Row, SystemArea;
  }

  /** A FAT that passes the size check has room for all entries. */
  lemma EntriesFit(ty: FsType, n: nat, fsize: nat, ss: nat)
    requires n > 0 && ss > 0 && Ceil(FatSize(ty, n), ss) <= fsize
    ensures Base(ty, n - 1) + Span(ty) <= fsize * ss
  {
    hide Ceil, FatSize, Base, Span;
    CeilFits(FatSize(ty, n), ss);
    Products(Ceil(FatSize(ty, n), ss), fsize, fsize, ss);
    FatSizeCovers(ty, n);
  }

  /** The areas follow one another and fit on the drive. */
  lemma AreasFit(b: seq<byte>, bsect: nat, ss: nat, f: Mounted)
    requires |b| >= 512 && SectorSize(ss) && Accepted(b, bsect, ss, f) && NotCut(b, bsect, ss, f)
    ensures 0 < f.fatbase && FatEnd(LayoutOf(f, bsect, ss)) <= f.database
    ensures f.nFatent > 2 && f.database + f.csize * (f.nFatent - 2) <= bsect + f.tsect <= DWORD
  {
    hide Word16, Word32, Ceil, FatSize, PowerOfTwo, Accepted, NotCut, SystemArea, MaxClusters, Row;
    PlacesAre(b, bsect, ss, f);
    AcceptedFacts(b, bsect, ss, f);
    TotalFits(b, bsect, ss, f);
    ClustersFit(f.tsect - SystemArea(b, f.fsize, ss), f.csize);
    OneOrTwo(f.fsize, f.nFats);
  }

  /**
   * Every volume that mounts has the layout the file system relies on, unless the sizes in its boot sector add up to
   * more than 32 bits hold.
   */
  lemma MountedIsValid(b: seq<byte>, bsect: nat, ss: nat, f: Mounted)
    requires |b| >= 512 && SectorSize(ss) && Accepted(b, bsect, ss, f) && NotCut(b, bsect, ss, f)
    ensures ValidLayout(LayoutOf(f, bsect, ss))
  {
    hide Word16, Word32, Ceil, FatSize, Base, Span, Accepted, NotCut, SystemArea, MaxClusters, Row, FatEnd;
    AreasFit(b, bsect, ss, f);
    AcceptedFacts(b, bsect, ss, f);
    EntriesFit(f.ty, f.nFatent, f.fsize, ss);
  }

  /** The FATs of a volume at the very end of what 32 bits can address wrap round to the start of the drive. */
  ghost predicate WrapsRound(b: seq<byte>, bsect: nat, f: Mounted)
    requires |b| >= 512
  {
    bsect + Word16(b, 14) > DWORD && f.fsize * f.nFats < DWORD && bsect + f.tsect <= DWORD
  }

  /**
   * An accepted boot sector gives the layout the file system relies on exactly when nothing has been cut off at 32
   * bits, or the FATs wrap round as a whole, which they cannot on a drive without partitions.
   */
  lemma MountedValidIff(b: seq<byte>, bsect: nat, ss: nat, f: Mounted)
    requires |b| >= 512 && SectorSize(ss) && Accepted(b, bsect, ss, f)
    ensures ValidLayout(LayoutOf(f, bsect, ss)) <==> NotCut(b, bsect, ss, f) || WrapsRound(b, bsect, f)
    ensures bsect == 0 ==> !WrapsRound(b, bsect, f)
  {
    SizesSmall(b);
    hide Word16, Word32, Accepted, ValidLayout, NotCut;
    if ValidLayout(LayoutOf(f, bsect, ss)) {
      NothingCut(b, bsect, ss, f);
    } else if NotCut(b, bsect, ss, f) {
      MountedIsValid(b, bsect, ss, f);
    } else if WrapsRound(b, bsect, f) {
      WrappedIsValid(b, bsect, ss, f);
    }
  }

  lemma RootSmall(b: seq<byte>, ss: nat)
    requires |b| >= 512 && SectorSize(ss)
    ensures RootArea(b, ss) < 0x1_0000
  {
    SizesSmall(b);
  }

  /** The numbers mounting adds up: reserved sectors, FATs and root directory. */
  lemma Areas(b: seq<byte>, bsect: nat, ss: nat, f: Mounted) returns (rsv: nat, all: nat, root: nat)
    requires |b| >= 512 && SectorSize(ss) && Accepted(b, bsect, ss, f)
    ensures rsv == Word16(b, 14) < 0x1_0000 && all == f.fsize * f.nFats && root == RootArea(b, ss) < 0x1_0000
    ensures SystemArea(b, f.fsize, ss) == (rsv + all % DWORD + root) % DWORD < f.tsect
    ensures f.fatbase == (bsect + rsv) % DWORD && f.database == (bsect + SystemArea(b, f.fsize, ss)) % DWORD
    ensures f.nFats == 1 || f.nFats == 2
  {
    hide Word16, Word32, Accepted, SystemArea, RootArea, Row, Ceil, FatSize, MaxClusters;
    SizesSmall(b);
    PlacesAt(b, bsect, ss, f);
    AcceptedFacts(b, bsect, ss, f);
    RootSmall(b, ss);
    rsv, all, root := Word16(b, 14), f.fsize * f.nFats, RootArea(b, ss);
  }

  lemma NothingCut(b: seq<byte>, bsect: nat, ss: nat, f: Mounted)
    requires |b| >= 512 && SectorSize(ss) && Accepted(b, bsect, ss, f) && ValidLayout(LayoutOf(f, bsect, ss))
    ensures NotCut(b, bsect, ss, f) || WrapsRound(b, bsect, f)
  {
    hide Word16, Word32, Accepted, ValidLayout, SystemArea;
    var rsv, all, root := Areas(b, bsect, ss, f);
    LayoutPlaces(f, bsect, ss);
    CutNumbers(bsect, rsv, all, root, f.tsect, f.fatbase, f.database);
  }

  lemma WrappedIsValid(b: seq<byte>, bsect: nat, ss: nat, f: Mounted)
    requires |b| >= 512 && SectorSize(ss) && Accepted(b, bsect, ss, f) && WrapsRound(b, bsect, f)
    ensures ValidLayout(LayoutOf(f, bsect, ss))
  {
    hide Word16, Word32, Ceil, FatSize, Base, Span, Accepted, MaxClusters, Row, SystemArea, FatEnd;
    WrappedPlaces(b, bsect, ss, f);
    AcceptedFacts(b, bsect, ss, f);
    EntriesFit(f.ty, f.nFatent, f.fsize, ss);
    ClustersFit(f.tsect - SystemArea(b, f.fsize, ss), f.csize);
  }

  lemma WrappedPlaces(b: seq<byte>, bsect: nat, ss: nat, f: Mounted)
    requires |b| >= 512 && SectorSize(ss) && Accepted(b, bsect, ss, f) && WrapsRound(b, bsect, f)
    ensures 0 < f.fatbase && FatEnd(LayoutOf(f, bsect, ss)) <= f.database == bsect + SystemArea(b, f.fsize, ss)
    ensures SystemArea(b, f.fsize, ss) < f.tsect && bsect + f.tsect <= DWORD
  {
    hide Word16, Word32, Accepted, SystemArea;
    var rsv, all, root := Areas(b, bsect, ss, f);
    WrapNumbers(bsect, rsv, all, root, f.tsect, f.fatbase, f.database);
    OneOrTwo(f.fsize, f.nFats);
  }

  lemma PlacesAt(b: seq<byte>, bsect: nat, ss: nat, f: Mounted)
    requires |b| >= 512 && SectorSize(ss) && Accepted(b, bsect, ss, f)
    ensures f.fatbase == (bsect + Word16(b, 14)) % DWORD && f.database == (bsect + SystemArea(b, f.fsize, ss)) % DWORD
    ensures f.nFats == b[16] as int && SystemArea(b, f.fsize, ss) < f.tsect
    ensures SystemArea(b, f.fsize, ss) == (Word16(b, 14) + f.fsize * f.nFats % DWORD + RootArea(b, ss)) % DWORD
  {
    RowNone(f.csize);
    hide Word16, Word32, Ceil, FatSize, SubType, PowerOfTwo, Row, SectorSize;
  }

  lemma RowNone(k: nat)
    ensures k > 0 ==> Row(0, k) == 0
  {
  }

  lemma LayoutPlaces(f: Mounted, bsect: nat, ss: nat)
    requires ValidLayout(LayoutOf(f, bsect, ss)) && (f.nFats == 1 || f.nFats == 2)
    ensures 0 < f.fatbase && f.fatbase + f.fsize * f.nFats <= f.database && bsect + f.tsect <= DWORD
  {
    OneOrTwo(f.fsize, f.nFats);
    hide Roomy;
  }

  lemma CutNumbers(bsect: nat, rsv: nat, all: nat, root: nat, tsect: nat, fatbase: nat, database: nat)
    requires rsv < 0x1_0000 && root < 0x1_0000 && bsect + tsect <= DWORD
    requires var sysect := (rsv + all % DWORD + root) % DWORD;
      sysect < tsect && fatbase == (bsect + rsv) % DWORD && database == (bsect + sysect) % DWORD
    requires 0 < fatbase && fatbase + all <= database
    ensures all < DWORD
    ensures (rsv + all + root < DWORD && bsect + rsv + all + root < DWORD) || bsect + rsv > DWORD
  {
    Split(all, DWORD, 0, all);
    var sysect := (rsv + all + root) % DWORD;
    Split(bsect + sysect, DWORD, 0, bsect + sysect);
    if bsect + rsv < DWORD {
      Split(bsect + rsv, DWORD, 0, bsect + rsv);
      CutOnce(rsv + all + root);
    }
  }

  lemma WrapNumbers(bsect: nat, rsv: nat, all: nat, root: nat, tsect: nat, fatbase: nat, database: nat)
    requires rsv < 0x1_0000 && root < 0x1_0000 && bsect + tsect <= DWORD && bsect + rsv > DWORD && all < DWORD
    requires var sysect := (rsv + all % DWORD + root) % DWORD;
      sysect < tsect && fatbase == (bsect + rsv) % DWORD && database == (bsect + sysect) % DWORD
    ensures 0 < fatbase && fatbase + all <= database
    ensures database == bsect + (rsv + all % DWORD + root) % DWORD
  {
    Split(all, DWORD, 0, all);
    var sysect := (rsv + all + root) % DWORD;
    Split(bsect + sysect, DWORD, 0, bsect + sysect);
    Split(bsect + rsv, DWORD, 1, bsect + rsv - DWORD);
    CutOnce(rsv + all + root);
  }

  lemma CutOnce(x: nat)
    ensures x < DWORD ==> x % DWORD == x
    ensures DWORD <= x < 2 * DWORD ==> x % DWORD == x - DWORD
  {
  }

  lemma SizesSmall(b: seq<byte>)
    requires |b| >= 512
    ensures Word16(b, 14) < 0x1_0000 && Word16(b, 17) < 0x1_0000 && Word16(b, 19) < 0x1_0000 && Word32(b, 32) < DWORD
  {
  }

  /**
   * A FAT32 boot sector of 2097152 sectors with two FATs of more than 2^31 sectors each, of which two sectors are left.
   */
  lemma CutIsAccepted() returns (b: seq<byte>, f: Mounted)
    ensures |b| == 512 && IsFat(b) && !IsExFat(b) && Accepted(b, 0, 512, f)
    ensures !NotCut(b, 0, 512, f) && !ValidLayout(LayoutOf(f, 0, 512))
  {
    b := seq(512, i requires 0 <= i < 512 =>
      if i == 0 then 0xEB else if i == 12 then 2 else if i == 13 then 1 else if i == 14 then 32 else if i == 16 then 2
      else if i == 34 then 0x20 else if i == 36 then 1 else if i == 39 then 0x80
      else if 82 <= i < 90 then FAT32_NAME[i - 82] else if i == 510 then 0x55 else if i == 511 then 0xAA else 0);
    f := Mounted(FAT32, 2, 1, 2097120, 0x8000_0001, 32, 34, 0x20_0000, 0);
    assert b[82..90] == FAT32_NAME && Word16(b, 510) == SIGNATURE && b[1] == 0;
    assert Word16(b, 11) == 512 && Word16(b, 14) == 32 && Word16(b, 17) == 0 && Word16(b, 19) == 0;
    assert Word16(b, 22) == 0 && Word16(b, 42) == 0;
    assert Word32(b, 32) == 0x20_0000 && Word32(b, 36) == 0x8000_0001 && Word32(b, 44) == 0;
    NoExFat(b);
    hide Word16, Word32, IsExFat;
    assert IsFat(b);
    hide IsFat;
    assert SystemArea(b, 0x8000_0001, 512) == 34;
    assert Row(0x20_0000 - 34, 1) == 2097118;
    assert Ceil(FatSize(FAT32, 2097120), 512) <= 0x8000_0001;
    hide SystemArea, Row, Ceil, FatSize, ValidLayout, WrapsRound;
    assert Accepted(b, 0, 512, f);
    MountedValidIff(b, 0, 512, f);
  }

  lemma NoExFat(b: seq<byte>)
    requires |b| >= 512 && b[1] == 0
    ensures !IsExFat(b)
  {
    assert b[..11][1] == 0;
  }

  lemma OneOrTwo(n: nat, k: nat)
    ensures k == 1 ==> n * k == n
    ensures k == 2 ==> n * k == n + n
  {
  }

  lemma TotalFits(b: seq<byte>, bsect: nat, ss: nat, f: Mounted)
    requires |b| >= 512 && SectorSize(ss) && NotCut(b, bsect, ss, f)
    ensures bsect + f.tsect <= DWORD
  {
  }
}
