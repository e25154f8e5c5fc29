/** Disks as sequences of equal-sized sectors, and the byte sequences they spell. */
module Sectors {
  import opened Bytes

  type Sector = seq<byte>

  ghost predicate Uniform(d: seq<Sector>, ss: nat) {
    forall i :: 0 <= i < |d| ==> |d[i]| == ss
  }

  function Flat(d: seq<Sector>): seq<byte> {
    if d == [] then [] else d[0] + Flat(d[1..])
  }

  lemma {:induction false} FlatLength(d: seq<Sector>, ss: nat)
    requires Uniform(d, ss)
    ensures |Flat(d)| == |d| * ss
  {
    if d != [] {
      FlatLength(d[1..], ss);
      assert |d| * ss == ss + (|d| - 1) * ss;
    }
  }

  lemma {:induction false} FlatAppend(a: seq<Sector>, b: seq<Sector>)
    ensures Flat(a + b) == Flat(a) + Flat(b)
  {
    if a == [] {
      assert a + b == b;
    } else {
      assert (a + b)[1..] == a[1..] + b;
      FlatAppend(a[1..], b);
    }
  }

  lemma FlatOne(s: Sector)
    ensures Flat([s]) == s
  {
    assert Flat([s]) == s + Flat([]);
  }

  lemma Middle<T>(x: seq<T>, y: seq<T>, z: seq<T>)
    ensures (x + (y + z))[|x|..|x| + |y|] == y
    ensures (x + (y + z))[..|x|] == x
    ensures (x + (y + z))[|x| + |y|..] == z
  {
  }

  lemma Products(i: nat, j: nat, n: nat, ss: nat)
    requires i <= j <= n
    ensures j * ss == i * ss + (j - i) * ss && n * ss == j * ss + (n - j) * ss
  {
  }

  /** Sectors i to j of a disk are bytes i * ss to j * ss. */
  lemma FlatSlice(d: seq<Sector>, ss: nat, i: nat, j: nat)
    requires Uniform(d, ss) && i <= j <= |d|
    ensures i * ss <= j * ss <= |Flat(d)|
    ensures Flat(d[i..j]) == Flat(d)[i * ss..j * ss]
    ensures Flat(d[..i]) == Flat(d)[..i * ss]
    ensures Flat(d[j..]) == Flat(d)[j * ss..]
  {
    hide Flat;
    var a, b, c := d[..i], d[i..j], d[j..];
    assert d == a + (b + c);
    FlatAppend(a, b + c);
    FlatAppend(b, c);
    FlatLength(a, ss);
    FlatLength(b, ss);
    FlatLength(c, ss);
    Products(i, j, |d|, ss);
    Middle(Flat(a), Flat(b), Flat(c));
  }

  lemma FlatSector(d: seq<Sector>, ss: nat, q: nat)
    requires Uniform(d, ss) && q < |d|
    ensures q * ss + ss <= |Flat(d)| && Flat(d)[q * ss..q * ss + ss] == d[q]
  {
    hide Flat;
    FlatSlice(d, ss, q, q + 1);
    assert d[q..q + 1] == [d[q]];
    FlatOne(d[q]);
    assert (q + 1) * ss == q * ss + ss;
  }

  /** One byte of one sector. */
  lemma FlatAt(d: seq<Sector>, ss: nat, q: nat, o: nat)
    requires Uniform(d, ss) && q < |d| && o < ss
    ensures q * ss + o < |Flat(d)| && Flat(d)[q * ss + o] == d[q][o]
  {
    hide Flat;
    FlatSector(d, ss, q);
    assert Flat(d)[q * ss..q * ss + ss][o] == d[q][o];
  }

  /** The sectors e put over v from sector i on. */
  function Splice(v: seq<Sector>, i: nat, e: seq<Sector>): (u: seq<Sector>)
    requires i + |e| <= |v|
    ensures |u| == |v|
    ensures forall k :: 0 <= k < |v| ==> u[k] == if i <= k < i + |e| then e[k - i] else v[k]
  {
    v[..i] + e + v[i + |e|..]
  }

  /** Replacing whole sectors replaces the bytes they spell. */
  lemma FlatReplace(d: seq<Sector>, ss: nat, i: nat, e: seq<Sector>)
    requires Uniform(d, ss) && Uniform(e, ss) && i + |e| <= |d|
    ensures i * ss + |Flat(e)| <= |Flat(d)| && |Flat(e)| == |e| * ss
    ensures Flat(Splice(d, i, e)) == Flat(d)[..i * ss] + Flat(e) + Flat(d)[i * ss + |Flat(e)|..]
  {
    hide Flat, Splice, Uniform;
    var j := i + |e|;
    FlatSlice(d, ss, i, j);
    FlatLength(e, ss);
    Products(i, j, |d|, ss);
    SpliceFlat(d, i, e);
  }

  lemma SpliceFlat(d: seq<Sector>, i: nat, e: seq<Sector>)
    requires i + |e| <= |d|
    ensures Flat(Splice(d, i, e)) == Flat(d[..i]) + Flat(e) + Flat(d[i + |e|..])
  {
    hide Flat;
    FlatAppend(d[..i], e);
    FlatAppend(d[..i] + e, d[i + |e|..]);
  }

  lemma FlatReplaceOne(d: seq<Sector>, ss: nat, q: nat, s: Sector)
    requires Uniform(d, ss) && q < |d| && |s| == ss
    ensures q * ss + ss <= |Flat(d)|
    ensures Flat(d[q := s]) == Flat(d)[..q * ss] + s + Flat(d)[q * ss + ss..]
  {
    hide Flat;
    FlatReplace(d, ss, q, [s]);
    FlatOne(s);
    assert Splice(d, q, [s]) == d[q := s];
  }

  /** The bytes b put over f from offset i on. */
  ghost function Overwrite(f: seq<byte>, i: nat, b: seq<byte>): seq<byte>
    requires i + |b| <= |f|
  {
    f[..i] + b + f[i + |b|..]
  }

  /** Changing some bytes of one sector. */
  lemma FlatStore(d: seq<Sector>, ss: nat, q: nat, o: nat, b: seq<byte>)
    requires Uniform(d, ss) && q < |d| && o + |b| <= ss
    ensures q * ss + o + |b| <= |Flat(d)|
    ensures Flat(d[q := Overwrite(d[q], o, b)]) == Overwrite(Flat(d), q * ss + o, b)
  {
    hide Flat, Uniform;
    FlatSector(d, ss, q);
    FlatReplaceOne(d, ss, q, Overwrite(d[q], o, b));
    Patch(Flat(d), q * ss, ss, o, b);
  }

  lemma Patch(f: seq<byte>, p: nat, ss: nat, o: nat, b: seq<byte>)
    requires p + ss <= |f| && o + |b| <= ss
    ensures f[..p] + Overwrite(f[p..p + ss], o, b) + f[p + ss..] == Overwrite(f, p + o, b)
  {
  }

  /** Some bytes inside one sector. */
  lemma PieceOfSector(d: seq<Sector>, ss: nat, p: nat, n: nat)
    requires ss > 0 && Uniform(d, ss) && Row(p, ss) < |d| && Col(p, ss) + n <= ss
    ensures p + n <= |Flat(d)|
    ensures Flat(d)[p..p + n] == d[Row(p, ss)][Col(p, ss)..Col(p, ss) + n]
  {
    hide Flat, Uniform, Row, Col;
    var q, o := Row(p, ss), Col(p, ss);
    RowCol(p, ss);
    FlatSector(d, ss, q);
    SliceSlice(Flat(d), q * ss, q * ss + ss, o, o + n);
  }

  /** Some whole sectors. */
  lemma PieceOfRun(d: seq<Sector>, ss: nat, p: nat, n: nat)
    requires ss > 0 && Uniform(d, ss) && Col(p, ss) == 0 && Row(p, ss) + n <= |d|
    ensures p + n * ss <= |Flat(d)|
    ensures Flat(d)[p..p + n * ss] == Flat(d[Row(p, ss)..Row(p, ss) + n])
    ensures |Flat(d[Row(p, ss)..Row(p, ss) + n])| == n * ss
  {
    hide Flat, Row, Col;
    var q := Row(p, ss);
    RowCol(p, ss);
    FlatSlice(d, ss, q, q + n);
    FlatLength(d[q..q + n], ss);
    Distrib(q, n, ss);
  }

  lemma Distrib(a: nat, b: nat, c: nat)
    ensures (a + b) * c == a * c + b * c
  {
  }
}
