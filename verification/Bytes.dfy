/** Byte sequences and little-endian words, shared by the codecs of this project. */
module Bytes {
  type byte = x: int | 0 <= x < 256

  /** Bytes of a fixed-width unsigned value, least significant byte first; high bits are cut off. */
  function Le(v: nat, n: nat): (s: seq<byte>)
    ensures |s| == n
  {
    if n == 0 then [] else [v % 256] + Le(v / 256, n - 1)
  }

  /** The 16-bit word at offset i. */
  function Word16(s: seq<byte>, i: nat): (w: nat)
    requires i + 2 <= |s|
    ensures w < 0x1_0000
  {
    var b0: int, b1: int := s[i], s[i + 1];
    b0 + 0x100 * b1
  }

  /** The 32-bit word at offset i. */
  function Word32(s: seq<byte>, i: nat): (w: nat)
    requires i + 4 <= |s|
    ensures w < 0x1_0000_0000
  {
    var b0: int, b1: int, b2: int, b3: int := s[i], s[i + 1], s[i + 2], s[i + 3];
    b0 + 0x100 * b1 + 0x1_0000 * b2 + 0x100_0000 * b3
  }

  /** Division with remainder is unique. */
  lemma Split(x: nat, d: nat, q: nat, r: nat)
    requires r < d && x == d * q + r
    ensures x / d == q && x % d == r
  {
    assert x == d * (x / d) + x % d;
    var e := q - x / d;
    assert d * e == x % d - r;
    assert e >= 1 ==> d * e >= d;
    assert e <= -1 ==> d * e + d <= 0;
  }

  lemma MulStep(c: nat, k: nat, n: nat)
    requires k < n
    ensures c * k + c <= c * n
  {
    var d := n - k - 1;
    assert n == k + 1 + d;
    assert c * (k + 1 + d) == c * k + c + c * d;
  }

  lemma MulComm(a: nat, b: nat)
    ensures a * b == b * a
  {
  }

  lemma MulNext(k: nat, c: nat)
    ensures (k + 1) * c == k * c + c && c * (k + 1) == c * k + c
  {
  }

  lemma SameRow(c: nat, a: nat, r: nat, b: nat, s: nat)
    requires r < c && s < c && c * a + r == c * b + s
    ensures a == b && r == s
  {
    Split(c * a + r, c, a, r);
    Split(c * b + s, c, b, s);
  }

  /** Row of position x in rows of width c. */
  function Row(x: nat, c: nat): (r: nat)
    requires c > 0
  {
    x / c
  }

  /** Column of position x in rows of width c. */
  function Col(x: nat, c: nat): (r: nat)
    requires c > 0
    ensures r < c
  {
    x % c
  }

  lemma RowCol(x: nat, c: nat)
    requires c > 0
    ensures x == Row(x, c) * c + Col(x, c)
  {
  }

  lemma RowColOf(a: nat, r: nat, c: nat)
    requires r < c
    ensures Row(a * c + r, c) == a && Col(a * c + r, c) == r
  {
    MulComm(a, c);
    Split(a * c + r, c, a, r);
  }

  lemma RowPred(x: nat, c: nat)
    requires c > 0 && x > 0
    ensures Col(x, c) == 0 ==> Row(x, c) > 0 && Row(x - 1, c) == Row(x, c) - 1
    ensures Col(x, c) != 0 ==> Row(x - 1, c) == Row(x, c)
  {
    RowCol(x, c);
    var a, r := Row(x, c), Col(x, c);
    hide Row, Col;
    if r == 0 {
      MulNext(a - 1, c);
      RowColOf(a - 1, c - 1, c);
    } else {
      RowColOf(a, r - 1, c);
    }
  }

  lemma RowLess(x: nat, n: nat, c: nat)
    requires c > 0
    ensures Row(x, c) < n <==> x < n * c
  {
    RowCol(x, c);
    hide Row, Col;
    var r := Row(x, c);
    if r < n {
      MulStep(c, r, n);
      MulComm(c, r);
      MulComm(c, n);
    } else if r > n {
      MulStep(c, n, r);
      MulComm(c, r);
      MulComm(c, n);
    }
  }

  lemma Le1(v: nat)
    ensures Le(v, 1) == [v % 256]
  {
  }

  lemma Le2(v: nat)
    ensures Le(v, 2) == [v % 256, v / 256 % 256]
  {
    assert Le(v / 256, 1) == [v / 256 % 256];
  }

  lemma Le3(v: nat)
    ensures Le(v, 3) == [v % 256, v / 0x100 % 256, v / 0x1_0000 % 256]
  {
    Le2(v / 256);
    assert v / 256 / 256 == v / 0x1_0000;
  }

  lemma Le4(v: nat)
    ensures Le(v, 4) == [v % 256, v / 0x100 % 256, v / 0x1_0000 % 256, v / 0x100_0000 % 256]
  {
    Le3(v / 256);
    assert v / 256 / 0x100 == v / 0x1_0000;
    assert v / 256 / 0x1_0000 == v / 0x100_0000;
  }

  /** Storing a 32-bit word and loading it gives the word back. */
  lemma Word32OfLe(v: nat)
    requires v < 0x1_0000_0000
    ensures Word32(Le(v, 4), 0) == v
  {
    Le4(v);
    var v1, v2, v3 := v / 0x100, v / 0x1_0000, v / 0x100_0000;
    assert v2 == v1 / 0x100 && v3 == v2 / 0x100 && v3 < 0x100;
  }

  // ----- Slices -----

  lemma DropSlice<T>(d: seq<T>, n: nat, i: nat, j: nat)
    requires n <= i <= j <= |d|
    ensures d[n..][i - n..j - n] == d[i..j]
  {
  }

  lemma TakeSlice<T>(d: seq<T>, n: nat, i: nat, j: nat)
    requires i <= j <= n <= |d|
    ensures d[..n][i..j] == d[i..j]
  {
  }

  lemma SliceSlice<T>(d: seq<T>, p: nat, q: nat, i: nat, j: nat)
    requires i <= j && p + j <= q <= |d|
    ensures d[p..q][i..j] == d[p + i..p + j]
  {
    var c := d[p..q];
    var a, b := c[i..j], d[p + i..p + j];
    forall k | 0 <= k < |a|
      ensures a[k] == b[k]
    {
      assert a[k] == c[i + k];
    }
  }

  lemma SameWord(s: seq<byte>, i: nat, t: seq<byte>, j: nat, n: nat)
    requires n <= 4 && i + n <= |s| && j + n <= |t| && s[i..i + n] == t[j..j + n]
    ensures n == 2 ==> Word16(s, i) == Word16(t, j)
    ensures n == 4 ==> Word32(s, i) == Word32(t, j)
  {
    var a, b := s[i..i + n], t[j..j + n];
    if n == 2 {
      assert s[i] == a[0] == b[0] == t[j] && s[i + 1] == a[1] == b[1] == t[j + 1];
    } else if n == 4 {
      assert s[i] == a[0] == b[0] == t[j] && s[i + 1] == a[1] == b[1] == t[j + 1];
      assert s[i + 2] == a[2] == b[2] == t[j + 2] && s[i + 3] == a[3] == b[3] == t[j + 3];
    }
  }

  lemma Joined<T>(d: seq<T>, i: nat, j: nat, k: nat)
    requires i <= j <= k <= |d|
    ensures d[i..k] == d[i..j] + d[j..k]
  {
  }

  /** A common prefix has common slices. */
  lemma Prefixes<T>(d0: seq<T>, d1: seq<T>, i: nat, j: nat, n: nat)
    requires i <= j <= n <= |d0| && n <= |d1| && d0[..n] == d1[..n]
    ensures d0[i..j] == d1[i..j]
  {
    TakeSlice(d0, n, i, j);
    TakeSlice(d1, n, i, j);
  }

  /** A common suffix has common slices. */
  lemma Suffixes<T>(d0: seq<T>, d1: seq<T>, i: nat, j: nat, n: nat)
    requires n <= i <= j <= |d0| && |d0| == |d1| && d0[n..] == d1[n..]
    ensures d0[i..j] == d1[i..j]
  {
    DropSlice(d0, n, i, j);
    DropSlice(d1, n, i, j);
  }

  /** Extending what is written at the end of a region. */
  lemma ExtendRegion<T>(d0: seq<T>, d1: seq<T>, i: nat, j: nat, k: nat)
    requires i <= j <= k <= |d1| && j <= |d0| && d1[..j] == d0[..j]
    ensures d1[i..k] == d0[i..j] + d1[j..k]
  {
    Joined(d1, i, j, k);
    Prefixes(d0, d1, i, j, j);
  }

  /** Overwriting the gap between two regions. */
  lemma FillGap<T>(d0: seq<T>, d1: seq<T>, i: nat, j: nat, m: nat, k: nat)
    requires i <= j <= m <= k <= |d0| && |d0| == |d1| && d1[..j] == d0[..j] && d1[m..] == d0[m..]
    ensures d1[i..k] == d0[i..j] + (d1[j..m] + d0[m..k])
  {
    Prefixes(d0, d1, i, j, j);
    Suffixes(d0, d1, m, k, m);
    Joined(d1, j, m, k);
    Joined(d1, i, j, k);
  }
}
