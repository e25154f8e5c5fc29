/** The level 3 decoder with the memory-safety checks compiled in. */
module QuickLzDecoder {
  import opened Bytes
  import opened QuickLzFormat

  /** What is left of the stream at some point of the decoding. */
  datatype Cursor = Cursor(rest: Group, room: nat, later: seq<Group>)

  ghost predicate Aligned(data: seq<byte>, src: nat, c: Cursor) {
    src <= |data| && Body(c.rest) + Stream(c.later) <= data[src..]
  }

  ghost predicate Flagged(cw: nat, c: Cursor) {
    && |c.rest| <= c.room <= GROUP
    && (c.later != [] ==> |c.rest| == c.room)
    && Full(c.later)
    && cw == Flags(c.rest) + Pow2(c.room)
  }

  ghost predicate Pending(s: seq<byte>, dst: nat, c: Cursor) {
    Spells(s, dst, c.rest + Flatten(c.later), |s|)
  }

  /** The decoder at position src, with the control word cw half consumed, has s[dst..] still to come. */
  ghost predicate InSync(data: seq<byte>, src: nat, cw: nat, s: seq<byte>, dst: nat, c: Cursor) {
    Aligned(data, src, c) && Flagged(cw, c) && Pending(s, dst, c)
  }

  lemma Pow2Of31()
    ensures Pow2(GROUP) == SENTINEL
  {
    assert Pow2(4) == 16;
    assert Pow2(8) == 256;
    assert Pow2(12) == 0x1000;
    assert Pow2(16) == 0x1_0000;
    assert Pow2(20) == 0x10_0000;
    assert Pow2(24) == 0x100_0000;
    assert Pow2(28) == 0x1000_0000;
  }

  lemma DropPrefix(data: seq<byte>, src: nat, a: seq<byte>, b: seq<byte>)
    requires src <= |data| && a + b <= data[src..]
    ensures src + |a| <= |data| && b <= data[src + |a|..]
    ensures forall i :: 0 <= i < |a| ==> data[src + i] == a[i]
  {
    assert |a + b| <= |data[src..]|;
    assert data[src + |a|..] == data[src..][|a|..];
    assert b == (a + b)[|a|..];
    assert forall i :: 0 <= i < |a| ==> (a + b)[i] == a[i];
  }

  lemma WordAt(data: seq<byte>, src: nat, v: nat, tail: seq<byte>)
    requires src <= |data| && v < 0x1_0000_0000
    requires Le(v, 4) + tail <= data[src..]
    ensures src + 4 <= |data| && Word32(data, src) == v && tail <= data[src + 4..]
  {
    Word32OfLe(v);
    DropPrefix(data, src, Le(v, 4), tail);
  }

  lemma FlagStep(ts: seq<Token>, room: nat)
    requires ts != [] && |ts| <= room
    ensures var cw := Flags(ts) + Pow2(room);
      cw % 2 == Flag(ts[0]) && cw / 2 == Flags(ts[1..]) + Pow2(room - 1)
  {
    var f, p := Flags(ts[1..]), Pow2(room - 1);
    assert Flags(ts) + Pow2(room) == Flag(ts[0]) + 2 * (f + p);
  }

  lemma Pow2Monotonic(m: nat, n: nat)
    requires m <= n
    ensures Pow2(m) <= Pow2(n)
  {
  }

  /** A control word is due exactly when only the sentinel is left. */
  lemma WordDue(cw: nat, s: seq<byte>, dst: nat, c: Cursor)
    requires Flagged(cw, c) && Pending(s, dst, c) && dst < |s|
    ensures cw == 1 ==> c.rest == [] && c.later != []
    ensures cw != 1 ==> c.rest != []
  {
    if c.rest == [] {
      assert c.rest + Flatten(c.later) == Flatten(c.later);
    }
  }

  lemma ControlWordFits(g: Group)
    ensures Flags(g) + SENTINEL < 0x1_0000_0000
  {
    Pow2Of31();
    Pow2Monotonic(|g|, GROUP);
  }

  lemma GroupSplit(gs: seq<Group>)
    requires gs != []
    ensures Stream(gs) == Le(Flags(gs[0]) + SENTINEL, 4) + (Body(gs[0]) + Stream(gs[1..]))
  {
    var w := Le(Flags(gs[0]) + SENTINEL, 4);
    assert Stream(gs) == (w + Body(gs[0])) + Stream(gs[1..]);
  }

  lemma AlignedWord(data: seq<byte>, src: nat, c: Cursor, d: Cursor)
    requires Aligned(data, src, c) && c.rest == [] && c.later != []
    requires d == Cursor(c.later[0], GROUP, c.later[1..])
    ensures src + CWORD_LEN <= |data| && Word32(data, src) == Flags(d.rest) + SENTINEL
    ensures Aligned(data, src + CWORD_LEN, d)
  {
    var v, tail := Flags(d.rest) + SENTINEL, Body(d.rest) + Stream(d.later);
    EmptyBody(Stream(c.later));
    hide Flags, Body, Stream, Le, Word32;
    ControlWordFits(d.rest);
    GroupSplit(c.later);
    WordAt(data, src, v, tail);
  }

  lemma EmptyBody(t: seq<byte>)
    ensures Body([]) + t == t
  {
  }

  lemma NextWord(data: seq<byte>, src: nat, s: seq<byte>, dst: nat, c: Cursor) returns (d: Cursor)
    requires InSync(data, src, 1, s, dst, c) && dst < |s|
    ensures src + CWORD_LEN <= |data|
    ensures InSync(data, src + CWORD_LEN, Word32(data, src), s, dst, d) && d.room == GROUP
    ensures Word32(data, src) != 1
  {
    WordDue(1, s, dst, c);
    d := Cursor(c.later[0], GROUP, c.later[1..]);
    AlignedWord(data, src, c, d);
    Pow2Of31();
    assert c.rest + Flatten(c.later) == d.rest + Flatten(d.later);
  }

  ghost function Tail(c: Cursor): Cursor
    requires c.rest != [] && c.room > 0
  {
    Cursor(c.rest[1..], c.room - 1, c.later)
  }

  lemma AlignedStep(data: seq<byte>, src: nat, c: Cursor)
    requires Aligned(data, src, c) && c.rest != [] && c.room > 0
    ensures Aligned(data, src + |TokenBytes(c.rest[0])|, Tail(c))
    ensures TokenBytes(c.rest[0]) <= data[src..]
  {
    hide Stream, TokenBytes;
    var t, d := c.rest[0], Tail(c);
    var tail := Body(d.rest) + Stream(d.later);
    assert Body(c.rest) + Stream(c.later) == TokenBytes(t) + tail;
    DropPrefix(data, src, TokenBytes(t), tail);
  }

  lemma PendingStep(s: seq<byte>, dst: nat, c: Cursor)
    requires Pending(s, dst, c) && c.rest != [] && c.room > 0
    ensures TokenAt(s, dst, c.rest[0]) && Pending(s, dst + Width(c.rest[0]), Tail(c))
  {
    var ts := c.rest + Flatten(c.later);
    assert ts[0] == c.rest[0] && ts[1..] == Tail(c).rest + Flatten(c.later);
  }

  /** Apart from that, a token is left and the low bit of the control word is its flag. */
  lemma NextToken(data: seq<byte>, src: nat, cw: nat, s: seq<byte>, dst: nat, c: Cursor) returns (t: Token, d: Cursor)
    requires InSync(data, src, cw, s, dst, c) && cw != 1 && dst < |s|
    ensures TokenAt(s, dst, t)
    ensures cw % 2 == Flag(t)
    ensures TokenBytes(t) <= data[src..]
    ensures InSync(data, src + |TokenBytes(t)|, cw / 2, s, dst + Width(t), d)
  {
    hide Aligned, Pending, Flagged, TokenBytes, TokenAt;
    WordDue(cw, s, dst, c);
    FlaggedStep(cw, c);
    t, d := c.rest[0], Tail(c);
    AlignedStep(data, src, c);
    PendingStep(s, dst, c);
  }

  lemma FlaggedStep(cw: nat, c: Cursor)
    requires Flagged(cw, c) && c.rest != []
    ensures c.room > 0 && cw % 2 == Flag(c.rest[0]) && Flagged(cw / 2, Tail(c))
  {
    hide Full, Flags, Pow2;
    FlagStep(c.rest, c.room);
  }

  lemma Bytes3(v: nat)
    requires v < 0x100_0000
    ensures v == v % 256 + 0x100 * (v / 0x100 % 256) + 0x1_0000 * (v / 0x1_0000 % 256)
  {
    assert v / 0x1_0000 == v / 0x100 / 0x100;
  }

  lemma Bytes4(v: nat)
    requires v < 0x1_0000_0000
    ensures v ==
      v % 256 + 0x100 * (v / 0x100 % 256) + 0x1_0000 * (v / 0x1_0000 % 256) + 0x100_0000 * (v / 0x100_0000 % 256)
  {
    var v1, v2, v3 := v / 0x100, v / 0x1_0000, v / 0x100_0000;
    assert v2 == v1 / 0x100 && v3 == v2 / 0x100 && v3 < 0x100;
  }

  lemma FetchSplit(data: seq<byte>, src: nat, v: nat, n: nat) returns (rest: nat)
    requires 1 <= n <= 4 && v < Pow256(n) && src + 4 <= |data| && Le(v, n) <= data[src..]
    ensures Word32(data, src) == v + Pow256(n) * rest && (n == 4 ==> rest == 0)
  {
    var b1: int, b2: int, b3: int := data[src + 1], data[src + 2], data[src + 3];
    assert forall i :: 0 <= i < n ==> data[src + i] == Le(v, n)[i];
    assert Pow256(1) == 0x100 && Pow256(2) == 0x1_0000 && Pow256(3) == 0x100_0000 && Pow256(4) == 0x1_0000_0000;
    if n == 1 {
      Le1(v);
      rest := b1 + 0x100 * b2 + 0x1_0000 * b3;
    } else if n == 2 {
      Le2(v);
      rest := b2 + 0x100 * b3;
    } else if n == 3 {
      Le3(v);
      Bytes3(v);
      rest := b3;
    } else {
      Le4(v);
      Bytes4(v);
      rest := 0;
    }
  }

  lemma MatchWordFits(offset: nat, len: nat)
    requires 3 <= offset < MAX_OFFSET && 3 <= len <= 255
    ensures MatchWord(offset, len).0 < Pow256(MatchWord(offset, len).1)
  {
    assert Pow256(1) == 0x100 && Pow256(2) == 0x1_0000 && Pow256(3) == 0x100_0000 && Pow256(4) == 0x1_0000_0000;
  }

  /** The four bytes at a match token decode to its fields. */
  lemma MatchAt(data: seq<byte>, src: nat, t: Token)
    requires t.Match? && src + 4 <= |data| && TokenBytes(t) <= data[src..]
    ensures MatchFields(Word32(data, src)) == (t.offset, t.len, |TokenBytes(t)|)
  {
    var w := MatchWord(t.offset, t.len);
    MatchWordFits(t.offset, t.len);
    var rest := FetchSplit(data, src, w.0, w.1);
    MatchFieldsInvert(t.offset, t.len, rest);
  }

  lemma {:induction false} BodyAppend(a: seq<Token>, b: seq<Token>)
    ensures Body(a + b) == Body(a) + Body(b)
  {
    if a == [] {
      assert a + b == b;
    } else {
      assert (a + b)[1..] == a[1..] + b;
      BodyAppend(a[1..], b);
    }
  }

  lemma StreamAtLeastBody(gs: seq<Group>)
    ensures |Stream(gs)| >= |Body(Flatten(gs))|
  {
    if gs != [] {
      BodyAppend(gs[0], Flatten(gs[1..]));
    }
  }

  /** The closing literals make sure that four more bytes can be fetched. */
  lemma {:induction false} BodyLength(s: seq<byte>, p: nat, ts: seq<Token>)
    requires Spells(s, p, ts, |s|)
    ensures |Body(ts)| >= if p + 4 <= |s| then 4 else |s| - p
    decreases |ts|
  {
    if ts != [] {
      BodyLength(s, p + Width(ts[0]), ts[1..]);
    }
  }

  lemma FetchLeft(data: seq<byte>, src: nat, s: seq<byte>, dst: nat, c: Cursor)
    requires Aligned(data, src, c) && Pending(s, dst, c) && dst + 4 <= |s|
    ensures src + 4 <= |data|
  {
    BodyLength(s, dst, c.rest + Flatten(c.later));
    BodyAppend(c.rest, Flatten(c.later));
    StreamAtLeastBody(c.later);
    assert |Body(c.rest) + Stream(c.later)| <= |data[src..]|;
  }

  lemma FlagsAppendZero(a: seq<Token>, b: seq<Token>)
    requires Flags(a + b) == 0
    ensures Flags(a) == 0
  {
    if a != [] {
      assert (a + b)[1..] == a[1..] + b;
    }
  }

  /** Near the end of the data only literals occur. */
  lemma {:induction false} ClosingLiterals(s: seq<byte>, p: nat, ts: seq<Token>)
    requires Spells(s, p, ts, |s|) && p + UNCONDITIONAL_MATCHLEN + UNCOMPRESSED_END >= |s|
    ensures Flags(ts) == 0
    decreases |ts|
  {
    if ts != [] {
      ClosingLiterals(s, p + 1, ts[1..]);
    }
  }

  lemma ClosingFlags(s: seq<byte>, dst: nat, c: Cursor)
    requires Pending(s, dst, c) && dst + UNCONDITIONAL_MATCHLEN + UNCOMPRESSED_END >= |s|
    ensures Flags(c.rest) == 0
  {
    ClosingLiterals(s, dst, c.rest + Flatten(c.later));
    FlagsAppendZero(c.rest, Flatten(c.later));
  }

  /** Number of clear low bits of a four-bit value. */
  const BITLUT: seq<nat> := [4, 0, 1, 0, 2, 0, 1, 0, 3, 0, 1, 0, 2, 0, 1, 0]

  function ShiftRight(w: nat, n: nat): nat { if n == 0 then w else ShiftRight(w / 2, n - 1) }

  ghost predicate LowBitsClear(w: nat, n: nat) { n == 0 || (w % 2 == 0 && LowBitsClear(w / 2, n - 1)) }

  lemma LowBitStep(w: nat, n: nat)
    requires w % 2 == 0 && LowBitsClear(w / 2, n)
    ensures LowBitsClear(w, n + 1)
  {
  }

  lemma BitlutCounts(w: nat)
    ensures BITLUT[w % 16] <= 4 && LowBitsClear(w, BITLUT[w % 16])
    ensures w % 2 == 0 ==> BITLUT[w % 16] >= 1
  {
    var r := w % 16;
    LowBits(w);
    hide LowBitsClear;
    if r == 0 {
      LowBitStep(w / 2 / 2 / 2, 0);
      LowBitStep(w / 2 / 2, 1);
      LowBitStep(w / 2, 2);
      LowBitStep(w, 3);
    } else if r == 8 {
      LowBitStep(w / 2 / 2, 0);
      LowBitStep(w / 2, 1);
      LowBitStep(w, 2);
    } else if r == 4 || r == 12 {
      LowBitStep(w / 2, 0);
      LowBitStep(w, 1);
    } else if r % 2 == 0 {
      LowBitStep(w, 0);
    }
  }

  /** Bits 0 to 3. */
  lemma LowBits(w: nat)
    ensures w % 2 == w % 16 % 2 && w / 2 % 2 == w % 16 / 2 % 2
    ensures w / 2 / 2 % 2 == w % 16 / 4 % 2 && w / 2 / 2 / 2 % 2 == w % 16 / 8
    ensures forall v: nat :: LowBitsClear(v, 0)
  {
    var q, r := w / 16, w % 16;
    assert r / 2 / 2 == r / 4 && r / 2 / 2 / 2 == r / 8 < 2;
    HalfOf(w, 8 * q, r);
    HalfOf(w / 2, 4 * q, r / 2);
    HalfOf(w / 2 / 2, 2 * q, r / 2 / 2);
    HalfOf(w / 2 / 2 / 2, q, r / 2 / 2 / 2);
  }

  lemma HalfOf(x: nat, y: nat, r: nat)
    requires x == 2 * y + r
    ensures x / 2 == y + r / 2 && x % 2 == r % 2
  {
  }

  lemma LiteralStep(data: seq<byte>, src: nat, cw: nat, s: seq<byte>, dst: nat, c: Cursor) returns (d: Cursor)
    requires InSync(data, src, cw, s, dst, c) && dst < |s| && cw % 2 == 0
    ensures src < |data| && data[src] == s[dst]
    ensures InSync(data, src + 1, cw / 2, s, dst + 1, d)
  {
    var t;
    t, d := NextToken(data, src, cw, s, dst, c);
    assert data[src..][0] == TokenBytes(t)[0];
  }

  lemma ConsSlices(a: seq<byte>, i: nat, b: seq<byte>, j: nat, n: nat)
    requires 1 <= n && i + n <= |a| && j + n <= |b|
    requires a[i] == b[j] && a[i + 1..i + n] == b[j + 1..j + n]
    ensures a[i..i + n] == b[j..j + n]
  {
    assert a[i..i + n] == [a[i]] + a[i + 1..i + n];
    assert b[j..j + n] == [b[j]] + b[j + 1..j + n];
  }

  lemma SyncInside(data: seq<byte>, src: nat, cw: nat, s: seq<byte>, dst: nat, c: Cursor)
    requires InSync(data, src, cw, s, dst, c)
    ensures src <= |data|
  {
  }

  /** A run of clear flags is a run of literals. */
  lemma {:induction false} LiteralRun(data: seq<byte>, src: nat, cw: nat, s: seq<byte>, dst: nat, c: Cursor, n: nat)
    returns (d: Cursor)
    requires InSync(data, src, cw, s, dst, c) && dst + n <= |s| && LowBitsClear(cw, n)
    ensures InSync(data, src + n, ShiftRight(cw, n), s, dst + n, d)
    ensures src + n <= |data| && data[src..src + n] == s[dst..dst + n]
    decreases n
  {
    hide InSync;
    SyncInside(data, src, cw, s, dst, c);
    if n == 0 {
      d := c;
    } else {
      var e := LiteralStep(data, src, cw, s, dst, c);
      d := LiteralRun(data, src + 1, cw / 2, s, dst + 1, e, n - 1);
      ConsSlices(data, src, s, dst, n);
    }
  }

  // ----- The packet header -----

  ghost predicate HeaderReadable(source: seq<byte>) {
    |source| >= 3 && (source[0] / 2 % 2 == 1 ==> |source| >= 9)
  }

  /** Width in bytes of the two size fields. */
  function FieldWidth(source: seq<byte>): (n: nat)
    requires HeaderReadable(source)
    ensures n == 4 ==> |source| >= 9
  {
    if source[0] / 2 % 2 == 1 then 4 else 1
  }

  function SizeDecompressed(source: seq<byte>): nat
    requires HeaderReadable(source)
  {
    if FieldWidth(source) == 4 then Word32(source, 5) else source[2]
  }

  function SizeCompressed(source: seq<byte>): nat
    requires HeaderReadable(source)
  {
    if FieldWidth(source) == 4 then Word32(source, 1) else source[1]
  }

  function SizeHeader(source: seq<byte>): nat
    requires HeaderReadable(source)
  {
    2 * FieldWidth(source) + 1
  }

  // ----- Copying -----

  /** memcpy_up: copies upwards byte by byte, so that an overlapping copy repeats itself. */
  method CopyUp(destination: array<byte>, dst: nat, from: nat, n: nat)
    requires from < dst && dst + n <= destination.Length
    modifies destination
    ensures forall k :: dst <= k < dst + n ==> destination[k] == destination[k - (dst - from)]
    ensures forall k :: 0 <= k < destination.Length && !(dst <= k < dst + n) ==> destination[k] == old(destination[k])
  {
    var i := 0;
    while i < n
      invariant i <= n
      invariant forall k :: dst <= k < dst + i ==> destination[k] == destination[k - (dst - from)]
      invariant forall k :: 0 <= k < destination.Length && !(dst <= k < dst + i) ==>
        destination[k] == old(destination[k])
    {
      destination[dst + i] := destination[from + i];
      i := i + 1;
    }
  }

  method CopyIn(destination: array<byte>, dst: nat, source: seq<byte>, src: nat, n: nat)
    requires dst + n <= destination.Length && src + n <= |source|
    modifies destination
    ensures destination[..dst] == old(destination[..dst])
    ensures destination[dst..dst + n] == source[src..src + n]
    ensures destination[dst + n..] == old(destination[dst + n..])
  {
    var i := 0;
    while i < n
      invariant i <= n
      invariant forall k :: dst <= k < dst + i ==> destination[k] == source[src + (k - dst)]
      invariant forall k :: 0 <= k < destination.Length && !(dst <= k < dst + i) ==>
        destination[k] == old(destination[k])
    {
      destination[dst + i] := source[src + i];
      i := i + 1;
    }
  }

  /** The self-overlapping copy reproduces a stretch of s that repeats itself. */
  lemma {:induction false} CopyReproduces(d: seq<byte>, s: seq<byte>, p: nat, offset: nat, len: nat)
    requires 1 <= offset <= p && p + len <= |s| && p + len <= |d|
    requires d[..p] == s[..p] && Repeats(s, p, offset, len) && Repeats(d, p, offset, len)
    ensures d[..p + len] == s[..p + len]
  {
    if len > 0 {
      var k := p + len - 1;
      CopyReproduces(d, s, p, offset, len - 1);
      assert d[k - offset] == d[..k][k - offset] == s[..k][k - offset] == s[k - offset];
      assert d[..k + 1] == d[..k] + [d[k]];
      assert s[..k + 1] == s[..k] + [s[k]];
    }
  }

  // ----- The decoder -----

  /** A packet whose payload is a compressed form of s; the payload takes at least nine bytes. */
  ghost predicate Packet(source: seq<byte>, s: seq<byte>) {
    && HeaderReadable(source)
    && SizeHeader(source) + 9 <= SizeCompressed(source) <= |source|
    && SizeDecompressed(source) == |s| > 0
    && Compressed(source[SizeHeader(source)..SizeCompressed(source)], s)
  }

  lemma ClosingWord(cw: nat, s: seq<byte>, dst: nat, c: Cursor)
    requires Flagged(cw, c) && Pending(s, dst, c) && c.room == GROUP
    requires dst + UNCONDITIONAL_MATCHLEN + UNCOMPRESSED_END >= |s|
    ensures cw == SENTINEL
  {
    ClosingFlags(s, dst, c);
    Pow2Of31();
  }

  lemma LiteralAhead(cw: nat, s: seq<byte>, dst: nat, c: Cursor)
    requires Flagged(cw, c) && Pending(s, dst, c) && cw != 1
    requires dst + UNCONDITIONAL_MATCHLEN + UNCOMPRESSED_END >= |s|
    ensures cw % 2 == 0
  {
    ClosingFlags(s, dst, c);
    assert cw == Pow2(c.room) && c.room > 0;
  }

  /** Near the end the next byte is a literal, after a control word without match flags if one is due. */
  lemma ClosingStep(data: seq<byte>, src: nat, cw: nat, s: seq<byte>, dst: nat, c: Cursor) returns (d: Cursor)
    requires InSync(data, src, cw, s, dst, c) && dst < |s|
    requires dst + UNCONDITIONAL_MATCHLEN + UNCOMPRESSED_END >= |s| || (cw != 1 && cw % 2 == 0)
    ensures var src' := if cw == 1 then src + CWORD_LEN else src;
      var cw' := if cw == 1 then SENTINEL else cw;
      src' < |data| && data[src'] == s[dst] && InSync(data, src' + 1, cw' / 2, s, dst + 1, d)
  {
    var e := c;
    if cw == 1 {
      e := NextWord(data, src, s, dst, c);
      ClosingWord(Word32(data, src), s, dst, e);
      LiteralAhead(Word32(data, src), s, dst, e);
    } else if dst + UNCONDITIONAL_MATCHLEN + UNCOMPRESSED_END >= |s| {
      LiteralAhead(cw, s, dst, c);
    }
    d := LiteralStep(data, if cw == 1 then src + CWORD_LEN else src, if cw == 1 then SENTINEL else cw, s, dst, e);
  }

  ghost predicate Agree(d: seq<byte>, s: seq<byte>, n: nat) {
    n <= |d| && n <= |s| && d[..n] == s[..n]
  }

  /** What lies behind the output buffer is left alone. */
  ghost predicate SameFrom(d: seq<byte>, d0: seq<byte>, size: nat) {
    |d| == |d0| && size <= |d| && d[size..] == d0[size..]
  }

  lemma Untouched(d: seq<byte>, s: seq<byte>, size: nat)
    requires size <= |d|
    ensures SameFrom(d, d, size) && Agree(d, s, 0)
  {
  }

  lemma SameFromStep(d0: seq<byte>, d1: seq<byte>, d2: seq<byte>, size: nat)
    requires SameFrom(d1, d0, size) && SameFrom(d2, d1, size)
    ensures SameFrom(d2, d0, size)
  {
  }

  /** The closing literals, where flags are no longer looked at. */
  method FinalLiterals(source: seq<byte>, last: int, destination: array<byte>, size: nat,
                       src0: nat, dst0: nat, cw0: nat, ghost s: seq<byte>, ghost c0: Cursor, ghost h: bool)
    returns (r: nat)
    requires last < |source| && dst0 <= size <= destination.Length && cw0 != 1
    requires h ==> |s| == size && last >= -1 && InSync(source[..last + 1], src0, cw0, s, dst0, c0)
    requires h ==> dst0 < size && cw0 % 2 == 0 && dst0 + 11 >= size && Agree(destination[..], s, dst0)
    modifies destination
    ensures r == 0 || r == size
    ensures SameFrom(destination[..], old(destination[..]), size)
    ensures h ==> r == size && Agree(destination[..], s, size)
  {
    hide InSync, Agree, SameFrom;
    var src: nat, dst: nat, cw: nat := src0, dst0, cw0;
    ghost var c := c0;
    ghost var data := if h then source[..last + 1] else [];
    Untouched(destination[..], s, size);
    while dst < size
      invariant dst <= size
      invariant SameFrom(destination[..], old(destination[..]), size)
      invariant h ==> InSync(data, src, cw, s, dst, c) && Agree(destination[..], s, dst)
      invariant h ==> dst + 10 >= size || (cw != 1 && cw % 2 == 0)
    {
      if h {
        c := ClosingStep(data, src, cw, s, dst, c);
      }
      if cw == 1 {
        src := src + CWORD_LEN;
        cw := SENTINEL;
      }
      if src >= last + 1 {
        return 0;
      }
      ghost var before := destination[..];
      destination[dst] := source[src];
      OneByte(before, destination[..], old(destination[..]), dst, source[src], size, s, h);
      dst := dst + 1;
      src := src + 1;
      cw := cw / 2;
    }
    return size;
  }

  /** One byte of output. */
  lemma OneByte(d0: seq<byte>, d: seq<byte>, first: seq<byte>, dst: nat, b: byte, size: nat, s: seq<byte>, h: bool)
    requires dst < size <= |d0| && d == d0[dst := b] && SameFrom(d0, first, size)
    requires h ==> |s| == size && Agree(d0, s, dst) && b == s[dst]
    ensures SameFrom(d, first, size) && (h ==> Agree(d, s, dst + 1))
  {
    assert d[size..] == d0[size..];
    if h {
      assert d[..dst + 1] == d0[..dst] + [b];
      assert s[..dst + 1] == s[..dst] + [b];
    }
  }

  lemma Start(source: seq<byte>, s: seq<byte>) returns (c: Cursor)
    requires Packet(source, s)
    ensures InSync(source[..SizeCompressed(source)], SizeHeader(source), 1, s, 0, c)
    ensures |s| > 0 && SizeHeader(source) + 9 <= SizeCompressed(source)
  {
    var payload := source[SizeHeader(source)..SizeCompressed(source)];
    var gs :| CompressedBy(payload, s, gs);
    c := Cursor([], 0, gs);
    hide SizeCompressed, SizeHeader, FieldWidth, Stream, Spells, Full, Flatten;
    assert source[..SizeCompressed(source)][SizeHeader(source)..] == payload;
    EmptyBody(Stream(gs));
    assert c.rest + Flatten(gs) == Flatten(gs);
  }

  lemma SliceWord(source: seq<byte>, n: nat)
    requires n <= |source|
    ensures forall i :: 0 <= i <= n - 4 ==> Word32(source[..n], i) == Word32(source, i)
  {
  }

  /** After a control word was loaded if due, four bytes can be fetched. */
  lemma Refill(data: seq<byte>, src: nat, cw: nat, s: seq<byte>, dst: nat, c: Cursor) returns (d: Cursor)
    requires InSync(data, src, cw, s, dst, c) && dst < |s|
    requires dst + UNCOMPRESSED_END <= |s| || (cw == 1 && src + 9 <= |data|)
    ensures cw != 1 ==> d == c && src + 4 <= |data|
    ensures cw == 1 ==>
      src + 8 <= |data| && Word32(data, src) != 1 && InSync(data, src + 4, Word32(data, src), s, dst, d)
  {
    d := c;
    if cw == 1 {
      d := NextWord(data, src, s, dst, c);
      if dst + UNCOMPRESSED_END <= |s| {
        FetchLeft(data, src + 4, s, dst, d);
      }
    } else {
      FetchLeft(data, src, s, dst, c);
    }
  }

  lemma MatchStep(data: seq<byte>, src: nat, cw: nat, s: seq<byte>, dst: nat, c: Cursor) returns (d: Cursor)
    requires InSync(data, src, cw, s, dst, c) && dst < |s| && cw % 2 == 1 && cw != 1 && src + 4 <= |data|
    ensures var f := MatchFields(Word32(data, src));
      && MIN_OFFSET + 1 <= f.0 <= dst && dst + f.1 + UNCOMPRESSED_END <= |s|
      && Repeats(s, dst, f.0, f.1)
      && InSync(data, src + f.2, cw / 2, s, dst + f.1, d)
  {
    hide InSync, MatchFields, Word32, TokenBytes, Repeats;
    var t;
    t, d := NextToken(data, src, cw, s, dst, c);
    MatchAt(data, src, t);
  }

  /** The two safety checks on a match (the second compares unsigned) and the copy. */
  method CopyMatch(destination: array<byte>, size: nat, dst: nat, offset: nat, len: nat, ghost s: seq<byte>,
    ghost h: bool)
    returns (ok: bool)
    requires size <= destination.Length && size < 0x1_0000_0000 && len >= 3
    requires dst == 0 || dst + UNCOMPRESSED_END <= size
    requires h ==> |s| == size && Agree(destination[..], s, dst)
    requires h ==> 3 <= offset <= dst && dst + len + UNCOMPRESSED_END <= size && Repeats(s, dst, offset, len)
    modifies destination
    ensures h ==> ok
    ensures ok ==> dst + len + UNCOMPRESSED_END <= size
    ensures SameFrom(destination[..], old(destination[..]), size)
    ensures h ==> Agree(destination[..], s, dst + len)
  {
    if dst - offset < 0 || dst - offset > dst - MIN_OFFSET - 1 {
      return false;
    }
    if len > (size - UNCOMPRESSED_END - dst) % 0x1_0000_0000 {
      return false;
    }
    CopyUp(destination, dst, dst - offset, len);
    if h {
      assert destination[..dst] == old(destination[..dst]);
      CopyReproduces(destination[..], s, dst, offset, len);
      assert destination[..dst + len] == destination[..][..dst + len];
    }
    return true;
  }

  /** Four bytes are copied though only n of them are literals. */
  method CopyLiterals(destination: array<byte>, size: nat, dst: nat, source: seq<byte>, src: nat, n: nat,
    ghost s: seq<byte>, ghost h: bool)
    requires dst + 4 <= size <= destination.Length && n <= 4 && src + 4 <= |source|
    requires h ==> |s| == size && Agree(destination[..], s, dst) && source[src..src + n] == s[dst..dst + n]
    modifies destination
    ensures SameFrom(destination[..], old(destination[..]), size)
    ensures h ==> Agree(destination[..], s, dst + n)
  {
    CopyIn(destination, dst, source, src, 4);
    assert destination[size..] == destination[dst + 4..][size - dst - 4..];
    if h {
      assert destination[dst..dst + n] == destination[dst..dst + 4][..n] == source[src..src + 4][..n] ==
        source[src..src + n];
      assert destination[..dst + n] == destination[..dst] + destination[dst..dst + n];
      assert s[..dst + n] == s[..dst] + s[dst..dst + n];
    }
  }

  /** Where the decoder is in a valid packet, if that is what it was given. */
  ghost predicate Decoding(h: bool, data: seq<byte>, src: nat, cw: nat, s: seq<byte>, dst: nat, c: Cursor,
    d: seq<byte>) {
    h ==> InSync(data, src, cw, s, dst, c) && Agree(d, s, dst)
  }

  /** A match: its fields are read, checked and copied. */
  method TakeMatch(source: seq<byte>, destination: array<byte>, size: nat, src0: nat, dst0: nat, cw0: nat,
                   ghost data: seq<byte>, ghost s: seq<byte>, ghost c0: Cursor, ghost h: bool)
    returns (ok: bool, src: nat, dst: nat, cw: nat, ghost c: Cursor)
    requires size <= destination.Length && size < 0x1_0000_0000 && src0 + 4 <= |source| && cw0 % 2 == 1
    requires dst0 == 0 || dst0 + UNCOMPRESSED_END <= size
    requires h ==>
      |s| == size && dst0 < size && cw0 != 1 && src0 + 4 <= |data| && Word32(data, src0) == Word32(source, src0)
    requires Decoding(h, data, src0, cw0, s, dst0, c0, destination[..])
    modifies destination
    ensures h ==> ok
    ensures ok ==>
      dst0 < dst && dst + UNCOMPRESSED_END <= size && Decoding(h, data, src, cw, s, dst, c, destination[..])
    ensures SameFrom(destination[..], old(destination[..]), size)
  {
    hide InSync, Agree, SameFrom, Repeats, MatchFields, Word32;
    var f := MatchFields(Word32(source, src0));
    c := c0;
    if h {
      c := MatchStep(data, src0, cw0, s, dst0, c0);
    }
    cw, src, dst := cw0 / 2, src0 + f.2, dst0 + f.1;
    ok := CopyMatch(destination, size, dst0, f.0, f.1, s, h);
  }

  /** Up to four literals at once. */
  method TakeLiterals(source: seq<byte>, destination: array<byte>, size: nat, src0: nat, dst0: nat, cw0: nat,
                      ghost data: seq<byte>, ghost s: seq<byte>, ghost c0: Cursor, ghost h: bool)
    returns (src: nat, dst: nat, cw: nat, ghost c: Cursor)
    requires size <= destination.Length && dst0 + 11 < size && src0 + 4 <= |source| && cw0 % 2 == 0
    requires h ==> |s| == size && |data| <= |source| && data == source[..|data|]
    requires Decoding(h, data, src0, cw0, s, dst0, c0, destination[..])
    modifies destination
    ensures dst0 < dst <= dst0 + 4 && Decoding(h, data, src, cw, s, dst, c, destination[..])
    ensures SameFrom(destination[..], old(destination[..]), size)
  {
    hide InSync, Agree, SameFrom, LowBitsClear, ShiftRight;
    var n := BITLUT[cw0 % 16];
    BitlutCounts(cw0);
    c := c0;
    if h {
      c := LiteralRun(data, src0, cw0, s, dst0, c0, n);
      TakeSlice(source, |data|, src0, src0 + n);
    }
    CopyLiterals(destination, size, dst0, source, src0, n, s, h);
    src, dst, cw := src0 + n, dst0 + n, ShiftRight(cw0, n);
  }

  method DecompressCore(source: seq<byte>, destination: array<byte>, size: nat, ghost s: seq<byte>) returns (r: nat)
    requires HeaderReadable(source) && SizeCompressed(source) <= |source|
    requires size <= destination.Length && size < 0x1_0000_0000
    modifies destination
    ensures r == 0 || r == size
    ensures SameFrom(destination[..], old(destination[..]), size)
    ensures Packet(source, s) && size == |s| ==> r == size && Agree(destination[..], s, size)
  {
    hide InSync, Packet, Agree, SameFrom, Word32, SizeHeader, SizeCompressed, FieldWidth;
    var src: nat, dst: nat, cw: nat := SizeHeader(source), 0, 1;
    var last := SizeCompressed(source) - 1;
    ghost var h, data := Packet(source, s) && size == |s|, source[..last + 1];
    ghost var c := Cursor([], 0, []);
    if h {
      c := Start(source, s);
    }
    Untouched(destination[..], s, size);
    while true
      invariant dst == 0 || dst + UNCOMPRESSED_END <= size
      invariant SameFrom(destination[..], old(destination[..]), size)
      invariant Decoding(h, data, src, cw, s, dst, c, destination[..])
      invariant h ==> dst + UNCOMPRESSED_END <= size || (dst == 0 && cw == 1 && src + 9 <= |data|)
      decreases size - dst
    {
      if h {
        c := Refill(data, src, cw, s, dst, c);
        SliceWord(source, last + 1);
      }
      if cw == 1 {
        if src + CWORD_LEN - 1 > last {
          return 0;
        }
        cw := Word32(source, src);
        src := src + CWORD_LEN;
      }
      if src + 4 - 1 > last {
        return 0;
      }
      ghost var before := destination[..];
      if cw % 2 == 1 {
        var ok;
        ok, src, dst, cw, c := TakeMatch(source, destination, size, src, dst, cw, data, s, c, h);
        SameFromStep(old(destination[..]), before, destination[..], size);
        if !ok {
          return 0;
        }
      } else if dst < size - 1 - UNCONDITIONAL_MATCHLEN - UNCOMPRESSED_END {
        src, dst, cw, c := TakeLiterals(source, destination, size, src, dst, cw, data, s, c, h);
        SameFromStep(old(destination[..]), before, destination[..], size);
      } else {
        r := FinalLiterals(source, last, destination, size, src, dst, cw, s, c, h);
        SameFromStep(old(destination[..]), before, destination[..], size);
        return;
      }
    }
  }

  /** What a whole packet stands for: a compressed payload, or the bytes themselves. */
  ghost predicate Encodes(source: seq<byte>, s: seq<byte>) {
    if HeaderReadable(source) && source[0] % 2 == 1 then Packet(source, s)
    else Stored(source, s)
  }

  ghost predicate Stored(source: seq<byte>, s: seq<byte>) {
    && HeaderReadable(source) && SizeCompressed(source) <= |source|
    && SizeHeader(source) + |s| <= |source| && SizeDecompressed(source) == |s|
    && source[SizeHeader(source)..SizeHeader(source) + |s|] == s
  }

  /** What the code copies out of a packet that is not compressed. */
  ghost function StoredText(source: seq<byte>): (t: seq<byte>)
    requires HeaderReadable(source) && SizeHeader(source) + SizeDecompressed(source) <= |source|
  {
    source[SizeHeader(source)..SizeHeader(source) + SizeDecompressed(source)]
  }

  /** How many bytes of a packet its header says there are; never fewer than the header itself. */
  function PacketLength(source: seq<byte>): nat
    requires HeaderReadable(source)
  {
    if SizeCompressed(source) < SizeHeader(source) then SizeHeader(source) else SizeCompressed(source)
  }

  lemma SameHeader(a: seq<byte>, b: seq<byte>)
    requires HeaderReadable(a) && |b| == |a| && forall i :: 0 <= i < SizeHeader(a) ==> b[i] == a[i]
    ensures HeaderReadable(b) && SizeHeader(b) == SizeHeader(a)
    ensures SizeDecompressed(b) == SizeDecompressed(a) && SizeCompressed(b) == SizeCompressed(a)
  {
  }

  /** Another memory with the same packet in it, as far as the header says. */
  ghost predicate SamePacket(a: seq<byte>, b: seq<byte>)
    requires HeaderReadable(a)
  {
    |b| == |a| && PacketLength(a) <= |a| && a[..PacketLength(a)] == b[..PacketLength(a)]
  }

  ghost predicate Differs(a: seq<byte>, b: seq<byte>)
    requires HeaderReadable(a) && SizeHeader(a) + SizeDecompressed(a) <= |a|
  {
    && SamePacket(a, b) && HeaderReadable(b) && SizeHeader(b) + SizeDecompressed(b) <= |b|
    && StoredText(b) != StoredText(a)
  }

  /**
   * A packet that is not compressed is copied without a look at its compressed size: what comes out depends on bytes
   * behind the packet exactly when the header gives a text that does not fit into the packet.
   */
  lemma StoredReadsBehind(a: seq<byte>)
    requires HeaderReadable(a) && SizeHeader(a) + SizeDecompressed(a) <= |a| && PacketLength(a) <= |a|
    ensures (exists b :: Differs(a, b)) <==> SizeHeader(a) + SizeDecompressed(a) > PacketLength(a)
  {
    hide SizeHeader, SizeDecompressed, SizeCompressed, FieldWidth;
    var n, h, e := PacketLength(a), SizeHeader(a), SizeHeader(a) + SizeDecompressed(a);
    if e > n {
      var b := a[..n] + [(a[n] as int + 1) % 256] + a[n + 1..];
      assert a[..n] == b[..n];
      forall i | 0 <= i < h
        ensures b[i] == a[i]
      {
      }
      SameHeader(a, b);
      assert StoredText(b)[n - h] == b[n] != a[n] == StoredText(a)[n - h];
      assert Differs(a, b);
    } else {
      forall b | SamePacket(a, b)
        ensures !Differs(a, b)
      {
        forall i | 0 <= i < n
          ensures b[i] == a[i]
        {
          assert a[..n][i] == b[..n][i];
        }
        SameHeader(a, b);
        assert StoredText(b) == StoredText(a);
      }
    }
  }

  /** A packet of three bytes, says its header, for a text of one byte. */
  lemma StoredTooShort()
    ensures var a: seq<byte> := [0, 3, 1, 42];
      && HeaderReadable(a) && a[0] % 2 == 0 && PacketLength(a) == 3 && SizeHeader(a) + SizeDecompressed(a) == 4
      && StoredText(a) == [42]
  {
  }

  /** On any packet the decoder stops, with all or nothing; on a packet of s it delivers s. */
  method Decompress(source: seq<byte>, destination: array<byte>, ghost s: seq<byte>) returns (r: nat)
    requires HeaderReadable(source) && SizeCompressed(source) <= |source|
    requires source[0] % 2 == 0 ==> SizeHeader(source) + SizeDecompressed(source) <= |source|
    requires SizeDecompressed(source) <= destination.Length
    modifies destination
    ensures r == 0 || r == SizeDecompressed(source)
    ensures destination[SizeDecompressed(source)..] == old(destination[SizeDecompressed(source)..])
    ensures Encodes(source, s) ==> r == |s| && destination[..r] == s
    ensures source[0] % 2 == 0 ==> r == SizeDecompressed(source) && destination[..r] == StoredText(source)
  {
    var size := SizeDecompressed(source);
    if source[0] % 2 == 1 {
      r := DecompressCore(source, destination, size, s);
    } else {
      CopyIn(destination, 0, source, SizeHeader(source), size);
      r := size;
    }
  }
}
