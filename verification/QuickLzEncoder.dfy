/** The level 3 encoder and the packet it produces. */
module QuickLzEncoder {
  import opened Bytes
  import opened QuickLzFormat
  import opened QuickLzMatcher
  import opened QuickLzGreedy
  import opened QuickLzDecoder

  /** The groups already closed and the tokens of the open one. */
  datatype Draft = Draft(groups: seq<Group>, cur: Group)

  ghost predicate AllFull(gs: seq<Group>) {
    gs == [] || (|gs[0]| == GROUP && AllFull(gs[1..]))
  }

  /** The output buffer holds the draft, but for the control word of the open group. */
  ghost predicate Written(d: seq<byte>, base: nat, cptr: nat, dst: nat, w: Draft) {
    && AllFull(w.groups)
    && cptr == |Stream(w.groups)| && dst == cptr + CWORD_LEN + |Body(w.cur)|
    && base + dst <= |d|
    && d[base..base + cptr] == Stream(w.groups)
    && d[base + cptr + CWORD_LEN..base + dst] == Body(w.cur)
  }

  ghost predicate Covers(s: seq<byte>, w: Draft, src: nat) {
    Spells(s, 0, Flatten(w.groups) + w.cur, src)
  }

  /** The encoder's control word: the flags so far above a marker bit that moves down as they come in. */
  ghost function ControlWord(cur: Group): nat {
    (1 + 2 * Flags(cur)) * Pow2(GROUP - |cur|)
  }

  lemma {:induction false} FlagsAppend(ts: seq<Token>, t: Token)
    ensures Flags(ts + [t]) == Flags(ts) + Flag(t) * Pow2(|ts|)
  {
    if ts == [] {
      assert ts + [t] == [t];
      assert Flags([t]) == Flag(t) + 2 * Flags([]);
    } else {
      assert (ts + [t])[1..] == ts[1..] + [t];
      FlagsAppend(ts[1..], t);
    }
  }

  lemma {:induction false} Pow2Add(a: nat, b: nat)
    ensures Pow2(a + b) == Pow2(a) * Pow2(b)
  {
    if a > 0 {
      Pow2Add(a - 1, b);
      Pow2Next(a + b - 1);
      Pow2Next(a - 1);
      hide Pow2;
      Distribute(Pow2(b), Pow2(a - 1));
    }
  }

  lemma Pow2Next(n: nat)
    ensures Pow2(n + 1) == 2 * Pow2(n)
  {
  }

  lemma MarkerProduct(f: nat, b: nat, k: nat, p: nat)
    requires b <= 1 && 2 * k * p == SENTINEL
    ensures (1 + 2 * (f + b * k)) * p == (1 + 2 * f) * p + b * SENTINEL
  {
    if b == 0 {
    } else {
      assert (1 + 2 * (f + k)) * p == (1 + 2 * f) * p + 2 * k * p;
    }
  }

  lemma MarkerProductIs(k: nat)
    requires k < GROUP
    ensures 2 * Pow2(k) * Pow2(GROUP - 1 - k) == SENTINEL
  {
    Pow2Add(k + 1, GROUP - 1 - k);
    Pow2Of31();
  }

  lemma ControlWordPush(cur: Group, t: Token)
    requires |cur| < GROUP
    ensures ControlWord(cur) % 2 == 0
    ensures ControlWord(cur + [t]) == ControlWord(cur) / 2 + Flag(t) * SENTINEL
  {
    hide *;
    var k, f, b := |cur|, Flags(cur), Flag(t);
    var p, q := Pow2(GROUP - 1 - k), Pow2(k);
    ControlWordOpen(cur, p);
    ControlWordThen(cur, t, p);
    FlagSmall(t);
    MarkerProductIs(k);
    MarkerProduct(f, b, q, p);
  }

  lemma ControlWordOpen(cur: Group, p: nat)
    requires |cur| < GROUP && p == Pow2(GROUP - 1 - |cur|)
    ensures ControlWord(cur) == 2 * ((1 + 2 * Flags(cur)) * p)
  {
    hide Flags, Pow2;
    Pow2Next(GROUP - 1 - |cur|);
    Distribute(1 + 2 * Flags(cur), p);
  }

  lemma ControlWordThen(cur: Group, t: Token, p: nat)
    requires |cur| < GROUP && p == Pow2(GROUP - 1 - |cur|)
    ensures ControlWord(cur + [t]) == (1 + 2 * (Flags(cur) + Flag(t) * Pow2(|cur|))) * p
  {
    hide *;
    FlagsAppend(cur, t);
    ControlWordIs(cur + [t], p, Flags(cur) + Flag(t) * Pow2(|cur|));
  }

  lemma ControlWordIs(g: Group, p: nat, f: nat)
    requires p == Pow2(GROUP - |g|) && f == Flags(g)
    ensures ControlWord(g) == (1 + 2 * f) * p
  {
    hide Flags, Pow2;
  }

  lemma Distribute(a: nat, p: nat)
    ensures a * (2 * p) == 2 * (a * p) && (2 * p) * a == 2 * (p * a)
  {
  }

  lemma FlagSmall(t: Token)
    ensures Flag(t) <= 1
  {
  }

  lemma ControlWordFull(cur: Group)
    requires |cur| == GROUP
    ensures ControlWord(cur) % 2 == 1
    ensures ControlWord(cur) / 2 == Flags(cur)
  {
    hide Flags;
    assert Pow2(0) == 1;
    hide Pow2;
  }

  lemma {:induction false} StreamAppend(gs: seq<Group>, g: Group)
    ensures Stream(gs + [g]) == Stream(gs) + GroupBytes(g)
  {
    if gs == [] {
      assert gs + [g] == [g];
      assert Stream([g]) == GroupBytes(g) + Stream([]);
    } else {
      assert (gs + [g])[1..] == gs[1..] + [g];
      StreamAppend(gs[1..], g);
    }
  }

  lemma {:induction false} FlattenAppend(gs: seq<Group>, g: Group)
    ensures Flatten(gs + [g]) == Flatten(gs) + g
  {
    if gs == [] {
      assert gs + [g] == [g];
      assert Flatten([g]) == g + Flatten([]);
    } else {
      assert (gs + [g])[1..] == gs[1..] + [g];
      FlattenAppend(gs[1..], g);
    }
  }

  lemma {:induction false} FullAppend(gs: seq<Group>, g: Group)
    requires AllFull(gs)
    ensures Full(gs + [g])
    ensures |g| == GROUP ==> AllFull(gs + [g])
  {
    if gs == [] {
      assert gs + [g] == [g];
    } else {
      assert (gs + [g])[1..] == gs[1..] + [g];
      FullAppend(gs[1..], g);
    }
  }

  lemma {:induction false} SpellsAppend(s: seq<byte>, p: nat, ts: seq<Token>, q: nat, t: Token)
    requires Spells(s, p, ts, q) && TokenAt(s, q, t)
    ensures Spells(s, p, ts + [t], q + Width(t))
    decreases |ts|
  {
    if ts == [] {
      assert ts + [t] == [t];
    } else {
      assert (ts + [t])[1..] == ts[1..] + [t];
      SpellsAppend(s, p + Width(ts[0]), ts[1..], q, t);
    }
  }

  lemma CoversPush(s: seq<byte>, w: Draft, src: nat, t: Token)
    requires Covers(s, w, src) && TokenAt(s, src, t) && |w.cur| < GROUP
    ensures Covers(s, Draft(w.groups, w.cur + [t]), src + Width(t))
  {
    SpellsAppend(s, 0, Flatten(w.groups) + w.cur, src, t);
    assert Flatten(w.groups) + w.cur + [t] == Flatten(w.groups) + (w.cur + [t]);
  }

  lemma CoversClose(s: seq<byte>, w: Draft, src: nat)
    requires Covers(s, w, src)
    ensures Covers(s, Draft(w.groups + [w.cur], []), src)
  {
    FlattenAppend(w.groups, w.cur);
    assert Flatten(w.groups + [w.cur]) + [] == Flatten(w.groups) + w.cur;
  }

  lemma BodyPush(ts: seq<Token>, t: Token)
    ensures Body(ts + [t]) == Body(ts) + TokenBytes(t)
  {
    BodyAppend(ts, [t]);
    assert Body([t]) == TokenBytes(t) + Body([]);
  }

  /** Putting a token behind the written part. */
  lemma PutToken(d0: seq<byte>, d1: seq<byte>, base: nat, cptr: nat, dst: nat, w: Draft, t: Token)
    requires Written(d0, base, cptr, dst, w) && |w.cur| < GROUP
    requires base + dst + |TokenBytes(t)| <= |d1|
    requires d1[..base + dst] == d0[..base + dst]
    requires d1[base + dst..base + dst + |TokenBytes(t)|] == TokenBytes(t)
    ensures Written(d1, base, cptr, dst + |TokenBytes(t)|, Draft(w.groups, w.cur + [t]))
  {
    hide TokenBytes, AllFull, Body, Stream;
    BodyPush(w.cur, t);
    PutBytes(d0, d1, base, base + cptr, base + cptr + CWORD_LEN, base + dst, TokenBytes(t));
  }

  /** What a region in front of the end and one up to the end become when bytes are put there. */
  lemma PutBytes(d0: seq<byte>, d1: seq<byte>, i: nat, j: nat, m: nat, k: nat, t: seq<byte>)
    requires i <= j <= m <= k <= |d0| && k + |t| <= |d1| && d1[..k] == d0[..k] && d1[k..k + |t|] == t
    ensures d1[i..j] == d0[i..j] && d1[m..k + |t|] == d0[m..k] + t
  {
    Prefixes(d0, d1, i, j, k);
    ExtendRegion(d0, d1, m, k, k + |t|);
  }

  lemma StreamClose(gs: seq<Group>, g: Group)
    ensures Stream(gs + [g]) == Stream(gs) + (Le(Flags(g) + SENTINEL, CWORD_LEN) + Body(g))
  {
    hide Le, Flags, Body;
    StreamAppend(gs, g);
  }

  /** Filling in the control word of the open group. */
  lemma PutControlWord(d0: seq<byte>, d1: seq<byte>, base: nat, cptr: nat, dst: nat, w: Draft)
    requires Written(d0, base, cptr, dst, w) && |d1| == |d0|
    requires d1[..base + cptr] == d0[..base + cptr]
    requires d1[base + cptr..base + cptr + CWORD_LEN] == Le(Flags(w.cur) + SENTINEL, CWORD_LEN)
    requires d1[base + cptr + CWORD_LEN..] == d0[base + cptr + CWORD_LEN..]
    ensures d1[base..base + dst] == Stream(w.groups + [w.cur])
  {
    hide Le, AllFull, Flags, Stream, Body, GroupBytes;
    StreamClose(w.groups, w.cur);
    var m := base + cptr + CWORD_LEN;
    FillGap(d0, d1, base, base + cptr, m, base + dst);
  }

  lemma OpenGroup(d: seq<byte>, base: nat, cptr: nat, dst: nat, w: Draft)
    requires AllFull(w.groups) && |w.cur| == GROUP
    requires base + dst + CWORD_LEN <= |d|
    requires d[base..base + dst] == Stream(w.groups + [w.cur])
    ensures Written(d, base, dst, dst + CWORD_LEN, Draft(w.groups + [w.cur], []))
  {
    hide Stream;
    FullAppend(w.groups, w.cur);
  }

  /** fast_write: stores the low n bytes of a word. */
  method StoreWord(destination: array<byte>, pos: nat, v: nat, n: nat)
    requires 1 <= n <= 4 && pos + n <= destination.Length
    modifies destination
    ensures destination[..pos] == old(destination[..pos])
    ensures destination[pos..pos + n] == Le(v, n)
    ensures destination[pos + n..] == old(destination[pos + n..])
  {
    destination[pos] := v % 256;
    if n >= 2 {
      destination[pos + 1] := v / 0x100 % 256;
    }
    if n >= 3 {
      destination[pos + 2] := v / 0x1_0000 % 256;
    }
    if n >= 4 {
      destination[pos + 3] := v / 0x100_0000 % 256;
    }
    Le1(v);
    Le2(v);
    Le3(v);
    Le4(v);
  }

  /** Writes a match in the encoding its offset and length call for. */
  method EmitMatch(destination: array<byte>, pos: nat, offset: nat, len: nat) returns (n: nat)
    requires 3 <= offset < MAX_OFFSET && 3 <= len <= 255 && pos + 4 <= destination.Length
    modifies destination
    ensures 1 <= n <= 4 && n <= len && n == |TokenBytes(Match(offset, len))|
    ensures destination[..pos] == old(destination[..pos])
    ensures destination[pos..pos + n] == TokenBytes(Match(offset, len))
  {
    hide Le;
    if len == 3 && offset <= 63 {
      destination[pos] := 4 * offset;
      Le1(4 * offset);
      n := 1;
    } else if len == 3 && offset <= 16383 {
      StoreWord(destination, pos, 4 * offset + 1, 2);
      n := 2;
    } else if len <= 18 && offset <= 1023 {
      StoreWord(destination, pos, 4 * (len - 3 + 16 * offset) + 2, 2);
      n := 2;
    } else if len <= 33 {
      StoreWord(destination, pos, 4 * (len - 2 + 32 * offset) + 3, 3);
      n := 3;
    } else {
      StoreWord(destination, pos, 4 * (32 * (len - 3 + 256 * offset)) + 3, 4);
      n := 4;
    }
  }

  // ----- Size accounting -----

  /**
   * g groups are closed, k tokens are in the open one, which began at source position `start`.  Each
   * token takes no more bytes than it stands for, and at most four.
   */
  ghost predicate Accounted(size: nat, src: nat, dst: nat, g: nat, k: nat, start: nat) {
    && 31 * g + k <= src <= size
    && 31 * g <= start <= src
    && dst <= src + 4 + 4 * g
    && k <= GROUP
    && (start <= size / 2 ==> dst <= start + 4 * g + 4 + 4 * k)
    && (start > size / 2 ==> dst <= src + 4)
  }

  lemma AccountToken(size: nat, src: nat, dst: nat, g: nat, k: nat, start: nat, width: nat, n: nat)
    requires Accounted(size, src, dst, g, k, start) && k < GROUP
    requires 1 <= n <= 4 && n <= width && src + width <= size
    ensures Accounted(size, src + width, dst + n, g, k + 1, start)
  {
  }

  /** The ratio check at a group boundary keeps the second half from growing. */
  lemma AccountGroup(size: nat, src: nat, dst: nat, g: nat, start: nat)
    requires Accounted(size, src, dst, g, GROUP, start)
    requires !(src > size / 2 && dst > src - src / 32)
    ensures Accounted(size, src, dst + 4, g + 1, 0, src)
  {
  }

  /** However the encoder got here, the output is little longer than the input. */
  lemma AccountedBound(size: nat, src: nat, dst: nat, g: nat, k: nat, start: nat)
    requires Accounted(size, src, dst, g, k, start)
    ensures dst <= size + 132
    ensures size < 216 ==> dst <= src + 28
  {
  }

  // ----- The encoder -----

  /** The output so far spells s[..src], and the control word agrees with the open group. */
  ghost predicate Encoding(s: seq<byte>, d: seq<byte>, base: nat, src: nat, cptr: nat, dst: nat, cw: nat, w: Draft) {
    Written(d, base, cptr, dst, w) && Covers(s, w, src) && cw == ControlWord(w.cur)
  }

  lemma OddWhenFull(cur: Group)
    ensures ControlWord(cur) % 2 == 1 <==> |cur| == GROUP
    ensures |cur| == GROUP ==> ControlWord(cur) / 2 == Flags(cur)
  {
    if |cur| < GROUP {
      ControlWordPush(cur, Lit(0));
    } else {
      ControlWordFull(cur);
    }
  }

  lemma EncodingOdd(s: seq<byte>, d: seq<byte>, base: nat, src: nat, cptr: nat, dst: nat, cw: nat, w: Draft)
    requires Encoding(s, d, base, src, cptr, dst, cw, w)
    ensures cw % 2 == 1 <==> |w.cur| == GROUP
  {
    OddWhenFull(w.cur);
  }

  lemma EncodingToken(s: seq<byte>, d0: seq<byte>, d1: seq<byte>, base: nat, src: nat, cptr: nat, dst: nat, cw: nat,
    w: Draft, t: Token)
    requires Encoding(s, d0, base, src, cptr, dst, cw, w) && |w.cur| < GROUP && TokenAt(s, src, t)
    requires base + dst + |TokenBytes(t)| <= |d1|
    requires d1[..base + dst] == d0[..base + dst]
    requires d1[base + dst..base + dst + |TokenBytes(t)|] == TokenBytes(t)
    ensures Encoding(s, d1, base, src + Width(t), cptr, dst + |TokenBytes(t)|, cw / 2 + Flag(t) * SENTINEL,
      Draft(w.groups, w.cur + [t]))
  {
    hide Written, Covers, ControlWord, TokenBytes;
    PutToken(d0, d1, base, cptr, dst, w, t);
    CoversPush(s, w, src, t);
    ControlWordPush(w.cur, t);
  }

  method PutLiteral(destination: array<byte>, base: nat, s: seq<byte>, src: nat, cptr: nat, dst: nat, cw: nat,
    ghost w: Draft)
    returns (cw': nat, ghost w': Draft)
    requires src < |s| && base + dst < destination.Length
    requires Encoding(s, destination[..], base, src, cptr, dst, cw, w) && |w.cur| < GROUP
    modifies destination
    ensures Encoding(s, destination[..], base, src + 1, cptr, dst + 1, cw', w')
    ensures w' == Draft(w.groups, w.cur + [Lit(s[src])])
  {
    hide Encoding;
    destination[base + dst] := s[src];
    cw' := cw / 2;
    w' := Draft(w.groups, w.cur + [Lit(s[src])]);
    EncodingToken(s, old(destination[..]), destination[..], base, src, cptr, dst, cw, w, Lit(s[src]));
  }

  method PutMatch(destination: array<byte>, base: nat, s: seq<byte>, src: nat, cptr: nat, dst: nat, cw: nat,
    ghost w: Draft, offset: nat, len: nat)
    returns (n: nat, cw': nat, ghost w': Draft)
    requires 3 <= offset < MAX_OFFSET && 3 <= len <= 255 && base + dst + 4 <= destination.Length
    requires TokenAt(s, src, Match(offset, len))
    requires Encoding(s, destination[..], base, src, cptr, dst, cw, w) && |w.cur| < GROUP
    modifies destination
    ensures 1 <= n <= 4 && n <= len
    ensures Encoding(s, destination[..], base, src + len, cptr, dst + n, cw', w')
    ensures w' == Draft(w.groups, w.cur + [Match(offset, len)])
  {
    hide Encoding, Repeats, TokenBytes, MatchWord, Le;
    cw' := cw / 2 + SENTINEL;
    n := EmitMatch(destination, base + dst, offset, len);
    w' := Draft(w.groups, w.cur + [Match(offset, len)]);
    EncodingToken(s, old(destination[..]), destination[..], base, src, cptr, dst, cw, w, Match(offset, len));
  }

  lemma EncodingClose(s: seq<byte>, d0: seq<byte>, d1: seq<byte>, base: nat, src: nat, cptr: nat, dst: nat, cw: nat,
    w: Draft)
    requires Encoding(s, d0, base, src, cptr, dst, cw, w) && |w.cur| == GROUP && |d1| == |d0|
    requires base + dst + CWORD_LEN <= |d1| && base + cptr + CWORD_LEN <= |d1|
    requires d1[..base + cptr] == d0[..base + cptr]
    requires d1[base + cptr..base + cptr + CWORD_LEN] == Le(cw / 2 + SENTINEL, CWORD_LEN)
    requires d1[base + cptr + CWORD_LEN..] == d0[base + cptr + CWORD_LEN..]
    ensures Encoding(s, d1, base, src, dst, dst + CWORD_LEN, SENTINEL, Draft(w.groups + [w.cur], []))
  {
    hide Covers, Le, ControlWord;
    OddWhenFull(w.cur);
    EncodingWritten(d0, base, cptr, dst, w);
    hide Written;
    PutControlWord(d0, d1, base, cptr, dst, w);
    OpenGroup(d1, base, cptr, dst, w);
    CoversClose(s, w, src);
    FreshControlWord();
  }

  lemma EncodingWritten(d: seq<byte>, base: nat, cptr: nat, dst: nat, w: Draft)
    requires Written(d, base, cptr, dst, w)
    ensures AllFull(w.groups) && cptr + CWORD_LEN <= dst && base + dst <= |d|
  {
  }

  lemma FreshControlWord()
    ensures ControlWord([]) == SENTINEL
  {
    Pow2Of31();
    hide Pow2;
  }

  method CloseGroup(destination: array<byte>, base: nat, ghost s: seq<byte>, ghost src: nat, cptr: nat, dst: nat,
    cw: nat, ghost w: Draft)
    returns (ghost w': Draft)
    requires base + dst + CWORD_LEN <= destination.Length && cptr + CWORD_LEN <= dst
    requires Encoding(s, destination[..], base, src, cptr, dst, cw, w) && |w.cur| == GROUP
    modifies destination
    ensures Encoding(s, destination[..], base, src, dst, dst + CWORD_LEN, SENTINEL, w')
    ensures w' == Draft(w.groups + [w.cur], [])
  {
    hide Encoding;
    StoreWord(destination, base + cptr, cw / 2 + SENTINEL, CWORD_LEN);
    w' := Draft(w.groups + [w.cur], []);
    EncodingClose(s, old(destination[..]), destination[..], base, src, cptr, dst, cw, w);
  }

  method InsertRange(s: seq<byte>, src: nat, len: nat, state: CompressState)
    requires src + len + 2 <= |s| && len >= 1 && Remembers(state, s, src + 1)
    modifies state.offset, state.counter
    ensures Remembers(state, s, src + len)
  {
    hide Remembers;
    var u := 1;
    while u < len
      invariant 1 <= u <= len && Remembers(state, s, src + u)
    {
      InsertAt(s, src + u, state);
      u := u + 1;
    }
  }

  lemma BestIsToken(s: seq<byte>, src: nat, row: seq<int>, o: int, m: nat)
    requires src + UNCONDITIONAL_MATCHLEN + UNCOMPRESSED_END < |s| && Best(s, src, row, o, m)
    requires m > 0 && src - o < MAX_OFFSET
    ensures 3 <= src - o && 3 <= m <= 255 && src + m + UNCOMPRESSED_END <= |s|
    ensures TokenAt(s, src, Match(src - o, m))
  {
    LengthRepeats(s, src, o);
  }

  /** The flags of an unfinished group are moved down until the marker bit is at the bottom. */
  method MoveDown(cw0: nat, ghost marked: nat, ghost k0: nat) returns (cw: nat)
    requires cw0 == marked * Pow2(k0) && marked % 2 == 1
    ensures cw == marked
  {
    cw := cw0;
    ghost var k := k0;
    while cw % 2 != 1
      invariant cw == marked * Pow2(k) && cw > 0
      decreases cw
    {
      HalfMarked(marked, k);
      cw := cw / 2;
      k := k - 1;
    }
    OddMarked(marked, k);
  }

  /** The ending: the last control word is stored. */
  method Finish(destination: array<byte>, base: nat, s: seq<byte>, cptr: nat, dst: nat, cw0: nat, ghost w: Draft)
    requires base + dst <= destination.Length && cptr + CWORD_LEN <= dst
    requires Encoding(s, destination[..], base, |s|, cptr, dst, cw0, w)
    modifies destination
    ensures CompressedBy(destination[base..base + dst], s, w.groups + [w.cur])
  {
    hide Flags, Stream, Spells, Written, Body, Le, Pow2;
    var cw := MoveDown(cw0, 1 + 2 * Flags(w.cur), GROUP - |w.cur|);
    StoreWord(destination, base + cptr, cw / 2 + SENTINEL, CWORD_LEN);
    PutControlWord(old(destination[..]), destination[..], base, cptr, dst, w);
    WrittenFull(old(destination[..]), base, cptr, dst, w);
    FlattenAppend(w.groups, w.cur);
  }

  lemma WrittenFull(d: seq<byte>, base: nat, cptr: nat, dst: nat, w: Draft)
    requires Written(d, base, cptr, dst, w)
    ensures Full(w.groups + [w.cur])
  {
    FullAppend(w.groups, w.cur);
  }

  lemma HalfMarked(a: nat, k: nat)
    requires a % 2 == 1 && a * Pow2(k) % 2 != 1
    ensures k > 0
    ensures a * Pow2(k) / 2 == a * Pow2(k - 1) && a * Pow2(k - 1) < a * Pow2(k)
  {
    if k > 0 {
      Distribute(a, Pow2(k - 1));
    }
  }

  lemma OddMarked(a: nat, k: nat)
    requires a * Pow2(k) % 2 == 1
    ensures a * Pow2(k) == a
  {
    if k > 0 {
      Distribute(a, Pow2(k - 1));
    }
  }

  ghost predicate Progress(s: seq<byte>, d: seq<byte>, base: nat, src: nat, cptr: nat, dst: nat, cw: nat, w: Draft,
    start: nat) {
    Encoding(s, d, base, src, cptr, dst, cw, w) && Accounted(|s|, src, dst, |w.groups|, |w.cur|, start)
  }

  /** Looks for a match, and remembers the position. */
  method FindAndInsert(s: seq<byte>, src: nat, state: CompressState) returns (o: int, m: nat)
    requires src + UNCONDITIONAL_MATCHLEN + UNCOMPRESSED_END < |s| && Remembers(state, s, src)
    modifies state.offset, state.counter
    ensures Remembers(state, s, src + 1)
    ensures m > 2 && src - o < MAX_OFFSET ==>
      3 <= src - o && 3 <= m <= 255 && src + m + UNCOMPRESSED_END <= |s| && TokenAt(s, src, Match(src - o, m))
    ensures Greedy(s, src, if m > 2 && src - o < MAX_OFFSET then Match(src - o, m) else Lit(s[src]))
  {
    hide Best, Fetch3, CompressState.Row, TokenAt, Remembers, Greedy, Visible, Hash;
    RemembersValid(state, s, src);
    RemembersTables(state, s, src);
    var hash := Hash(Fetch3(s, src));
    o, m := FindMatch(s, src, state, hash);
    RowIsVisible(state, s, src);
    InsertAt(s, src, state);
    if m > 2 && src - o < MAX_OFFSET {
      BestIsToken(s, src, Visible(s, src), o, m);
    }
    GreedyFrom(s, src, o, m);
  }

  lemma RemembersTables(state: CompressState, s: seq<byte>, p: nat)
    requires Remembers(state, s, p)
    ensures state.offset.Length0 == HASH_VALUES && state.offset.Length1 == SLOTS && state.counter.Length == HASH_VALUES
  {
    hide RowIs;
  }

  /** What a search finds gives the greedy token. */
  lemma GreedyFrom(s: seq<byte>, p: nat, o: int, m: nat)
    requires p + UNCONDITIONAL_MATCHLEN + UNCOMPRESSED_END < |s| && Best(s, p, Visible(s, p), o, m)
    requires m > 2 && p - o < MAX_OFFSET ==> 3 <= p - o && 3 <= m <= 255 && o >= 0
    ensures Greedy(s, p, if m > 2 && p - o < MAX_OFFSET then Match(p - o, m) else Lit(s[p]))
  {
    hide Best, Visible;
    if !(m > 2 && p - o < MAX_OFFSET) {
      forall q: int, n: nat | Best(s, p, Visible(s, p), q, n) && n > 2
        ensures p - q >= MAX_OFFSET
      {
        BestOnce(s, p, Visible(s, p), q, n, o, m);
      }
    }
  }

  /** The tokens of a draft. */
  ghost function Tokens(w: Draft): seq<Token> { Flatten(w.groups) + w.cur }

  /** They are the greedy tokens of the input up to src; only the last full group can have made the encoder give up. */
  ghost predicate Parsing(s: seq<byte>, src: nat, w: Draft) {
    && GreedyParse(s, Tokens(w)) && Extent(Tokens(w)) == src
    && |Tokens(w)| == GROUP * |w.groups| + |w.cur| && NotBefore(s, GROUP * |w.groups| + 1)
  }

  lemma ParsingFirst(s: seq<byte>)
    ensures Parsing(s, 0, Draft([], []))
  {
    NotBeforeFirst(s);
  }

  lemma ParsingToken(s: seq<byte>, src: nat, w: Draft, t: Token)
    requires src + UNCONDITIONAL_MATCHLEN + UNCOMPRESSED_END < |s| && |w.cur| < GROUP
    requires Greedy(s, src, t) && Parsing(s, src, w)
    ensures Parsing(s, src + Width(t), Draft(w.groups, w.cur + [t]))
  {
    hide Greedy, GreedyParse, NotBefore, Flatten, Extent;
    var ts := Tokens(w);
    assert Tokens(Draft(w.groups, w.cur + [t])) == ts + [t];
    ParseMore(s, ts, t);
    ExtentMore(ts, t);
  }

  /** The output for full groups has the size that counts for giving up. */
  lemma FullSize(d: seq<byte>, base: nat, cptr: nat, dst: nat, w: Draft)
    requires Written(d, base, cptr, dst, w) && |w.cur| == GROUP && |Tokens(w)| == GROUP * |w.groups| + |w.cur|
    ensures dst == Size(Tokens(w))
  {
    hide Body, Stream, Flatten;
    StreamSize(w.groups);
    BodyAppend(Flatten(w.groups), w.cur);
    assert |Tokens(w)| / GROUP == |w.groups| + 1;
  }

  lemma {:induction false} StreamSize(gs: seq<Group>)
    ensures |Stream(gs)| == CWORD_LEN * |gs| + |Body(Flatten(gs))|
  {
    hide GroupBytes, Body;
    if gs != [] {
      StreamSize(gs[1..]);
      BodyAppend(gs[0], Flatten(gs[1..]));
      GroupSize(gs[0]);
    } else {
      NoBody();
    }
  }

  lemma GroupSize(g: Group)
    ensures |GroupBytes(g)| == CWORD_LEN + |Body(g)|
  {
  }

  lemma NoBody()
    ensures Body([]) == []
  {
  }

  lemma ParsingClosed(s: seq<byte>, src: nat, w: Draft)
    requires Parsing(s, src, w) && |w.cur| == GROUP && !GivesUpAt(s, Tokens(w))
    ensures Parsing(s, src, Draft(w.groups + [w.cur], []))
  {
    hide GreedyParse, NotBefore, GivesUpAt, Extent;
    FlattenAppend(w.groups, w.cur);
    hide Flatten;
    var v := Draft(w.groups + [w.cur], []);
    assert Tokens(v) == Tokens(w);
    NotHere(s, Tokens(w), GROUP * |w.groups| + 1);
  }

  lemma GivesUpIff(s: seq<byte>, src: nat, dst: nat, w: Draft)
    requires Parsing(s, src, w) && |w.cur| == GROUP && dst == Size(Tokens(w))
    requires src + UNCONDITIONAL_MATCHLEN + UNCOMPRESSED_END < |s|
    ensures GivesUpAt(s, Tokens(w)) <==> src > |s| / 2 && dst > src - src / 32
  {
    hide GreedyParse, NotBefore, Extent, Size, Flatten;
  }

  /** One turn of the main loop: a match if there is one near enough, else a literal. */
  method EncodeNext(s: seq<byte>, destination: array<byte>, base: nat, state: CompressState, src: nat, cptr: nat,
    dst: nat, cw: nat, ghost w: Draft, ghost start: nat)
    returns (src': nat, dst': nat, cw': nat, ghost w': Draft)
    requires src + UNCONDITIONAL_MATCHLEN + UNCOMPRESSED_END < |s| && base <= 9 && |s| + 400 <= destination.Length
    requires Remembers(state, s, src) && destination != state.counter
    requires Progress(s, destination[..], base, src, cptr, dst, cw, w, start) && |w.cur| < GROUP
    modifies destination, state.offset, state.counter
    ensures src < src' && src' + UNCOMPRESSED_END <= |s| && Remembers(state, s, src')
    ensures Progress(s, destination[..], base, src', cptr, dst', cw', w', start)
    ensures w'.groups == w.groups && |w'.cur| == |w.cur| + 1 && w'.cur[..|w.cur|] == w.cur
    ensures Greedy(s, src, w'.cur[|w.cur|]) && src' == src + Width(w'.cur[|w.cur|])
  {
    hide Encoding, Accounted, TokenAt, Remembers, Greedy;
    AccountedBound(|s|, src, dst, |w.groups|, |w.cur|, start);
    var o, m := FindAndInsert(s, src, state);
    if m > 2 && src - o < MAX_OFFSET {
      InsertRange(s, src, m, state);
      var n;
      n, cw', w' := PutMatch(destination, base, s, src, cptr, dst, cw, w, src - o, m);
      src', dst' := src + m, dst + n;
    } else {
      cw', w' := PutLiteral(destination, base, s, src, cptr, dst, cw, w);
      src', dst' := src + 1, dst + 1;
    }
    AccountToken(|s|, src, dst, |w.groups|, |w.cur|, start, src' - src, dst' - dst);
  }

  /** A full group is closed and the next one opened, unless the data has not shrunk enough by then. */
  method TurnGroup(s: seq<byte>, destination: array<byte>, base: nat, src: nat, cptr0: nat, dst0: nat, cw0: nat,
    ghost w0: Draft, ghost start0: nat)
    returns (ok: bool, cptr: nat, dst: nat, cw: nat, ghost w: Draft, ghost start: nat)
    requires base <= 9 && |s| + 400 <= destination.Length
    requires Progress(s, destination[..], base, src, cptr0, dst0, cw0, w0, start0) && Parsing(s, src, w0)
    requires src + UNCONDITIONAL_MATCHLEN + UNCOMPRESSED_END < |s|
    modifies destination
    ensures !ok ==> cw0 % 2 == 1 && src > |s| / 2 && dst0 > src - src / 32 && GivesUp(s)
    ensures ok ==> Progress(s, destination[..], base, src, cptr, dst, cw, w, start) && |w.cur| < GROUP
    ensures ok ==> Parsing(s, src, w)
  {
    hide Encoding, Accounted, Parsing, GivesUpAt, Written, Tokens;
    ok, cptr, dst, cw, w, start := true, cptr0, dst0, cw0, w0, start0;
    AccountedBound(|s|, src, dst, |w.groups|, |w.cur|, start);
    EncodingOdd(s, destination[..], base, src, cptr, dst, cw, w);
    EncodingRoom(s, destination[..], base, src, cptr, dst, cw, w);
    if cw % 2 == 1 {
      TestMeans(s, destination[..], base, src, cptr, dst, cw, w);
      if src > |s| / 2 && dst > src - src / 32 {
        ok := false;
        return;
      }
      AccountGroup(|s|, src, dst, |w.groups|, start);
      ParsingClosed(s, src, w);
      w := CloseGroup(destination, base, s, src, cptr, dst, cw, w);
      cptr, dst, cw, start := dst, dst + CWORD_LEN, SENTINEL, src;
    }
  }

  /** The test at the end of a group. */
  lemma TestMeans(s: seq<byte>, d: seq<byte>, base: nat, src: nat, cptr: nat, dst: nat, cw: nat, w: Draft)
    requires Encoding(s, d, base, src, cptr, dst, cw, w) && Parsing(s, src, w) && |w.cur| == GROUP
    requires src + UNCONDITIONAL_MATCHLEN + UNCOMPRESSED_END < |s|
    ensures GivesUpAt(s, Tokens(w)) <==> src > |s| / 2 && dst > src - src / 32
  {
    hide GivesUpAt, Covers, ControlWord, GreedyParse, Size;
    FullSize(d, base, cptr, dst, w);
    hide Written;
    GivesUpIff(s, src, dst, w);
  }

  /** The main loop; it gives up when the output is not clearly smaller past the middle of the data. */
  method EncodeMost(s: seq<byte>, destination: array<byte>, base: nat, state: CompressState)
    returns (ok: bool, src: nat, cptr: nat, dst: nat, cw: nat, ghost w: Draft, ghost start: nat)
    requires |s| > 0 && base <= 9 && |s| + 400 <= destination.Length
    requires Remembers(state, s, 0) && destination != state.counter
    modifies destination, state.offset, state.counter
    ensures ok <==> !GivesUp(s)
    ensures ok ==>
      Progress(s, destination[..], base, src, cptr, dst, cw, w, start) && Parsing(s, src, w) &&
      src + UNCONDITIONAL_MATCHLEN + UNCOMPRESSED_END >= |s|
  {
    hide Progress, Parsing, Remembers, GivesUp, Greedy;
    src, cptr, dst, cw, ok := 0, 0, CWORD_LEN, SENTINEL, true;
    w, start := Draft([], []), 0;
    FirstProgress(s, destination[..], base);
    ParsingFirst(s);
    while src + UNCONDITIONAL_MATCHLEN + UNCOMPRESSED_END < |s|
      invariant Progress(s, destination[..], base, src, cptr, dst, cw, w, start) && Parsing(s, src, w)
      invariant Remembers(state, s, src)
      decreases |s| - src
    {
      ok, cptr, dst, cw, w, start := TurnGroup(s, destination, base, src, cptr, dst, cw, w, start);
      if !ok {
        return;
      }
      ghost var v, at := w, src;
      src, dst, cw, w := EncodeNext(s, destination, base, state, src, cptr, dst, cw, w, start);
      ParsingToken(s, at, v, w.cur[|v.cur|]);
      assert w == Draft(v.groups, v.cur + [w.cur[|v.cur|]]);
    }
    EncodedAll(s, destination[..], base, src, cptr, dst, cw, w, start);
  }

  /** Past the last place for a match it is too late to give up. */
  lemma EncodedAll(s: seq<byte>, d: seq<byte>, base: nat, src: nat, cptr: nat, dst: nat, cw: nat, w: Draft, start: nat)
    requires Progress(s, d, base, src, cptr, dst, cw, w, start) && Parsing(s, src, w)
    requires src + UNCONDITIONAL_MATCHLEN + UNCOMPRESSED_END >= |s|
    ensures !GivesUp(s)
  {
    hide Encoding, GreedyParse, NotBefore, GivesUp, Extent, Flatten;
    EncodingRoom(s, d, base, src, cptr, dst, cw, w);
    NeverGivesUp(s, Tokens(w), GROUP * |w.groups| + 1);
  }

  lemma EncodingRoom(s: seq<byte>, d: seq<byte>, base: nat, src: nat, cptr: nat, dst: nat, cw: nat, w: Draft)
    requires Encoding(s, d, base, src, cptr, dst, cw, w)
    ensures cptr + CWORD_LEN <= dst && base + dst <= |d| && |w.cur| <= GROUP
  {
  }

  lemma FirstProgress(s: seq<byte>, d: seq<byte>, base: nat)
    requires base + CWORD_LEN <= |d|
    ensures Progress(s, d, base, 0, 0, CWORD_LEN, SENTINEL, Draft([], []), 0)
  {
    Pow2Of31();
    assert d[base..base] == [] && d[base + CWORD_LEN..base + CWORD_LEN] == [];
  }

  /** The closing literals, with their group changes. */
  method EncodeRest(s: seq<byte>, destination: array<byte>, base: nat, src0: nat, cptr0: nat, dst0: nat, cw0: nat,
    ghost w0: Draft)
    returns (cptr: nat, dst: nat, cw: nat, ghost w: Draft)
    requires src0 <= |s| <= src0 + UNCONDITIONAL_MATCHLEN + UNCOMPRESSED_END
    requires base + dst0 + 50 <= destination.Length
    requires Encoding(s, destination[..], base, src0, cptr0, dst0, cw0, w0)
    requires 31 * |w0.groups| + |w0.cur| <= src0 && dst0 <= src0 + 4 + 4 * |w0.groups|
    modifies destination
    ensures Encoding(s, destination[..], base, |s|, cptr, dst, cw, w)
    ensures Tokens(w) == Tokens(w0) + Literals(s[src0..])
    ensures dst <= dst0 + 50 && dst <= |s| + 4 + 4 * |w.groups| && 31 * |w.groups| <= |s|
  {
    hide Encoding, Literals, Tokens;
    var src := src0;
    cptr, dst, cw, w := cptr0, dst0, cw0, w0;
    NoLiterals(s, src, Tokens(w));
    while src < |s|
      invariant src0 <= src <= |s| && Tokens(w) == Tokens(w0) + Literals(s[src0..src])
      invariant Encoding(s, destination[..], base, src, cptr, dst, cw, w)
      invariant dst <= dst0 + 5 * (src - src0)
      invariant 31 * |w.groups| + |w.cur| <= src && dst <= src + 4 + 4 * |w.groups|
    {
      EncodingOdd(s, destination[..], base, src, cptr, dst, cw, w);
      EncodingRoom(s, destination[..], base, src, cptr, dst, cw, w);
      if cw % 2 == 1 {
        TokensClosed(w);
        w := CloseGroup(destination, base, s, src, cptr, dst, cw, w);
        cptr, dst, cw := dst, dst + CWORD_LEN, SENTINEL;
      }
      TokensLiteral(w, s[src]);
      LiteralsMore(s, src0, src, Tokens(w0));
      cw, w := PutLiteral(destination, base, s, src, cptr, dst, cw, w);
      src, dst := src + 1, dst + 1;
    }
    assert s[src0..src] == s[src0..];
  }

  ghost function Literals(b: seq<byte>): (ts: seq<Token>) {
    if b == [] then [] else Literals(b[..|b| - 1]) + [Lit(b[|b| - 1])]
  }

  lemma NoLiterals(s: seq<byte>, p: nat, ts: seq<Token>)
    requires p <= |s|
    ensures ts + Literals(s[p..p]) == ts
  {
  }

  lemma LiteralsMore(s: seq<byte>, i: nat, j: nat, ts: seq<Token>)
    requires i <= j < |s|
    ensures ts + Literals(s[i..j + 1]) == ts + Literals(s[i..j]) + [Lit(s[j])]
  {
    assert s[i..j + 1][..j - i] == s[i..j];
  }

  lemma TokensClosed(w: Draft)
    requires |w.cur| == GROUP
    ensures Tokens(Draft(w.groups + [w.cur], [])) == Tokens(w)
  {
    FlattenAppend(w.groups, w.cur);
  }

  lemma TokensLiteral(w: Draft, b: byte)
    requires |w.cur| < GROUP
    ensures Tokens(Draft(w.groups, w.cur + [Lit(b)])) == Tokens(w) + [Lit(b)]
  {
  }

  /** The payload has the greedy tokens of the input up to its last ten bytes, or fewer, and then literals. */
  ghost predicate Packed(data: seq<byte>, s: seq<byte>) {
    exists gs, ts :: PackedBy(data, s, gs, ts)
  }

  ghost predicate PackedBy(data: seq<byte>, s: seq<byte>, gs: seq<Group>, ts: seq<Token>) {
    && GreedyParse(s, ts) && Extent(ts) <= |s| <= Extent(ts) + 10
    && Flatten(gs) == ts + Literals(s[Extent(ts)..]) && CompressedBy(data, s, gs)
  }

  /** qlz_compress_core: 0 if it gives up, and else the size of the payload. */
  method CompressCore(s: seq<byte>, destination: array<byte>, base: nat, state: CompressState) returns (r: nat)
    requires |s| > 0 && base <= 9 && |s| + 400 <= destination.Length
    requires Remembers(state, s, 0) && destination != state.counter
    modifies destination, state.offset, state.counter
    ensures r == 0 <==> GivesUp(s)
    ensures r != 0 ==> 9 <= r <= |s| + 391 && (|s| < 216 ==> r <= 252)
    ensures r != 0 ==> base + r <= destination.Length && Packed(destination[base..base + r], s)
  {
    hide Encoding, Remembers, Parsing, GivesUp, Packed, Tokens, Literals;
    var ok, src, cptr, dst, cw;
    ghost var w, start;
    ok, src, cptr, dst, cw, w, start := EncodeMost(s, destination, base, state);
    if !ok {
      return 0;
    }
    ghost var v, at := w, src;
    Inside(s, destination[..], base, src, cptr, dst, cw, w, start);
    AccountedBound(|s|, src, dst, |w.groups|, |w.cur|, start);
    cptr, dst, cw, w := EncodeRest(s, destination, base, src, cptr, dst, cw, w);
    EncodingRoom(s, destination[..], base, |s|, cptr, dst, cw, w);
    Finish(destination, base, s, cptr, dst, cw, w);
    r := if dst < 9 then 9 else dst;
    Padded(destination[..], base, dst, r, s, at, v, w);
  }

  lemma Inside(s: seq<byte>, d: seq<byte>, base: nat, src: nat, cptr: nat, dst: nat, cw: nat, w: Draft, start: nat)
    requires Progress(s, d, base, src, cptr, dst, cw, w, start)
    ensures Encoding(s, d, base, src, cptr, dst, cw, w) && Accounted(|s|, src, dst, |w.groups|, |w.cur|, start)
  {
    hide Encoding;
  }

  lemma Padded(d: seq<byte>, base: nat, dst: nat, r: nat, s: seq<byte>, src: nat, v: Draft, w: Draft)
    requires base + dst <= base + r <= |d| && CompressedBy(d[base..base + dst], s, w.groups + [w.cur])
    requires Parsing(s, src, v) && src <= |s| <= src + UNCONDITIONAL_MATCHLEN + UNCOMPRESSED_END
    requires Tokens(w) == Tokens(v) + Literals(s[src..])
    ensures Packed(d[base..base + r], s)
  {
    hide Spells, GreedyParse, Literals, Extent, NotBefore, Full;
    FlattenAppend(w.groups, w.cur);
    hide Flatten;
    assert d[base..base + dst] == d[base..base + r][..dst];
    assert CompressedBy(d[base..base + r], s, w.groups + [w.cur]);
    hide CompressedBy;
    assert PackedBy(d[base..base + r], s, w.groups + [w.cur], Tokens(v));
  }

  lemma PackedIsCompressed(data: seq<byte>, s: seq<byte>)
    requires Packed(data, s)
    ensures Compressed(data, s)
  {
    hide CompressedBy, GreedyParse, Literals;
    var gs, ts :| PackedBy(data, s, gs, ts);
    assert CompressedBy(data, s, gs);
  }

  const MAX_SOURCE := 0xffffffff - 400

  /** First byte of a packet: level 3, no streaming buffer, field width and compressed flag. */
  function HeaderByte(wide: bool, compressed: bool): byte {
    64 + 12 + (if wide then 2 else 0) + (if compressed then 1 else 0)
  }

  ghost function HeaderBytes(base: nat, compressed: bool, r: nat, size: nat): seq<byte> {
    if base == 3 then [HeaderByte(false, compressed), r % 256, size % 256]
    else [HeaderByte(true, compressed)] + Le(r, 4) + Le(size, 4)
  }

  method PutHeader(destination: array<byte>, base: nat, compressed: bool, r: nat, size: nat)
    requires base == 3 || base == 9
    requires base <= destination.Length
    modifies destination
    ensures destination[..base] == HeaderBytes(base, compressed, r, size)
    ensures destination[base..] == old(destination[base..])
  {
    destination[0] := HeaderByte(base == 9, compressed);
    if base == 3 {
      destination[1] := r % 256;
      destination[2] := size % 256;
    } else {
      StoreWord(destination, 1, r, 4);
      StoreWord(destination, 5, size, 4);
      assert destination[..9] == destination[..1] + destination[1..5] + destination[5..9];
      assert destination[1..5] == destination[..5][1..5] && destination[..1] == destination[..5][..1];
      DropSlice(destination[..], 5, 9, destination.Length);
    }
  }

  /** The size fields read back as written. */
  lemma HeaderReadsBack(d: seq<byte>, base: nat, compressed: bool, r: nat, size: nat)
    requires base == if size < 216 then 3 else 9
    requires base <= r <= |d| && d[..base] == HeaderBytes(base, compressed, r, size)
    requires size < 0x1_0000_0000 && r < (if base == 3 then 256 else 0x1_0000_0000)
    ensures HeaderReadable(d[..r]) && SizeHeader(d[..r]) == base
    ensures SizeCompressed(d[..r]) == r && SizeDecompressed(d[..r]) == size
    ensures (d[..r][0] % 2 == 1) <==> compressed
  {
    var e := d[..r];
    assert e[..base] == d[..base];
    if base == 9 {
      WideFields(e, HeaderByte(true, compressed), r, size);
    } else {
      assert e[0] == e[..3][0] && e[1] == e[..3][1] && e[2] == e[..3][2];
    }
    hide Word32, Le;
  }

  lemma WideFields(e: seq<byte>, b: byte, r: nat, size: nat)
    requires |e| >= 9 && e[..9] == [b] + Le(r, 4) + Le(size, 4) && r < 0x1_0000_0000 && size < 0x1_0000_0000
    ensures e[0] == b && Word32(e, 1) == r && Word32(e, 5) == size
  {
    hide Le, Word32;
    assert e[0] == e[..9][0];
    WordIn(e, 1, r);
    WordIn(e, 5, size);
  }

  lemma WordIn(e: seq<byte>, i: nat, v: nat)
    requires i + 4 <= |e| && e[i..i + 4] == Le(v, 4) && v < 0x1_0000_0000
    ensures Word32(e, i) == v
  {
    Word32OfLe(v);
    hide Le;
    var t := e[i..i + 4];
    assert t[0] == e[i] && t[1] == e[i + 1] && t[2] == e[i + 2] && t[3] == e[i + 3];
  }

  /**
   * Compresses a non-empty input of legal size; the packet always stands for the input.  It holds the input as it is
   * exactly if at the end of some group there was too little to be gained, and else its greedy tokens.
   */
  method Compress(s: seq<byte>, destination: array<byte>, state: CompressState) returns (r: nat)
    requires |s| + 400 <= destination.Length && destination != state.counter
    requires state.offset.Length0 == HASH_VALUES && state.offset.Length1 == SLOTS && state.counter.Length == HASH_VALUES
    modifies destination, state.offset, state.counter
    ensures r == 0 <==> |s| == 0 || |s| > MAX_SOURCE
    ensures r != 0 ==> r <= |s| + 400 && Encodes(destination[..r], s)
    ensures 0 < |s| < 216 ==> r <= 255
    ensures r != 0 ==> HeaderReadable(destination[..r]) && SizeCompressed(destination[..r]) == r
    ensures r != 0 ==> destination[0] as int == 64 + 12 + (if |s| < 216 then 0 else 2) + if GivesUp(s) then 0 else 1
    ensures r != 0 ==>
      var base := if |s| < 216 then 3 else 9;
      base <= r && if GivesUp(s) then destination[base..r] == s else Packed(destination[base..r], s)
  {
    hide GivesUp, Packed, Remembers, CompressState.Valid, Encodes;
    if |s| == 0 || |s| > MAX_SOURCE {
      return 0;
    }
    var base := if |s| < 216 then 3 else 9;
    state.Reset();
    RemembersNone(state, s);
    r := CompressCore(s, destination, base, state);
    var compressed := r != 0;
    if !compressed {
      CopyIn(destination, base, s, 0, |s|);
      assert destination[base..base + |s|] == s;
      r := |s|;
    } else {
      PackedIsCompressed(destination[base..base + r], s);
    }
    r := base + r;
    ghost var d0 := destination[..];
    PutHeader(destination, base, compressed, r, |s|);
    PacketOf(d0, destination[..], base, compressed, r, s);
    assert destination[..][..r] == destination[..r];
    PayloadKept(d0, destination[..], base, r, compressed, |s|);
  }

  lemma PayloadKept(d0: seq<byte>, d: seq<byte>, base: nat, r: nat, compressed: bool, size: nat)
    requires (base == 3 || base == 9) && base <= r <= |d| == |d0|
    requires d[..base] == HeaderBytes(base, compressed, r, size) && d[base..] == d0[base..]
    ensures d[base..r] == d0[base..r]
    ensures d[0] as int == 64 + 12 + (if base == 3 then 0 else 2) + if compressed then 1 else 0
  {
    Suffixes(d0, d, base, r, base);
    assert d[0] == d[..base][0];
    hide Le;
  }

  /** Header and payload together make a packet of s. */
  lemma PacketOf(d0: seq<byte>, d: seq<byte>, base: nat, compressed: bool, r: nat, s: seq<byte>)
    requires base == if |s| < 216 then 3 else 9
    requires 0 < |s| <= MAX_SOURCE && base <= r <= |d| && |d0| == |d| && r < (if base == 3 then 256 else 0x1_0000_0000)
    requires d[..base] == HeaderBytes(base, compressed, r, |s|) && d[base..] == d0[base..]
    requires if compressed then base + 9 <= r && Compressed(d0[base..r], s) else r == base + |s| && d0[base..r] == s
    ensures Encodes(d[..r], s) && HeaderReadable(d[..r]) && SizeCompressed(d[..r]) == r
  {
    hide Compressed, HeaderBytes;
    HeaderReadsBack(d, base, compressed, r, |s|);
    Suffixes(d0, d, base, r, base);
    TakeSlice(d, r, base, r);
  }

  /** Decompressing what was compressed gives the input back, for every input of legal size. */
  method RoundTrip(s: seq<byte>, packet: array<byte>, state: CompressState, output: array<byte>) returns (r: nat)
    requires 0 < |s| <= MAX_SOURCE && |s| + 400 <= packet.Length && |s| <= output.Length
    requires packet != state.counter && output != state.counter && packet != output
    requires state.offset.Length0 == HASH_VALUES && state.offset.Length1 == SLOTS && state.counter.Length == HASH_VALUES
    modifies packet, output, state.offset, state.counter
    ensures r == |s| && output[..r] == s
  {
    hide Packet, Compressed;
    var n := Compress(s, packet, state);
    EncodesSize(packet[..n], s);
    r := Decompress(packet[..n], output, s);
  }

  lemma EncodesSize(source: seq<byte>, s: seq<byte>)
    requires Encodes(source, s) && HeaderReadable(source) && SizeCompressed(source) == |source|
    ensures SizeDecompressed(source) == |s|
    ensures source[0] % 2 == 0 ==> SizeHeader(source) + SizeDecompressed(source) <= |source|
  {
  }
}
