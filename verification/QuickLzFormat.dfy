/**
 * The QuickLZ level 3 stream format, independent of how the encoder finds its matches and of how
 * the decoder walks the stream.  A stream is a list of groups; a group is a 32-bit control word
 * followed by up to 31 tokens.  Bit i of the control word says whether token i is a match, and the
 * top bit is a sentinel that marks the end of the group's flags.
 */
module QuickLzFormat {
  import opened Bytes

  const MIN_OFFSET := 2
  const UNCONDITIONAL_MATCHLEN := 6
  const UNCOMPRESSED_END := 4
  const CWORD_LEN := 4
  const GROUP := 31
  const SENTINEL := 0x8000_0000
  const MAX_OFFSET := 131071

  datatype RawToken = Lit(b: byte) | Match(offset: nat, len: nat)

  type Token = t: RawToken | t.Match? ==> 3 <= t.offset < MAX_OFFSET && 3 <= t.len <= 255
    witness Lit(0)

  type Group = g: seq<Token> | |g| <= GROUP
    witness []

  /** Value and byte count of a match, one of five encodings, the shortest that fits. */
  function MatchWord(offset: nat, len: nat): (w: (nat, nat))
    requires 3 <= offset < MAX_OFFSET && 3 <= len <= 255
    ensures 1 <= w.1 <= 4 && w.1 <= len
  {
    if len == 3 && offset <= 63 then (4 * offset, 1)
    else if len == 3 && offset <= 16383 then (4 * offset + 1, 2)
    else if len <= 18 && offset <= 1023 then (4 * (len - 3 + 16 * offset) + 2, 2)
    else if len <= 33 then (4 * (len - 2 + 32 * offset) + 3, 3)
    else (4 * (32 * (len - 3 + 256 * offset)) + 3, 4)
  }

  /**
   * Offset, length and byte count read from the next four bytes of the stream.  The two low bits
   * select the encoding; the last two encodings differ in whether the next five bits are zero.
   */
  function MatchFields(fetch: nat): (f: (nat, nat, nat))
    ensures 3 <= f.1 && 1 <= f.2 <= 4
  {
    var q := fetch / 4;
    match fetch % 4
    case 0 => (q % 64, 3, 1)
    case 1 => (q % 16384, 3, 2)
    case 2 => (q / 16 % 1024, q % 16 + 3, 2)
    case _ =>
      if q % 32 != 0 then (q / 32 % 131072, q % 32 + 2, 3)
      else (q / 8192, q / 32 % 256 + 3, 4)
  }

  ghost function TokenBytes(t: Token): (s: seq<byte>)
    ensures 1 <= |s| <= 4
  {
    match t
    case Lit(b) => [b]
    case Match(offset, len) => var w := MatchWord(offset, len); Le(w.0, w.1)
  }

  ghost function Body(ts: seq<Token>): (s: seq<byte>) {
    if ts == [] then [] else TokenBytes(ts[0]) + Body(ts[1..])
  }

  ghost function Pow2(n: nat): (p: nat)
    ensures p >= 1
  {
    if n == 0 then 1 else 2 * Pow2(n - 1)
  }

  ghost function Flag(t: Token): nat { if t.Match? then 1 else 0 }

  /** The flags of a token list as a number, first token in the lowest bit. */
  ghost function Flags(ts: seq<Token>): (f: nat)
    ensures f < Pow2(|ts|)
  {
    if ts == [] then 0 else Flag(ts[0]) + 2 * Flags(ts[1..])
  }

  ghost function GroupBytes(g: Group): (s: seq<byte>)
    ensures |s| == CWORD_LEN + |Body(g)|
  {
    Le(Flags(g) + SENTINEL, CWORD_LEN) + Body(g)
  }

  ghost function Stream(gs: seq<Group>): (s: seq<byte>) {
    if gs == [] then [] else GroupBytes(gs[0]) + Stream(gs[1..])
  }

  /** All groups but the last are full. */
  ghost predicate Full(gs: seq<Group>) {
    |gs| <= 1 || (|gs[0]| == GROUP && Full(gs[1..]))
  }

  ghost function Flatten(gs: seq<Group>): seq<Token> {
    if gs == [] then [] else gs[0] + Flatten(gs[1..])
  }

  /** Expanding a match copies, byte by byte, from `offset` bytes back; the copy may overlap itself. */
  ghost predicate Repeats(s: seq<byte>, p: nat, offset: nat, len: nat)
    requires offset <= p && p + len <= |s|
  {
    forall k :: p <= k < p + len ==> s[k] == s[k - offset]
  }

  ghost predicate TokenAt(s: seq<byte>, p: nat, t: Token) {
    match t
    case Lit(b) => p < |s| && s[p] == b
    case Match(offset, len) =>
      && offset <= p
      && p + UNCONDITIONAL_MATCHLEN + UNCOMPRESSED_END < |s|
      && p + len + UNCOMPRESSED_END <= |s|
      && Repeats(s, p, offset, len)
  }

  ghost function Width(t: Token): nat { if t.Match? then t.len else 1 }

  /** The tokens spell s[p..q]; matches keep clear of the last bytes of s. */
  ghost predicate Spells(s: seq<byte>, p: nat, ts: seq<Token>, q: nat)
    decreases |ts|
  {
    if ts == [] then p == q
    else TokenAt(s, p, ts[0]) && Spells(s, p + Width(ts[0]), ts[1..], q)
  }

  /** The payload bytes that start the given data are a compressed form of s. */
  ghost predicate Compressed(data: seq<byte>, s: seq<byte>) {
    exists gs :: CompressedBy(data, s, gs)
  }

  ghost predicate CompressedBy(data: seq<byte>, s: seq<byte>, gs: seq<Group>) {
    && Full(gs)
    && Spells(s, 0, Flatten(gs), |s|)
    && Stream(gs) <= data
  }

  ghost function Pow256(n: nat): nat { if n == 0 then 1 else 256 * Pow256(n - 1) }

  lemma ShortFields(offset: nat, rest: nat)
    requires offset <= 63
    ensures MatchFields(4 * offset + 0x100 * rest) == (offset, 3, 1)
  {
    var q := offset + 64 * rest;
    Split(4 * offset + 0x100 * rest, 4, q, 0);
    Split(q, 64, rest, offset);
  }

  lemma MediumFields(offset: nat, rest: nat)
    requires offset <= 16383
    ensures MatchFields(4 * offset + 1 + 0x1_0000 * rest) == (offset, 3, 2)
  {
    var q := offset + 16384 * rest;
    Split(4 * offset + 1 + 0x1_0000 * rest, 4, q, 1);
    Split(q, 16384, rest, offset);
  }

  lemma NearFields(offset: nat, len: nat, rest: nat)
    requires offset <= 1023 && 3 <= len <= 18
    ensures MatchFields(4 * (len - 3 + 16 * offset) + 2 + 0x1_0000 * rest) == (offset, len, 2)
  {
    var h := offset + 1024 * rest;
    var q := len - 3 + 16 * h;
    Split(4 * (len - 3 + 16 * offset) + 2 + 0x1_0000 * rest, 4, q, 2);
    Split(q, 16, h, len - 3);
    Split(h, 1024, rest, offset);
  }

  lemma FarFields(offset: nat, len: nat, rest: nat)
    requires offset < MAX_OFFSET && 3 <= len <= 33
    ensures MatchFields(4 * (len - 2 + 32 * offset) + 3 + 0x100_0000 * rest) == (offset, len, 3)
  {
    var h := offset + 131072 * rest;
    var q := len - 2 + 32 * h;
    Split(4 * (len - 2 + 32 * offset) + 3 + 0x100_0000 * rest, 4, q, 3);
    Split(q, 32, h, len - 2);
    Split(h, 131072, rest, offset);
  }

  lemma LongFields(offset: nat, len: nat)
    requires offset < MAX_OFFSET && 3 <= len <= 255
    ensures MatchFields(4 * (32 * (len - 3 + 256 * offset)) + 3) == (offset, len, 4)
  {
    var h := len - 3 + 256 * offset;
    Split(4 * (32 * h) + 3, 4, 32 * h, 3);
    Split(32 * h, 32, h, 0);
    Split(32 * h, 8192, offset, 32 * (len - 3));
    Split(h, 256, offset, len - 3);
  }

  /** Undoing a match encoding: the fields come back whatever bytes follow in the stream. */
  lemma MatchFieldsInvert(offset: nat, len: nat, rest: nat)
    requires 3 <= offset < MAX_OFFSET && 3 <= len <= 255
    requires MatchWord(offset, len).1 == 4 ==> rest == 0
    ensures var w := MatchWord(offset, len);
      MatchFields(w.0 + Pow256(w.1) * rest) == (offset, len, w.1)
  {
    assert Pow256(1) == 0x100 && Pow256(2) == 0x1_0000 && Pow256(3) == 0x100_0000;
    if len == 3 && offset <= 63 {
      ShortFields(offset, rest);
    } else if len == 3 && offset <= 16383 {
      MediumFields(offset, rest);
    } else if len <= 18 && offset <= 1023 {
      NearFields(offset, len, rest);
    } else if len <= 33 {
      FarFields(offset, len, rest);
    } else {
      LongFields(offset, len);
    }
  }
}
