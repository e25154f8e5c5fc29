/**
 * Which tokens the encoder chooses for an input, and when it gives up.  Both are determined by the input alone, since
 * the state remembers nothing but positions in it.
 */
module QuickLzGreedy {
  import opened Bytes
  import opened QuickLzFormat
  import opened QuickLzMatcher

  // ----- The next token -----

  /**
   * The token at p: the longest earlier occurrence among those a search looks at, the nearest of equals, if it is less
   * than 131071 bytes away, and else the byte at p.
   */
  ghost predicate Greedy(s: seq<byte>, p: nat, t: Token)
    requires p + UNCONDITIONAL_MATCHLEN + UNCOMPRESSED_END < |s|
  {
    match t
    case Lit(b) =>
      b == s[p] && forall o: int, m: nat :: Best(s, p, Visible(s, p), o, m) && m > 2 ==> p - o >= 131071
    case Match(offset, len) => offset <= p && Best(s, p, Visible(s, p), p - offset, len)
  }

  /** A search has one result. */
  lemma BestOnce(s: seq<byte>, p: nat, row: seq<int>, o: int, m: nat, o': int, m': nat)
    requires p + UNCONDITIONAL_MATCHLEN + UNCOMPRESSED_END < |s|
    requires Best(s, p, row, o, m) && Best(s, p, row, o', m') && m > 0
    ensures o == o' && m == m'
  {
    hide Candidate, Length;
  }

  lemma GreedyOnce(s: seq<byte>, p: nat, t: Token, u: Token)
    requires p + UNCONDITIONAL_MATCHLEN + UNCOMPRESSED_END < |s| && Greedy(s, p, t) && Greedy(s, p, u)
    ensures t == u
  {
    hide Best, Visible;
    if t.Match? && u.Match? {
      BestOnce(s, p, Visible(s, p), p - t.offset, t.len, p - u.offset, u.len);
    }
  }

  // ----- The tokens of an input -----

  /** How many bytes some tokens stand for. */
  ghost function Extent(ts: seq<Token>): (n: nat)
    ensures n >= |ts|
  {
    if ts == [] then 0 else Extent(ts[..|ts| - 1]) + Width(ts[|ts| - 1])
  }

  lemma ExtentMore(ts: seq<Token>, t: Token)
    ensures Extent(ts + [t]) == Extent(ts) + Width(t)
  {
    assert (ts + [t])[..|ts|] == ts;
  }

  /** Each token is the greedy one where those in front of it end, and has more than ten bytes in front of it. */
  ghost predicate GreedyParse(s: seq<byte>, ts: seq<Token>) {
    ts == [] ||
    var us := ts[..|ts| - 1];
    && GreedyParse(s, us) && Extent(us) + 10 < |s|
    && Greedy(s, Extent(us), ts[|ts| - 1])
  }

  lemma ParseMore(s: seq<byte>, ts: seq<Token>, t: Token)
    requires GreedyParse(s, ts) && Extent(ts) + UNCONDITIONAL_MATCHLEN + UNCOMPRESSED_END < |s|
    requires Greedy(s, Extent(ts), t)
    ensures GreedyParse(s, ts + [t])
  {
    hide Greedy;
    assert (ts + [t])[..|ts|] == ts;
  }

  lemma {:induction false} ParsePrefix(s: seq<byte>, ts: seq<Token>, n: nat)
    requires GreedyParse(s, ts) && n <= |ts|
    ensures GreedyParse(s, ts[..n])
    ensures n < |ts| ==>
      Extent(ts[..n]) + UNCONDITIONAL_MATCHLEN + UNCOMPRESSED_END < |s| && Greedy(s, Extent(ts[..n]), ts[n])
  {
    hide Greedy;
    if n == |ts| {
      assert ts[..n] == ts;
    } else if n < |ts| - 1 {
      var us := ts[..|ts| - 1];
      ParsePrefix(s, us, n);
      assert us[..n] == ts[..n] && us[n] == ts[n];
    }
  }

  /** An input has one sequence of greedy tokens, as far as it goes. */
  lemma {:induction false} ParseOnce(s: seq<byte>, ts: seq<Token>, us: seq<Token>)
    requires GreedyParse(s, ts) && GreedyParse(s, us) && |ts| <= |us|
    ensures ts == us[..|ts|] && (|ts| == |us| ==> ts == us)
    decreases |ts|
  {
    hide Greedy;
    if ts != [] {
      var n := |ts| - 1;
      ParsePrefix(s, ts, n);
      ParseOnce(s, ts[..n], us);
      ParsePrefix(s, us, n);
      GreedyOnce(s, Extent(ts[..n]), ts[n], us[n]);
      assert ts == ts[..n] + [ts[n]] && us[..|ts|] == us[..n] + [us[n]];
    }
  }

  // ----- Giving up -----

  /** Bytes of output for full groups of these tokens, each with its control word. */
  ghost function Size(ts: seq<Token>): (n: nat) {
    4 * (|ts| / 31) + |Body(ts)|
  }

  /**
   * With these tokens a group is full past the middle of the input, and the output has not become smaller than the
   * input by one part in 32.
   */
  ghost predicate GivesUpAt(s: seq<byte>, ts: seq<Token>) {
    && GreedyParse(s, ts) && ts != [] && |ts| % 31 == 0 && Extent(ts) + 10 < |s|
    && Extent(ts) > |s| / 2 && Size(ts) > Extent(ts) - Extent(ts) / 32
  }

  /** So it is at the end of some group: the input is stored as it is. */
  ghost predicate GivesUp(s: seq<byte>) { exists ts :: GivesUpAt(s, ts) }

  /** No group that ends in front of the n-th token is one. */
  ghost predicate NotBefore(s: seq<byte>, n: nat) {
    forall ts :: GivesUpAt(s, ts) ==> |ts| >= n
  }

  lemma NotBeforeFirst(s: seq<byte>)
    ensures NotBefore(s, 1)
  {
    hide GreedyParse;
  }

  /** A full group that is none. */
  lemma NotHere(s: seq<byte>, ts: seq<Token>, n: nat)
    requires NotBefore(s, n) && GreedyParse(s, ts) && |ts| % GROUP == 0 && |ts| < n + GROUP && n % GROUP == 1
    requires !GivesUpAt(s, ts)
    ensures NotBefore(s, |ts| + 1)
  {
    hide Greedy, Size, Extent;
    forall us | GivesUpAt(s, us)
      ensures |us| >= |ts| + 1
    {
      Multiples(|us|, n);
      ParseGiven(s, us);
      hide GreedyParse, GivesUpAt;
      if |us| == |ts| {
        ParseOnce(s, us, ts);
      }
    }
  }

  lemma ParseGiven(s: seq<byte>, ts: seq<Token>)
    requires GivesUpAt(s, ts)
    ensures GreedyParse(s, ts) && Extent(ts) + UNCONDITIONAL_MATCHLEN + UNCOMPRESSED_END < |s| && |ts| % GROUP == 0
  {
    hide GreedyParse;
  }

  /** At the end of the input it is too late. */
  lemma NeverGivesUp(s: seq<byte>, ts: seq<Token>, n: nat)
    requires NotBefore(s, n) && n % GROUP == 1 && GreedyParse(s, ts) && |ts| < n + GROUP
    requires Extent(ts) + UNCONDITIONAL_MATCHLEN + UNCOMPRESSED_END >= |s|
    ensures !GivesUp(s)
  {
    if GivesUp(s) {
      var us :| GivesUpAt(s, us);
      Multiples(|us|, n);
      ParseGiven(s, us);
      hide GreedyParse, Greedy, Extent, GivesUpAt;
      ParseOnce(s, ts, us);
      ParsePrefix(s, us, |ts|);
    }
  }

  lemma Multiples(k: nat, n: nat)
    requires k % GROUP == 0 && n % GROUP == 1 && k >= n
    ensures k >= n + GROUP - 1
  {
  }

  /** Inputs of at most 41 bytes are never stored: the first full group ends too late. */
  lemma ShortIsCompressed(s: seq<byte>)
    requires |s| <= 41
    ensures !GivesUp(s)
  {
    hide GreedyParse;
    forall ts | GivesUpAt(s, ts)
      ensures false
    {
      Multiples(|ts|, 1);
    }
  }
}
