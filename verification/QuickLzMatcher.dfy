/** The level 3 encoder's search for the longest earlier occurrence of the data at hand. */
module QuickLzMatcher {
  import opened Bytes
  import opened QuickLzFormat

  const SLOTS := 16
  const HASH_VALUES := 4096

  function Fetch3(s: seq<byte>, i: nat): (w: nat)
    requires i + 3 <= |s|
  {
    var b0: int, b1: int, b2: int := s[i], s[i + 1], s[i + 2];
    b0 + 0x100 * b1 + 0x1_0000 * b2
  }

  function Xor(a: nat, b: nat, bits: nat): (x: nat)
    ensures x < Pow2(bits)
  {
    if bits == 0 then 0 else (a + b) % 2 + 2 * Xor(a / 2, b / 2, bits - 1)
  }

  ghost function Bit(n: nat, k: nat): (b: nat)
    ensures b <= 1
  {
    if k == 0 then n % 2 else Bit(n / 2, k - 1)
  }

  lemma {:induction false} XorBit(a: nat, b: nat, bits: nat, k: nat)
    requires k < bits
    ensures Bit(Xor(a, b, bits), k) == (Bit(a, k) + Bit(b, k)) % 2
  {
    hide Xor;
    XorStep(a, b, bits);
    if k > 0 {
      XorBit(a / 2, b / 2, bits - 1, k - 1);
    } else {
      SumBit(a, b);
    }
  }

  lemma SumBit(a: nat, b: nat)
    ensures (a + b) % 2 == (a % 2 + b % 2) % 2
  {
  }

  lemma XorStep(a: nat, b: nat, bits: nat)
    requires bits > 0
    ensures Xor(a, b, bits) % 2 == (a + b) % 2 && Xor(a, b, bits) / 2 == Xor(a / 2, b / 2, bits - 1)
  {
    var x, y := (a + b) % 2, Xor(a / 2, b / 2, bits - 1);
    assert Xor(a, b, bits) == x + 2 * y;
    hide Xor;
    assert (x + 2 * y) % 2 == x && (x + 2 * y) / 2 == y;
  }

  /** Bit k of a hash value is the sum of bits k and k + 12 of three bytes, without carry. */
  lemma HashBit(fetch: nat, k: nat)
    requires k < 12
    ensures Bit(Hash(fetch), k) == (Bit(fetch, k) + Bit(fetch, k + 12)) % 2
  {
    XorBit(fetch / 4096, fetch, 12, k);
    TwelveHigher(fetch, k);
    hide Bit, Xor;
  }

  lemma TwelveHigher(n: nat, k: nat)
    ensures Bit(n, k + 12) == Bit(n / 4096, k)
  {
    var n3 := n / 8;
    var n6 := n3 / 8;
    var n9 := n6 / 8;
    ThreeHigher(n, k + 9);
    ThreeHigher(n3, k + 6);
    ThreeHigher(n6, k + 3);
    ThreeHigher(n9, k);
    assert n6 == n / 64 && n9 == n / 512 && n9 / 8 == n / 4096;
    hide Bit;
  }

  lemma ThreeHigher(n: nat, k: nat)
    ensures Bit(n, k + 3) == Bit(n / 8, k)
  {
    assert n / 2 / 2 / 2 == n / 8;
    assert Bit(n, k + 3) == Bit(n / 2, k + 2) == Bit(n / 2 / 2, k + 1) == Bit(n / 2 / 2 / 2, k);
  }

  /** The low 12 bits of (fetch >> 12) ^ fetch. */
  function Hash(fetch: nat): (h: nat)
    ensures h < HASH_VALUES
  {
    assert Pow2(4) == 16 && Pow2(8) == 256 && Pow2(12) == HASH_VALUES;
    Xor(fetch / 4096, fetch, 12)
  }

  /** Sixteen recent positions for each hash value, with a counter that wraps at 256. */
  class CompressState {
    const offset: array2<int>
    const counter: array<byte>

    constructor ()
      ensures offset.Length0 == HASH_VALUES && offset.Length1 == SLOTS && counter.Length == HASH_VALUES
      ensures fresh(offset) && fresh(counter)
    {
      offset := new int[HASH_VALUES, SLOTS];
      counter := new byte[HASH_VALUES];
    }

    /** The entries below the counter are positions before `limit`; others may be stale. */
    ghost predicate Valid(limit: nat)
      reads offset, counter
    {
      && offset.Length0 == HASH_VALUES && offset.Length1 == SLOTS && counter.Length == HASH_VALUES
      && forall h, k :: 0 <= h < HASH_VALUES && 0 <= k < SLOTS && k < counter[h] ==> 0 <= offset[h, k] < limit
    }

    /** The first n slots of a row. */
    ghost function Row(h: nat, n: nat): (row: seq<int>)
      requires offset.Length0 == HASH_VALUES && offset.Length1 == SLOTS && h < HASH_VALUES && n <= SLOTS
      reads offset
    {
      if n == 0 then [] else Row(h, n - 1) + [offset[h, n - 1]]
    }

    lemma RowStep(h: nat, n: nat)
      requires offset.Length0 == HASH_VALUES && offset.Length1 == SLOTS && h < HASH_VALUES && n < SLOTS
      ensures Row(h, n + 1) == Row(h, n) + [offset[h, n]]
    {
    }

    method Reset()
      requires offset.Length0 == HASH_VALUES && offset.Length1 == SLOTS && counter.Length == HASH_VALUES
      modifies counter
      ensures Valid(0) && forall h :: 0 <= h < HASH_VALUES ==> counter[h] == 0
    {
      var i := 0;
      while i < HASH_VALUES
        invariant 0 <= i <= HASH_VALUES
        invariant forall h :: 0 <= h < i ==> counter[h] == 0
      {
        counter[i] := 0;
        i := i + 1;
      }
    }

    /** Remembers a position; once the counter has wrapped, the slots count as empty again. */
    method Insert(h: nat, pos: nat)
      requires h < HASH_VALUES && Valid(pos)
      modifies offset, counter
      ensures Valid(pos + 1)
      ensures counter[h] == (old(counter[h]) as int + 1) % 256
      ensures offset[h, old(counter[h]) % SLOTS] == pos
      ensures forall i :: 0 <= i < HASH_VALUES && i != h ==> counter[i] == old(counter[i])
      ensures forall i, k ::
        0 <= i < HASH_VALUES && 0 <= k < SLOTS && (i != h || k != old(counter[h]) as int % SLOTS) ==>
          offset[i, k] == old(offset[i, k])
    {
      var c := counter[h];
      offset[h, c % SLOTS] := pos;
      counter[h] := (c + 1) % 256;
    }
  }

  // ----- What the state remembers -----

  /** The positions before p where three bytes with this hash value begin, in order. */
  ghost function Occurrences(s: seq<byte>, p: nat, h: nat): (q: seq<nat>)
    ensures forall i :: 0 <= i < |q| ==> q[i] < p
  {
    if p == 0 then [] else
      var q := Occurrences(s, p - 1, h);
      if p + 2 <= |s| && Hash(Fetch3(s, p - 1)) == h then q + [p - 1] else q
  }

  /** Slot k has the last of the positions whose number is k modulo 16. */
  ghost function Slot(q: seq<nat>, k: nat): (o: nat)
    requires k < SLOTS && k < |q|
  {
    q[|q| - 1 - (|q| - 1 - k) % SLOTS]
  }

  lemma SlotNext(q: seq<nat>, p: nat, k: nat)
    requires k < SLOTS && k < |q| + 1
    ensures Slot(q + [p], k) == if k == |q| % SLOTS then p else Slot(q, k)
    ensures k != |q| % SLOTS ==> k < |q|
  {
    SlotPlace(|q|, k);
  }

  lemma SlotPlace(n: nat, k: nat)
    requires k < SLOTS && k <= n
    ensures (n - k) % SLOTS == 0 <==> k == n % SLOTS
    ensures k != n % SLOTS ==> k < n && (n - k) % SLOTS == (n - 1 - k) % SLOTS + 1
  {
    var d := n / SLOTS;
    assert n == SLOTS * d + n % SLOTS;
    var r := n % SLOTS;
    if k <= r {
      assert n - k == SLOTS * d + (r - k);
      Split(n - k, SLOTS, d, r - k);
      if k < r {
        Split(n - 1 - k, SLOTS, d, r - k - 1);
      }
    } else {
      Split(n - k, SLOTS, d - 1, SLOTS + r - k);
      Split(n - 1 - k, SLOTS, d - 1, SLOTS + r - k - 1);
    }
  }

  /** A counter and slots that remember these positions. */
  ghost predicate RowIs(c: byte, r: seq<int>, q: seq<nat>) {
    |r| == SLOTS && c as int == |q| % 256 && forall k :: 0 <= k < SLOTS && k < |q| ==> r[k] == Slot(q, k)
  }

  lemma RowMore(c: byte, r: seq<int>, q: seq<nat>, p: nat)
    requires RowIs(c, r, q)
    ensures RowIs((c as int + 1) % 256, r[c as int % SLOTS := p], q + [p])
  {
    hide Slot;
    CounterWraps(|q|);
    forall k | 0 <= k < SLOTS && k < |q| + 1
      ensures r[c as int % SLOTS := p][k] == Slot(q + [p], k)
    {
      SlotNext(q, p, k);
    }
  }

  lemma CounterWraps(n: nat)
    ensures n % 256 % SLOTS == n % SLOTS && (n % 256 + 1) % 256 == (n + 1) % 256
  {
  }

  /** The slots of a hash value. */
  ghost function Column(state: CompressState, h: nat): (r: seq<int>)
    requires state.offset.Length0 == HASH_VALUES && state.offset.Length1 == SLOTS && h < HASH_VALUES
    reads state.offset
    ensures |r| == SLOTS && forall k :: 0 <= k < SLOTS ==> r[k] == state.offset[h, k]
  {
    seq(SLOTS, k requires 0 <= k < SLOTS && h < state.offset.Length0 && state.offset.Length1 == SLOTS
      reads state.offset => state.offset[h, k])
  }

  /** For each hash value, the positions before p are remembered. */
  ghost predicate Remembers(state: CompressState, s: seq<byte>, p: nat)
    reads state.offset, state.counter
  {
    && state.offset.Length0 == HASH_VALUES && state.offset.Length1 == SLOTS && state.counter.Length == HASH_VALUES
    && forall h :: 0 <= h < HASH_VALUES ==> RowIs(state.counter[h], Column(state, h), Occurrences(s, p, h))
  }

  /** The positions a search at p looks at: at most sixteen, and fewer after each 256 occurrences. */
  ghost function Visible(s: seq<byte>, p: nat): (row: seq<int>)
    requires p + 3 <= |s|
  {
    VisibleSlots(Occurrences(s, p, Hash(Fetch3(s, p))))
  }

  ghost function VisibleSlots(q: seq<nat>): (row: seq<int>) {
    Slots(q, if |q| % 256 < SLOTS then |q| % 256 else SLOTS)
  }

  ghost function Slots(q: seq<nat>, n: nat): (row: seq<int>)
    requires n <= SLOTS && n <= |q|
  {
    if n == 0 then [] else Slots(q, n - 1) + [Slot(q, n - 1)]
  }

  lemma {:induction false} RowIsSlots(state: CompressState, q: seq<nat>, h: nat, n: nat)
    requires state.offset.Length0 == HASH_VALUES && state.offset.Length1 == SLOTS && state.counter.Length == HASH_VALUES
    requires h < HASH_VALUES && RowIs(state.counter[h], Column(state, h), q) && n <= SLOTS && n <= |q|
    ensures state.Row(h, n) == Slots(q, n)
  {
    hide Slot;
    if n > 0 {
      RowIsSlots(state, q, h, n - 1);
    }
  }

  /** The row that is searched. */
  lemma RowIsVisible(state: CompressState, s: seq<byte>, p: nat)
    requires Remembers(state, s, p) && p + 3 <= |s|
    ensures var h := Hash(Fetch3(s, p));
      var c := state.counter[h];
      state.Row(h, if c < SLOTS then c else SLOTS) == Visible(s, p)
  {
    hide Occurrences, Slots, Slot, Fetch3, CompressState.Row;
    var h := Hash(Fetch3(s, p));
    hide Hash;
    var q := Occurrences(s, p, h);
    assert RowIs(state.counter[h], Column(state, h), q);
    RowIsSlots(state, q, h, if |q| % 256 < SLOTS then |q| % 256 else SLOTS);
  }

  lemma RemembersValid(state: CompressState, s: seq<byte>, p: nat)
    requires Remembers(state, s, p)
    ensures state.Valid(p)
  {
    hide Occurrences;
    forall h, k | 0 <= h < HASH_VALUES && 0 <= k < SLOTS && k < state.counter[h]
      ensures 0 <= state.offset[h, k] < p
    {
      var q := Occurrences(s, p, h);
      assert RowIs(state.counter[h], Column(state, h), q);
      OccurrencesBefore(s, p, h);
      assert Column(state, h)[k] == state.offset[h, k];
    }
  }

  lemma OccurrencesBefore(s: seq<byte>, p: nat, h: nat)
    ensures forall i :: 0 <= i < |Occurrences(s, p, h)| ==> Occurrences(s, p, h)[i] < p
  {
  }

  lemma OccurrencesNext(s: seq<byte>, p: nat, h: nat)
    requires p + 3 <= |s|
    ensures Occurrences(s, p + 1, h) ==
      if Hash(Fetch3(s, p)) == h then Occurrences(s, p, h) + [p] else Occurrences(s, p, h)
  {
    hide Hash, Fetch3;
  }

  lemma RemembersNone(state: CompressState, s: seq<byte>)
    requires state.Valid(0) && forall h :: 0 <= h < HASH_VALUES ==> state.counter[h] == 0
    ensures Remembers(state, s, 0)
  {
  }

  /** One position more is remembered. */
  method InsertAt(s: seq<byte>, pos: nat, state: CompressState)
    requires pos + 3 <= |s| && Remembers(state, s, pos)
    modifies state.offset, state.counter
    ensures Remembers(state, s, pos + 1)
  {
    hide Fetch3, Hash, RowIs, Occurrences, CompressState.Valid;
    RemembersValid(state, s, pos);
    var hash := Hash(Fetch3(s, pos));
    state.Insert(hash, pos);
    forall h | 0 <= h < HASH_VALUES
      ensures RowIs(state.counter[h], Column(state, h), Occurrences(s, pos + 1, h))
    {
      OccurrencesNext(s, pos, h);
      ghost var q, c, r := Occurrences(s, pos, h), old(state.counter[h]), old(Column(state, h));
      assert RowIs(c, r, q);
      RowMore(c, r, q, pos);
      assert Column(state, h) == if h == hash then r[c as int % SLOTS := pos] else r;
    }
  }

  /** Number of bytes that agree, counted from m up to a limit. */
  function Run(s: seq<byte>, o: nat, p: nat, m: nat, limit: nat): (r: nat)
    requires o < p && m <= limit && p + limit <= |s|
    ensures m <= r <= limit
    ensures forall k :: p + m <= k < p + r ==> s[k] == s[k - (p - o)]
    ensures r < limit ==> s[o + r] != s[p + r]
    decreases limit - m
  {
    if m < limit && s[o + m] == s[p + m] then Run(s, o, p, m + 1, limit) else m
  }

  function Remaining(s: seq<byte>, p: nat): (r: int) {
    if |s| - UNCOMPRESSED_END - p > 255 then 255 else |s| - UNCOMPRESSED_END - p
  }

  /** An earlier position, far enough back, where the same three bytes occur. */
  predicate Candidate(s: seq<byte>, p: nat, o: int)
    requires p + 3 <= |s|
  {
    0 <= o < p - 2 && Fetch3(s, o) == Fetch3(s, p)
  }

  /** How far the occurrence at o agrees with the data at p. */
  function Length(s: seq<byte>, p: nat, o: int): (m: nat)
    requires p + UNCONDITIONAL_MATCHLEN + UNCOMPRESSED_END < |s| && Candidate(s, p, o)
    ensures 3 <= m <= 255 && p + m + UNCOMPRESSED_END <= |s|
  {
    Run(s, o, p, 3, if |s| - 4 - p > 255 then 255 else |s| - 4 - p)
  }

  lemma SameThree(s: seq<byte>, p: nat, o: int)
    requires p + 3 <= |s| && Candidate(s, p, o)
    ensures s[o] == s[p] && s[o + 1] == s[p + 1] && s[o + 2] == s[p + 2]
  {
  }

  /** A found match really repeats, so the decoder can copy it. */
  lemma LengthRepeats(s: seq<byte>, p: nat, o: int)
    requires p + UNCONDITIONAL_MATCHLEN + UNCOMPRESSED_END < |s| && Candidate(s, p, o)
    ensures Repeats(s, p, p - o, Length(s, p, o))
  {
    SameThree(s, p, o);
    hide Fetch3, Candidate;
    var m := Run(s, o, p, 3, Remaining(s, p));
    forall k | p <= k < p + m
      ensures s[k] == s[k - (p - o)]
    {
      assert k < p + 3 ==> k == p || k == p + 1 || k == p + 2;
    }
  }

  method Extend(s: seq<byte>, p: nat, o: nat, m0: nat, remaining: nat) returns (m: nat)
    requires o < p && m0 <= remaining && p + remaining < |s|
    ensures m == Run(s, o, p, m0, remaining)
  {
    m := m0;
    while s[o + m] == s[p + m] && m < remaining
      invariant m0 <= m <= remaining
      invariant Run(s, o, p, m0, remaining) == Run(s, o, p, m, remaining)
    {
      m := m + 1;
    }
  }

  /** (o, m) is the longest match among the given positions, the nearest one among equals. */
  ghost predicate Best(s: seq<byte>, p: nat, row: seq<int>, o: int, m: nat)
    requires p + UNCONDITIONAL_MATCHLEN + UNCOMPRESSED_END < |s|
  {
    && (m > 0 ==> Candidate(s, p, o) && m == Length(s, p, o) && o in row)
    && (forall q :: q in row && Candidate(s, p, q) ==> Length(s, p, q) < m || (Length(s, p, q) == m && q <= o))
  }

  lemma BestStep(s: seq<byte>, p: nat, row: seq<int>, o: int, m: nat, q: int)
    requires p + UNCONDITIONAL_MATCHLEN + UNCOMPRESSED_END < |s|
    requires Best(s, p, row, o, m)
    ensures Candidate(s, p, q) && (Length(s, p, q) > m || (Length(s, p, q) == m && q > o)) ==>
      Best(s, p, row + [q], q, Length(s, p, q))
    ensures !(Candidate(s, p, q) && (Length(s, p, q) > m || (Length(s, p, q) == m && q > o))) ==>
      Best(s, p, row + [q], o, m)
  {
    hide Candidate, Length;
  }

  /** The first slot is tried separately; an unused slot may hold anything. */
  method MatchFirst(s: seq<byte>, p: nat, o: int, c: nat, remaining: nat) returns (m: nat)
    requires p + UNCONDITIONAL_MATCHLEN + UNCOMPRESSED_END < |s| && remaining == Remaining(s, p)
    requires c > 0 ==> 0 <= o < p
    ensures m == if c > 0 && Candidate(s, p, o) then Length(s, p, o) else 0
  {
    hide Fetch3, Run;
    if o < p - MIN_OFFSET && c > 0 && Fetch3(s, o) == Fetch3(s, p) {
      m := 3;
      if s[o + m] == s[p + m] {
        m := Extend(s, p, o, 4, remaining);
      }
      RunFrom3(s, o, p, remaining);
    } else {
      m := 0;
    }
  }

  method FindMatch(s: seq<byte>, p: nat, state: CompressState, h: nat) returns (o: int, m: nat)
    requires p + UNCONDITIONAL_MATCHLEN + UNCOMPRESSED_END < |s| && h < HASH_VALUES && state.Valid(p)
    ensures Best(s, p, state.Row(h, if state.counter[h] < SLOTS then state.counter[h] else SLOTS), o, m)
  {
    hide Fetch3, Run, Best, CompressState.Row, Candidate, Length;
    var remaining := Remaining(s, p);
    var fetch := Fetch3(s, p);
    var c := state.counter[h];
    o := state.offset[h, 0];
    m := MatchFirst(s, p, o, c, remaining);
    var k := 1;
    FirstSlot(s, p, state, h, o, m);
    while k < SLOTS && c > k
      invariant 1 <= k <= SLOTS
      invariant c > 0 ==> k <= c && Best(s, p, state.Row(h, k), o, m)
      invariant c == 0 ==> k == 1 && m == 0
    {
      var q := state.offset[h, k];
      BestStep(s, p, state.Row(h, k), o, m, q);
      state.RowStep(h, k);
      CandidateMeans(s, p, q, remaining);
      if Fetch3(s, q) == fetch && q < p - MIN_OFFSET {
        var n := Extend(s, p, q, 3, remaining);
        if n > m || (n == m && q > o) {
          o := q;
          m := n;
        }
      }
      k := k + 1;
    }
    EmptyRow(s, p, state, h, o);
  }

  lemma CandidateMeans(s: seq<byte>, p: nat, q: int, remaining: nat)
    requires p + UNCONDITIONAL_MATCHLEN + UNCOMPRESSED_END < |s| && remaining == Remaining(s, p) && 0 <= q < p
    ensures Candidate(s, p, q) <==> Fetch3(s, q) == Fetch3(s, p) && q < p - MIN_OFFSET
    ensures Candidate(s, p, q) ==>
      3 <= remaining && p + remaining < |s| && Length(s, p, q) == Run(s, q, p, 3, remaining)
  {
    hide Fetch3, Run;
  }

  lemma RunFrom3(s: seq<byte>, o: nat, p: nat, limit: nat)
    requires o < p && 4 <= limit && p + limit <= |s|
    ensures Run(s, o, p, 3, limit) == if s[o + 3] == s[p + 3] then Run(s, o, p, 4, limit) else 3
  {
  }

  lemma FirstSlot(s: seq<byte>, p: nat, state: CompressState, h: nat, o: int, m: nat)
    requires p + UNCONDITIONAL_MATCHLEN + UNCOMPRESSED_END < |s| && h < HASH_VALUES && state.Valid(p)
    requires o == state.offset[h, 0]
    requires if Candidate(s, p, o) && state.counter[h] > 0 then m == Length(s, p, o) else m == 0
    ensures state.counter[h] > 0 ==> Best(s, p, state.Row(h, 1), o, m)
  {
    hide Candidate, Length;
    assert state.Row(h, 1) == [o];
  }

  lemma EmptyRow(s: seq<byte>, p: nat, state: CompressState, h: nat, o: int)
    requires p + UNCONDITIONAL_MATCHLEN + UNCOMPRESSED_END < |s| && h < HASH_VALUES && state.Valid(p)
    ensures Best(s, p, state.Row(h, 0), o, 0)
  {
  }
}
