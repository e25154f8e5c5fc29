/** A ring of bytes: as a queue used by one thread, and as shared memory between one producer and one consumer. */
module RingBuffer {
  import opened Bytes

  /** advance_headtail_value */
  function Advance(value: nat, max: nat): (r: nat)
    requires value < max
    ensures r < max
  {
    if value + 1 == max then 0 else value + 1
  }

  /** Place of the k-th byte ever put. */
  function Slot(k: nat, max: nat): (r: nat)
    requires max > 0
    ensures r < max
  {
    k % max
  }

  lemma SlotNext(k: nat, max: nat)
    requires max > 0
    ensures Slot(k + 1, max) == Advance(Slot(k, max), max)
  {
    var q, r := k / max, k % max;
    if r + 1 == max {
      MulNext(q, max);
      Split(k + 1, max, q + 1, 0);
    } else {
      Split(k + 1, max, q, r + 1);
    }
  }

  /** Fewer than max bytes apart, equal places mean equal counts. */
  lemma SlotInjective(a: nat, b: nat, max: nat)
    requires 0 < max && a <= b < a + max && Slot(a, max) == Slot(b, max)
    ensures a == b
  {
    var p, q := a / max, b / max;
    assert a == max * p + a % max && b == max * q + b % max;
    if p < q {
      MulStep(max, p, q);
    }
  }

  // ----- One producer and one consumer -----

  /**
   * Where circular_buf_try_put has got to: each step makes at most one access to shared memory.  C leaves open whether
   * head or tail is loaded first; counts stand for what had been got or put when a position was loaded.
   */
  datatype Producer =
    | Idle
    | HeadLoaded(x: byte, h: nat)
    | TailLoaded(x: byte, t: nat, got: nat)
    | NotFull(x: byte)
    | ByteStored(x: byte)

  /** Where circular_buf_get has got to; seen counts the bytes put when the head was loaded. */
  datatype Consumer =
    | Waiting
    | HeadSeen(h: nat, seen: nat)
    | TailSeen(t: nat)
    | NotEmpty
    | ByteLoaded(b: byte)

  /** Shared memory, both threads, and what has been put and got so far. */
  datatype State = State(
    buffer: seq<byte>, head: nat, tail: nat,
    producer: Producer, consumer: Consumer,
    produced: seq<byte>, consumed: seq<byte>)

  datatype Action =
    | PutLoadHead(x: byte)
    | PutLoadTail
    | PutLoadTailFirst(x: byte)
    | PutLoadHeadSecond
    | PutStoreByte
    | PutStoreHead
    | GetLoadHead
    | GetLoadTail
    | GetLoadTailFirst
    | GetLoadHeadSecond
    | GetLoadByte
    | GetStoreTail

  predicate Enabled(s: State, a: Action) {
    match a
    case PutLoadHead(_) => s.producer.Idle?
    case PutLoadTail => s.producer.HeadLoaded?
    case PutLoadTailFirst(_) => s.producer.Idle?
    case PutLoadHeadSecond => s.producer.TailLoaded?
    case PutStoreByte => s.producer.NotFull? && s.head < |s.buffer|
    case PutStoreHead => s.producer.ByteStored? && s.head < |s.buffer|
    case GetLoadHead => s.consumer.Waiting?
    case GetLoadTail => s.consumer.HeadSeen?
    case GetLoadTailFirst => s.consumer.Waiting?
    case GetLoadHeadSecond => s.consumer.TailSeen?
    case GetLoadByte => s.consumer.NotEmpty? && s.tail < |s.buffer|
    case GetStoreTail => s.consumer.ByteLoaded? && s.tail < |s.buffer|
  }

  /**
   * One step of either thread.  Whether the ring is full, or empty, is decided when the second of its positions is
   * loaded.
   */
  function Act(s: State, a: Action): (s': State)
    requires Enabled(s, a)
  {
    match a
    case PutLoadHead(x) => s.(producer := HeadLoaded(x, s.head))
    case PutLoadTail =>
      var h := s.producer.h;
      if (if h + 1 == |s.buffer| then 0 else h + 1) == s.tail then s.(producer := Idle)
        else s.(producer := NotFull(s.producer.x))
    case PutLoadTailFirst(x) => s.(producer := TailLoaded(x, s.tail, |s.consumed|))
    case PutLoadHeadSecond =>
      if (if s.head + 1 == |s.buffer| then 0 else s.head + 1) == s.producer.t then s.(producer := Idle)
        else s.(producer := NotFull(s.producer.x))
    case PutStoreByte => s.(buffer := Written(s.buffer, s.head, s.producer.x), producer := ByteStored(s.producer.x))
    case PutStoreHead =>
      s.(head := Advance(s.head, |s.buffer|), produced := s.produced + [s.producer.x], producer := Idle)
    case GetLoadHead => s.(consumer := HeadSeen(s.head, |s.produced|))
    case GetLoadTail => if s.consumer.h == s.tail then s.(consumer := Waiting) else s.(consumer := NotEmpty)
    case GetLoadTailFirst => s.(consumer := TailSeen(s.tail))
    case GetLoadHeadSecond => if s.head == s.consumer.t then s.(consumer := Waiting) else s.(consumer := NotEmpty)
    case GetLoadByte => s.(consumer := ByteLoaded(s.buffer[s.tail]))
    case GetStoreTail =>
      s.(tail := Advance(s.tail, |s.buffer|), consumed := s.consumed + [s.consumer.b], consumer := Waiting)
  }

  function Written(b: seq<byte>, i: nat, x: byte): (r: seq<byte>)
    requires i < |b|
    ensures |r| == |b| && r[i] == x && forall j :: 0 <= j < |b| && j != i ==> r[j] == b[j]
  {
    b[..i] + [x] + b[i + 1..]
  }

  /** After circular_buf_init. */
  ghost predicate Initial(s: State) {
    |s.buffer| > 1 && s.head == s.tail == 0 && s.producer.Idle? && s.consumer.Waiting? && s.produced == s.consumed == []
  }

  /** Bytes put and not yet got, in order. */
  ghost function Stored(s: State): (t: seq<byte>)
    requires |s.consumed| <= |s.produced|
  {
    s.produced[|s.consumed|..]
  }

  /**
   * Positions follow the counts, the bytes between them are in their places, and each thread is right about what it
   * knows.
   */
  ghost predicate Inv(s: State) {
    var max, n, m := |s.buffer|, |s.consumed|, |s.produced|;
    && max > 1 && n <= m < n + max
    && s.head == Slot(m, max) && s.tail == Slot(n, max)
    && s.consumed == s.produced[..n]
    && (forall k :: n <= k < m ==> s.buffer[Slot(k, max)] == s.produced[k])
    && (s.producer.HeadLoaded? ==> s.producer.h == s.head)
    && (s.producer.TailLoaded? ==>
      s.producer.got <= n && m < s.producer.got + max && s.producer.t == Slot(s.producer.got, max))
    && (s.producer.NotFull? || s.producer.ByteStored? ==> m + 1 < n + max)
    && (s.producer.ByteStored? ==> s.buffer[s.head] == s.producer.x)
    && (s.consumer.HeadSeen? ==> n <= s.consumer.seen <= m && s.consumer.h == Slot(s.consumer.seen, max))
    && (s.consumer.TailSeen? ==> s.consumer.t == s.tail)
    && (s.consumer.NotEmpty? || s.consumer.ByteLoaded? ==> n < m)
    && (s.consumer.ByteLoaded? ==> s.consumer.b == s.produced[n])
  }

  lemma InvInitial(s: State)
    requires Initial(s)
    ensures Inv(s)
  {
    Split(0, |s.buffer|, 0, 0);
  }

  lemma Positions(s: State)
    requires Inv(s)
    ensures s.head < |s.buffer| && s.tail < |s.buffer|
  {
  }

  lemma LoadTailKeeps(s: State)
    requires Inv(s) && Enabled(s, PutLoadTail)
    ensures Inv(Act(s, PutLoadTail))
    ensures Act(s, PutLoadTail).producer.Idle? <==> |s.produced| + 1 == |s.consumed| + |s.buffer|
  {
    hide Slot;
    NextSlotFree(|s.consumed|, |s.produced|, |s.buffer|);
  }

  /** The slot behind the head is that of the tail exactly when all places but one are taken. */
  lemma NextSlotFree(n: nat, m: nat, max: nat)
    requires max > 1 && n <= m < n + max
    ensures Slot(m, max) < max && (if Slot(m, max) + 1 == max then 0 else Slot(m, max) + 1) == Slot(m + 1, max)
    ensures Slot(m + 1, max) == Slot(n, max) <==> m + 1 == n + max
  {
    SlotNext(m, max);
    if Slot(m + 1, max) == Slot(n, max) && m + 1 < n + max {
      SlotInjective(n, m + 1, max);
    }
    if m + 1 == n + max {
      SlotAround(n, max);
    }
  }

  lemma LoadHeadSecondKeeps(s: State)
    requires Inv(s) && Enabled(s, PutLoadHeadSecond)
    ensures Inv(Act(s, PutLoadHeadSecond))
    ensures Act(s, PutLoadHeadSecond).producer.Idle? <==> |s.produced| + 1 == s.producer.got + |s.buffer|
  {
    hide Slot;
    NextSlotFree(s.producer.got, |s.produced|, |s.buffer|);
  }

  lemma GetLoadHeadSecondKeeps(s: State)
    requires Inv(s) && Enabled(s, GetLoadHeadSecond)
    ensures Inv(Act(s, GetLoadHeadSecond))
    ensures Act(s, GetLoadHeadSecond).consumer.Waiting? <==> |s.produced| == |s.consumed|
  {
    hide Slot;
    if s.head == s.tail {
      SlotInjective(|s.consumed|, |s.produced|, |s.buffer|);
    }
  }

  lemma SlotAround(n: nat, max: nat)
    requires max > 0
    ensures Slot(n + max, max) == Slot(n, max)
  {
    MulNext(n / max, max);
    Split(n + max, max, n / max + 1, n % max);
  }

  /** The slot written is none of those whose bytes are still to be got. */
  lemma StoreByteKeeps(s: State)
    requires Inv(s) && Enabled(s, PutStoreByte)
    ensures Inv(Act(s, PutStoreByte))
  {
    hide Slot;
    var max, n, m := |s.buffer|, |s.consumed|, |s.produced|;
    var s' := Act(s, PutStoreByte);
    forall k | n <= k < m
      ensures s'.buffer[Slot(k, max)] == s.produced[k]
    {
      if Slot(k, max) == Slot(m, max) {
        SlotInjective(k, m, max);
      }
    }
  }

  lemma StoreHeadKeeps(s: State)
    requires Inv(s) && Enabled(s, PutStoreHead)
    ensures Inv(Act(s, PutStoreHead))
  {
    hide Slot;
    SlotNext(|s.produced|, |s.buffer|);
  }

  lemma GetLoadTailKeeps(s: State)
    requires Inv(s) && Enabled(s, GetLoadTail)
    ensures Inv(Act(s, GetLoadTail))
    ensures Act(s, GetLoadTail).consumer.Waiting? <==> s.consumer.seen == |s.consumed|
  {
    hide Slot;
    if s.consumer.h == s.tail {
      SlotInjective(|s.consumed|, s.consumer.seen, |s.buffer|);
    }
  }

  lemma StoreTailKeeps(s: State)
    requires Inv(s) && Enabled(s, GetStoreTail)
    ensures Inv(Act(s, GetStoreTail))
  {
    hide Slot;
    SlotNext(|s.consumed|, |s.buffer|);
    var n := |s.consumed|;
    assert s.produced[..n + 1] == s.produced[..n] + [s.produced[n]];
  }

  /** Every step of either thread keeps the invariant. */
  lemma InvKept(s: State, a: Action)
    requires Inv(s) && Enabled(s, a)
    ensures Inv(Act(s, a))
  {
    match a
    case PutLoadHead(_) =>
    case PutLoadTail => LoadTailKeeps(s);
    case PutLoadTailFirst(_) =>
    case PutLoadHeadSecond => LoadHeadSecondKeeps(s);
    case PutStoreByte => StoreByteKeeps(s);
    case PutStoreHead => StoreHeadKeeps(s);
    case GetLoadHead =>
    case GetLoadTail => GetLoadTailKeeps(s);
    case GetLoadTailFirst =>
    case GetLoadHeadSecond => GetLoadHeadSecondKeeps(s);
    case GetLoadByte => Positions(s);
    case GetStoreTail => StoreTailKeeps(s);
  }

  /** A sequence of steps, of both threads in any order, can be taken from s and leads to s'. */
  ghost predicate Leads(s: State, run: seq<Action>, s': State)
    decreases |run|
  {
    if run == [] then s' == s else Enabled(s, run[0]) && Leads(Act(s, run[0]), run[1..], s')
  }

  lemma SameRing(s: State, a: Action)
    requires Enabled(s, a)
    ensures |Act(s, a).buffer| == |s.buffer|
  {
  }

  lemma {:induction false} InvAlways(s: State, run: seq<Action>, s': State)
    requires Inv(s) && Leads(s, run, s')
    ensures Inv(s') && |s'.buffer| == |s.buffer|
    decreases |run|
  {
    hide Inv, Act, Enabled;
    if run != [] {
      InvKept(s, run[0]);
      SameRing(s, run[0]);
      InvAlways(Act(s, run[0]), run[1..], s');
    }
  }

  /**
   * In every state any interleaving can lead to: what has been got is what was put, in order, up to what is still
   * stored, of which there are fewer bytes than the ring has places.
   */
  lemma NothingLost(s: State, run: seq<Action>, s': State)
    requires Initial(s) && Leads(s, run, s')
    ensures |s'.consumed| <= |s'.produced| && s'.consumed + Stored(s') == s'.produced
    ensures |Stored(s')| <= |s'.buffer| - 1 && |s'.buffer| == |s.buffer|
  {
    InvInitial(s);
    InvAlways(s, run, s');
  }

  /** The byte a get is about to deliver is the oldest one stored, and no step of the producer changes its slot. */
  lemma OldestDelivered(s: State, run: seq<Action>, s': State, x: byte)
    requires Initial(s) && Leads(s, run, s') && s'.consumer == ByteLoaded(x)
    ensures |s'.consumed| < |s'.produced| && Stored(s')[0] == x && s'.tail < |s'.buffer| && s'.buffer[s'.tail] == x
  {
    InvInitial(s);
    InvAlways(s, run, s');
  }

  /** A put gives up exactly when the ring was full as the tail was loaded, a get when it was empty as the head was. */
  lemma RefusedRightly(s: State, run: seq<Action>, s': State, a: Action)
    requires Initial(s) && Leads(s, run, s') && Enabled(s', a)
    ensures |s'.consumed| <= |s'.produced|
    ensures a.PutLoadTail? ==> (Act(s', a).producer.Idle? <==> |Stored(s')| == |s'.buffer| - 1)
    ensures a.PutLoadHeadSecond? ==> (Act(s', a).producer.Idle? <==> |s'.produced| - s'.producer.got == |s'.buffer| - 1)
    ensures a.GetLoadTail? ==> (Act(s', a).consumer.Waiting? <==> s'.consumer.seen == |s'.consumed|)
    ensures a.GetLoadHeadSecond? ==> (Act(s', a).consumer.Waiting? <==> Stored(s') == [])
  {
    InvInitial(s);
    InvAlways(s, run, s');
    if a.PutLoadTail? {
      LoadTailKeeps(s');
    } else if a.PutLoadHeadSecond? {
      LoadHeadSecondKeeps(s');
    } else if a.GetLoadTail? {
      GetLoadTailKeeps(s');
    } else if a.GetLoadHeadSecond? {
      GetLoadHeadSecondKeeps(s');
    }
  }

  // ----- One thread -----

  class CircularBuffer {
    const buffer: array<byte>
    var head: nat
    var tail: nat

    /** circular_buf_init */
    constructor (buffer: array<byte>)
      requires buffer.Length > 1
      ensures Valid() && this.buffer == buffer && Contents() == []
    {
      this.buffer, head, tail := buffer, 0, 0;
    }

    ghost predicate Valid()
      reads this
    {
      buffer.Length > 1 && head < buffer.Length && tail < buffer.Length
    }

    /** Number of bytes stored. */
    ghost function Count(): (n: nat)
      requires Valid()
      reads this
      ensures n < buffer.Length
    {
      if head >= tail then head - tail else buffer.Length + head - tail
    }

    /** The bytes stored, oldest first. */
    ghost function Contents(): (t: seq<byte>)
      requires Valid()
      reads this, buffer
      ensures |t| == Count()
    {
      if head >= tail then buffer[tail..head] else buffer[tail..] + buffer[..head]
    }

    /** circular_buf_full */
    method Full() returns (r: bool)
      requires Valid()
      ensures r <==> |Contents()| == buffer.Length - 1
    {
      r := Advance(head, buffer.Length) == tail;
    }

    /** circular_buf_empty */
    method Empty() returns (r: bool)
      requires Valid()
      ensures r <==> Contents() == []
    {
      r := head == tail;
    }

    /** circular_buf_size */
    method Size() returns (size: nat)
      requires Valid()
      ensures size == |Contents()|
    {
      size := buffer.Length - 1;
      var full := Full();
      if !full {
        if head >= tail {
          size := head - tail;
        } else {
          size := buffer.Length + head - tail;
        }
      }
    }

    /** circular_buf_try_put */
    method TryPut(data: byte) returns (r: int)
      requires Valid()
      modifies this, buffer
      ensures Valid() && r == (if |old(Contents())| == buffer.Length - 1 then -1 else 0)
      ensures Contents() == old(Contents()) + if r == 0 then [data] else []
    {
      r := -1;
      var full := Full();
      if !full {
        buffer[head] := data;
        head := Advance(head, buffer.Length);
        r := 0;
      }
    }

    /** circular_buf_put: the oldest byte gives way when the ring is full. */
    method Put(data: byte)
      requires Valid()
      modifies this, buffer
      ensures Valid()
      ensures |old(Contents())| == buffer.Length - 1 ==> Contents() == old(Contents())[1..] + [data]
      ensures |old(Contents())| < buffer.Length - 1 ==> Contents() == old(Contents()) + [data]
    {
      buffer[head] := data;
      var full := Full();
      if full {
        tail := Advance(tail, buffer.Length);
      }
      head := Advance(head, buffer.Length);
    }

    /** circular_buf_get */
    method Get() returns (r: int, data: byte)
      requires Valid()
      modifies this
      ensures Valid() && r == (if old(Contents()) == [] then -1 else 0)
      ensures r == 0 ==> old(Contents()) == [data] + Contents()
      ensures r != 0 ==> Contents() == old(Contents())
    {
      r, data := -1, 0;
      var empty := Empty();
      if !empty {
        data := buffer[tail];
        tail := Advance(tail, buffer.Length);
        r := 0;
      }
    }

    /** circular_buf_peek: the oldest bytes, which stay where they are. */
    method Peek(data: array<byte>, count: nat) returns (r: int)
      requires Valid() && data != buffer && count <= data.Length
      modifies data
      ensures Valid() && Contents() == old(Contents())
      ensures r == if Contents() == [] || count > |Contents()| then -1 else 0
      ensures r == 0 ==> data[..count] == Contents()[..count]
      ensures data[if r == 0 then count else 0..] == old(data[if r == 0 then count else 0..])
    {
      r := -1;
      var empty := Empty();
      var size := Size();
      if empty || count > size {
        return;
      }
      var pos, i := tail, 0;
      while i < count
        invariant 0 <= i <= count &&
          pos == (if tail + i >= buffer.Length then tail + i - buffer.Length else tail + i) < buffer.Length
        invariant data[..i] == Contents()[..i] && Contents() == old(Contents())
        invariant data[count..] == old(data[count..])
      {
        assert Contents()[i] == buffer[pos];
        data[i] := buffer[pos];
        pos := Advance(pos, buffer.Length);
        i := i + 1;
      }
      r := 0;
    }
  }
}
