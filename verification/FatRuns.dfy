/** Whole runs of reads, writes and seeks in one open file, seen from outside as bytes with a position. */
module FatRuns {
  import opened Bytes
  import opened FatVolume
  import opened FatTable
  import opened FatFileData
  import opened FatFile

  datatype Op = ReadOp(btr: nat) | WriteOp(data: seq<byte>) | SeekOp(target: nat)

  /** What a call returns: the bytes read, or the number of bytes written. */
  datatype Reply = Reply(ok: bool, data: seq<byte>, bw: nat)

  /** What can be observed between calls; full means that no cluster is free. */
  datatype Snapshot = Snapshot(content: seq<byte>, ptr: nat, full: bool)

  datatype Mode = Mode(canRead: bool, canWrite: bool)

  /** The bytes with a position that a file is meant to be: what one call may do to them. */
  ghost predicate StepOk(m: Mode, op: Op, r: Reply, a: Snapshot, b: Snapshot) {
    && a.ptr <= |a.content| && b.ptr <= |b.content|
    && match op
       case ReadOp(btr) =>
         && r.ok == m.canRead && b.content == a.content && b.ptr == a.ptr + |r.data|
         && r.data == a.content[a.ptr..b.ptr]
         && |r.data| == if !m.canRead then 0 else if btr < |a.content| - a.ptr then btr else |a.content| - a.ptr
       case WriteOp(data) =>
         && r.ok == m.canWrite && r.bw <= |data| && (!m.canWrite ==> r.bw == 0)
         && b.content == SpliceBytes(a.content, a.ptr, data[..r.bw]) && b.ptr == a.ptr + r.bw
         && (m.canWrite && r.bw < |data| ==> b.full || b.ptr == 0xFFFF_FFFF)
       case SeekOp(target) =>
         && a.content <= b.content && |b.content| == (if b.ptr > |a.content| then b.ptr else |a.content|)
         && (target <= |a.content| ==> b.ptr == target)
         && (target > |a.content| && !m.canWrite ==> b.ptr == |a.content|)
         && (target > |a.content| && m.canWrite ==>
              b.ptr == (if target > 0xFFFF_FFFF then 0xFFFF_FFFF else target) ||
              (b.full && b.ptr < target && b.ptr < 0xFFFF_FFFF))
  }

  ghost predicate RunOk(m: Mode, ops: seq<Op>, rs: seq<Reply>, trace: seq<Snapshot>) {
    && |rs| == |ops| && |trace| == |ops| + 1
    && forall i :: 0 <= i < |ops| ==> StepOk(m, ops[i], rs[i], trace[i], trace[i + 1])
  }

  ghost function Observe(file: File): Snapshot
    requires file.Valid()
    reads file, file.buf, file.fs, file.fs.win
  {
    Snapshot(file.Content(), file.fptr, Free(file.fs.Table()) == 0)
  }

  ghost predicate Writable(op: Op) { op.WriteOp? ==> |op.data| <= 0xFFFF_FFFF }

  /** One call of f_read, f_write or f_lseek. */
  method Call(file: File, op: Op) returns (r: Reply)
    requires file.Valid() && Writable(op)
    modifies file, file.buf, file.fs`disk, file.fs`wflag, file.fs`winsect, file.fs.win, file.fs`lastClst,
      file.fs`freeClst, file.fs`fsiDirty
    ensures file.Valid()
    ensures StepOk(Mode(file.canRead, file.canWrite), op, r, old(Observe(file)), Observe(file))
  {
    hide File.Core, File.Positioned, File.Content, File.Valid, Free;
    Position(file);
    match op
    case ReadOp(btr) =>
      var ok, data := file.Read(btr);
      r := Reply(ok, data, 0);
    case WriteOp(data) =>
      var ok, bw := file.Write(data);
      r := Reply(ok, [], bw);
    case SeekOp(target) =>
      file.LSeek(target);
      r := Reply(true, [], 0);
    Position(file);
  }

  lemma Position(file: File)
    requires file.Valid()
    ensures file.fptr <= |file.Content()| == file.objsize
  {
    hide File.Positioned, File.Content;
  }

  /** Any sequence of calls on one open file is a run of bytes with a position. */
  method Run(file: File, ops: seq<Op>) returns (rs: seq<Reply>, ghost trace: seq<Snapshot>)
    requires file.Valid() && forall i :: 0 <= i < |ops| ==> Writable(ops[i])
    modifies file, file.buf, file.fs`disk, file.fs`wflag, file.fs`winsect, file.fs.win, file.fs`lastClst,
      file.fs`freeClst, file.fs`fsiDirty
    ensures file.Valid() && RunOk(Mode(file.canRead, file.canWrite), ops, rs, trace)
    ensures trace[0] == old(Observe(file)) && trace[|ops|] == Observe(file)
  {
    hide File.Valid, StepOk, RunOk, Observe;
    rs, trace := [], [Observe(file)];
    ghost var m := Mode(file.canRead, file.canWrite);
    RunNone(m, trace);
    var i := 0;
    while i < |ops|
      invariant 0 <= i <= |ops| && file.Valid() && RunOk(m, ops[..i], rs, trace) && |trace| == i + 1
      invariant trace[0] == old(Observe(file)) && trace[i] == Observe(file)
    {
      var r := Call(file, ops[i]);
      RunMore(m, ops[..i], rs, trace, ops[i], r, Observe(file));
      SeqMore(ops, i);
      rs, trace := rs + [r], trace + [Observe(file)];
      i := i + 1;
    }
    assert ops[..i] == ops;
  }

  lemma SeqMore<T>(s: seq<T>, i: nat)
    requires i < |s|
    ensures s[..i + 1] == s[..i] + [s[i]]
  {
  }

  lemma RunNone(m: Mode, trace: seq<Snapshot>)
    requires |trace| == 1
    ensures RunOk(m, [], [], trace)
  {
  }

  lemma RunMore(m: Mode, ops: seq<Op>, rs: seq<Reply>, trace: seq<Snapshot>, op: Op, r: Reply, s: Snapshot)
    requires RunOk(m, ops, rs, trace) && |trace| == |ops| + 1 && StepOk(m, op, r, trace[|ops|], s)
    ensures |trace| == |ops| + 1 && RunOk(m, ops + [op], rs + [r], trace + [s])
  {
    hide StepOk;
  }

  /** A read behind a seek to a place in the file delivers the bytes from that place on. */
  lemma SeekThenRead(m: Mode, ops: seq<Op>, rs: seq<Reply>, trace: seq<Snapshot>, i: nat, p: nat, n: nat)
    requires RunOk(m, ops, rs, trace) && i + 1 < |ops| && ops[i] == SeekOp(p) && ops[i + 1] == ReadOp(n)
    requires m.canRead && p <= |trace[i].content|
    ensures rs[i + 1].ok && trace[i + 2].content == trace[i].content
    ensures rs[i + 1].data == trace[i].content[p..if p + n <= |trace[i].content| then p + n else |trace[i].content|]
  {
    assert StepOk(m, ops[i], rs[i], trace[i], trace[i + 1]);
    assert StepOk(m, ops[i + 1], rs[i + 1], trace[i + 1], trace[i + 2]);
  }

  // ----- The last byte written -----

  datatype Known = Unknown | Byte(b: byte)

  /**
   * The byte at place p after i calls, as far as it is determined: the one written there last, or there from the start.
   */
  ghost function Latest(ops: seq<Op>, rs: seq<Reply>, trace: seq<Snapshot>, i: nat, p: nat): Known
    requires i <= |ops| && |rs| == |ops| && |trace| == |ops| + 1
  {
    if i == 0 then
      if p < |trace[0].content| then Byte(trace[0].content[p]) else Unknown
    else
      var at := trace[i - 1].ptr;
      if ops[i - 1].WriteOp? && at <= p < at + rs[i - 1].bw && p - at < |ops[i - 1].data| then
        Byte(ops[i - 1].data[p - at])
      else Latest(ops, rs, trace, i - 1, p)
  }

  /** Call j was a seek that stretched the file over place p. */
  ghost predicate GapAt(ops: seq<Op>, trace: seq<Snapshot>, j: nat, p: nat) {
    j < |ops| && j + 1 < |trace| && ops[j].SeekOp? && |trace[j].content| <= p < |trace[j + 1].content|
  }

  ghost predicate InGap(ops: seq<Op>, trace: seq<Snapshot>, i: nat, p: nat) {
    exists j :: 0 <= j < i && GapAt(ops, trace, j, p)
  }

  lemma SpliceAt(c: seq<byte>, at: nat, b: seq<byte>, p: nat)
    requires at <= |c| && p < |SpliceBytes(c, at, b)|
    ensures SpliceBytes(c, at, b)[p] == if at <= p < at + |b| then b[p - at] else if p < |c| then c[p] else 0
  {
  }

  /**
   * After any run, a file holds at each place what was written there last, or what was there from the start; only
   * what a seek behind the end left in between is not determined.
   */
  lemma {:induction false} HoldsLatest(m: Mode, ops: seq<Op>, rs: seq<Reply>, trace: seq<Snapshot>, i: nat, p: nat)
    requires RunOk(m, ops, rs, trace) && i <= |ops|
    ensures var l := Latest(ops, rs, trace, i, p);
      && (l.Byte? ==> p < |trace[i].content| && trace[i].content[p] == l.b)
      && (l.Unknown? && p < |trace[i].content| ==> InGap(ops, trace, i, p))
  {
    hide SpliceBytes;
    if i > 0 {
      HoldsLatest(m, ops, rs, trace, i - 1, p);
      assert StepOk(m, ops[i - 1], rs[i - 1], trace[i - 1], trace[i]);
      if ops[i - 1].WriteOp? && p < |trace[i].content| {
        SpliceAt(trace[i - 1].content, trace[i - 1].ptr, ops[i - 1].data[..rs[i - 1].bw], p);
      }
      if ops[i - 1].SeekOp? && p < |trace[i].content| && p >= |trace[i - 1].content| {
        assert GapAt(ops, trace, i - 1, p);
      }
    }
  }

  /** In particular, whatever a read delivers was written last at its place. */
  lemma ReadsLatest(m: Mode, ops: seq<Op>, rs: seq<Reply>, trace: seq<Snapshot>, i: nat, k: nat)
    requires RunOk(m, ops, rs, trace) && i < |ops| && ops[i].ReadOp? && k < |rs[i].data|
    ensures var l := Latest(ops, rs, trace, i, trace[i].ptr + k);
      if l.Byte? then rs[i].data[k] == l.b else InGap(ops, trace, i, trace[i].ptr + k)
  {
    HoldsLatest(m, ops, rs, trace, i, trace[i].ptr + k);
    assert StepOk(m, ops[i], rs[i], trace[i], trace[i + 1]);
  }
}
