/** The logging wrapper around an open file, over an arbitrary source file. */
module FsLog {
  import opened Wrappers
  import opened Buffer

  datatype FileOp =
    | ReadOp(size: nat)
    | ReadAtOp(size: nat, offset: int)
    | WriteOp(data: seq<Byte>)
    | WriteAtOp(data: seq<Byte>, offset: int)
    | WriteStringOp(text: string)
    | CloseOp(chunks: seq<nat>, sent: bool)  // what the environment does to the close
    | OtherOp(request: string)               // Seek, Name, Readdir, Stat, Sync, Truncate: passed on as they are

  datatype Reply = Reply(n: nat, error: Option<string>, data: seq<Byte>)

  /** A source file is any deterministic state machine. */
  type Machine<!S> = (S, FileOp) -> (S, Reply)

  predicate Reads(op: FileOp) {
    op.ReadOp? || op.ReadAtOp?
  }

  predicate Writes(op: FileOp) {
    op.WriteOp? || op.WriteAtOp? || op.WriteStringOp?
  }

  datatype Logged<S> = Logged(src: S, lengthRead: nat, lengthWritten: nat)

  function LogStep<S>(step: Machine<S>, st: Logged<S>, op: FileOp): (Logged<S>, Reply) {
    var (src, r) := step(st.src, op);
    (Logged(src,
            if Reads(op) && r.error.None? then st.lengthRead + r.n else st.lengthRead,
            if Writes(op) && r.error.None? then st.lengthWritten + r.n else st.lengthWritten),
     r)
  }

  class Source<S> {
    var state: S
    const step: Machine<S>

    constructor (state: S, step: Machine<S>)
      ensures this.state == state && this.step == step
    {
      this.state, this.step := state, step;
    }

    method Call(op: FileOp) returns (r: Reply)
      modifies this
      ensures (state, r) == step(old(state), op)
    {
      var (next, reply) := step(state, op);
      state := next;
      r := reply;
    }
  }

  class File<S> {
    const src: Source<S>
    var lengthRead: nat
    var lengthWritten: nat

    constructor (src: Source<S>)
      ensures this.src == src && View() == Logged(src.state, 0, 0)
    {
      this.src, lengthRead, lengthWritten := src, 0, 0;
    }

    function View(): Logged<S>
      reads this, src
    {
      Logged(src.state, lengthRead, lengthWritten)
    }

    method Read(size: nat) returns (r: Reply)
      modifies this, src
      ensures (View(), r) == LogStep(src.step, old(View()), ReadOp(size))
      ensures lengthRead == old(lengthRead) + (if r.error.None? then r.n else 0)
      ensures lengthWritten == old(lengthWritten)
    {
      r := src.Call(ReadOp(size));
      if r.error.None? {
        lengthRead := lengthRead + r.n;
      }
    }

    method ReadAt(size: nat, offset: int) returns (r: Reply)
      modifies this, src
      ensures (View(), r) == LogStep(src.step, old(View()), ReadAtOp(size, offset))
      ensures lengthRead == old(lengthRead) + (if r.error.None? then r.n else 0)
      ensures lengthWritten == old(lengthWritten)
    {
      r := src.Call(ReadAtOp(size, offset));
      if r.error.None? {
        lengthRead := lengthRead + r.n;
      }
    }

    method Write(data: seq<Byte>) returns (r: Reply)
      modifies this, src
      ensures (View(), r) == LogStep(src.step, old(View()), WriteOp(data))
      ensures lengthRead == old(lengthRead)
      ensures lengthWritten == old(lengthWritten) + (if r.error.None? then r.n else 0)
    {
      r := src.Call(WriteOp(data));
      if r.error.None? {
        lengthWritten := lengthWritten + r.n;
      }
    }

    method WriteAt(data: seq<Byte>, offset: int) returns (r: Reply)
      modifies this, src
      ensures (View(), r) == LogStep(src.step, old(View()), WriteAtOp(data, offset))
      ensures lengthRead == old(lengthRead)
      ensures lengthWritten == old(lengthWritten) + (if r.error.None? then r.n else 0)
    {
      r := src.Call(WriteAtOp(data, offset));
      if r.error.None? {
        lengthWritten := lengthWritten + r.n;
      }
    }

    method WriteString(text: string) returns (r: Reply)
      modifies this, src
      ensures (View(), r) == LogStep(src.step, old(View()), WriteStringOp(text))
      ensures lengthRead == old(lengthRead)
      ensures lengthWritten == old(lengthWritten) + (if r.error.None? then r.n else 0)
    {
      r := src.Call(WriteStringOp(text));
      if r.error.None? {
        lengthWritten := lengthWritten + r.n;
      }
    }

    method Delegate(request: string) returns (r: Reply)
      modifies this, src
      ensures (View(), r) == LogStep(src.step, old(View()), OtherOp(request))
      ensures lengthRead == old(lengthRead)
      ensures lengthWritten == old(lengthWritten)
    {
      r := src.Call(OtherOp(request));
    }

    /** Also reports the positive lengths. */
    method Close(chunks: seq<nat>, sent: bool) returns (r: Reply, reported: (Option<nat>, Option<nat>))
      modifies this, src
      ensures (View(), r) == LogStep(src.step, old(View()), CloseOp(chunks, sent))
      ensures lengthRead == old(lengthRead) && lengthWritten == old(lengthWritten)
      ensures reported.0 == if old(lengthRead) > 0 then Some(old(lengthRead)) else None
      ensures reported.1 == if old(lengthWritten) > 0 then Some(old(lengthWritten)) else None
    {
      r := src.Call(CloseOp(chunks, sent));
      reported := (if lengthRead > 0 then Some(lengthRead) else None,
                   if lengthWritten > 0 then Some(lengthWritten) else None);
    }
  }

  // ---------------------------------------------------------------- runs

  /** The source after n operations without the wrapper. */
  function Direct<S>(step: Machine<S>, s: S, ops: seq<FileOp>, n: nat): S
    requires n <= |ops|
  {
    if n == 0 then s else step(Direct(step, s, ops, n - 1), ops[n - 1]).0
  }

  function DirectReply<S>(step: Machine<S>, s: S, ops: seq<FileOp>, i: nat): Reply
    requires i < |ops|
  {
    step(Direct(step, s, ops, i), ops[i]).1
  }

  function Run<S>(step: Machine<S>, s: S, ops: seq<FileOp>, n: nat): Logged<S>
    requires n <= |ops|
  {
    if n == 0 then Logged(s, 0, 0) else LogStep(step, Run(step, s, ops, n - 1), ops[n - 1]).0
  }

  /** All bytes the replies to the selected operations account for; with errors or only without. */
  function Moved<S>(step: Machine<S>, s: S, ops: seq<FileOp>, n: nat, which: FileOp -> bool, withErrors: bool): nat
    requires n <= |ops|
  {
    if n == 0 then 0
    else
      var r := DirectReply(step, s, ops, n - 1);
      Moved(step, s, ops, n - 1, which, withErrors)
      + if which(ops[n - 1]) && (withErrors || r.error.None?) then r.n else 0
  }

  /** The wrapper is transparent: source and replies are those of the bare file. And its counters add up the
      counts of the calls that returned no error. */
  lemma {:induction false} WrapperIsTransparent<S>(step: Machine<S>, s: S, ops: seq<FileOp>, n: nat)
    requires n <= |ops|
    ensures var st := Run(step, s, ops, n);
      && st.src == Direct(step, s, ops, n)
      && (n < |ops| ==> LogStep(step, st, ops[n]).1 == DirectReply(step, s, ops, n))
      && st.lengthRead == Moved(step, s, ops, n, Reads, false)
      && st.lengthWritten == Moved(step, s, ops, n, Writes, false)
  {
    if n == 0 {
    } else {
      WrapperIsTransparent(step, s, ops, n - 1);
    }
  }

  /** No selected call returned a positive count together with an error. */
  ghost predicate NoPartialFailure<S>(step: Machine<S>, s: S, ops: seq<FileOp>, n: nat, which: FileOp -> bool)
    requires n <= |ops|
  {
    forall i :: 0 <= i < n && which(ops[i]) && DirectReply(step, s, ops, i).error.Some? ==>
      DirectReply(step, s, ops, i).n == 0
  }

  lemma {:induction false} MovedIffNoPartialFailure<S>(step: Machine<S>, s: S, ops: seq<FileOp>, n: nat,
                                                       which: FileOp -> bool)
    requires n <= |ops|
    ensures Moved(step, s, ops, n, which, false) <= Moved(step, s, ops, n, which, true)
    ensures Moved(step, s, ops, n, which, false) == Moved(step, s, ops, n, which, true)
       <==> NoPartialFailure(step, s, ops, n, which)
  {
    if n == 0 {
    } else {
      MovedIffNoPartialFailure(step, s, ops, n - 1, which);
    }
  }

  /** The counters are all the bytes moved exactly when no call failed halfway. */
  lemma CountersAreExactIff<S>(step: Machine<S>, s: S, ops: seq<FileOp>, n: nat)
    requires n <= |ops|
    ensures Run(step, s, ops, n).lengthRead == Moved(step, s, ops, n, Reads, true)
       <==> NoPartialFailure(step, s, ops, n, Reads)
    ensures Run(step, s, ops, n).lengthWritten == Moved(step, s, ops, n, Writes, true)
       <==> NoPartialFailure(step, s, ops, n, Writes)
  {
    WrapperIsTransparent(step, s, ops, n);
    MovedIffNoPartialFailure(step, s, ops, n, Reads);
    MovedIffNoPartialFailure(step, s, ops, n, Writes);
  }

  /** A read that returns its last bytes together with the end of the file is one that the counters miss. */
  lemma LastBytesWithEndAreNotCounted(step: Machine<bool>, data: seq<Byte>)
    requires forall s, op :: step(s, op) == (s, Reply(|data|, Some("EOF"), data))
    ensures Run(step, true, [ReadOp(8)], 1).lengthRead == 0
    ensures Moved(step, true, [ReadOp(8)], 1, Reads, true) == |data|
  {
    var ops := [ReadOp(8)];
    assert DirectReply(step, true, ops, 0) == Reply(|data|, Some("EOF"), data);
    assert Moved(step, true, ops, 0, Reads, true) == 0;
  }

  // ---------------------------------------------------------------- over the upload buffers

  type ValidBuffer = b: Buffer | b.Valid() witness EMPTY

  /** The mail and Telegram files: only Read, Write and Close do something. */
  function BufferFile(b: ValidBuffer, op: FileOp): (ValidBuffer, Reply) {
    match op
    case ReadOp(size) =>
      var (chunk, b') := Pull(b, size);
      (b', Reply(|chunk.data|, if chunk.eof then Some("EOF") else None, chunk.data))
    case WriteOp(data) => (Push(b, data), Reply(|data|, None, []))
    case CloseOp(chunks, sent) =>
      (Step(b, Closed(chunks, sent)), Reply(0, if sent then None else Some("send failed"), []))
    case ReadAtOp(_, _) => (b, Reply(0, Some("not implemented"), []))
    case WriteAtOp(_, _) => (b, Reply(0, Some("not implemented"), []))
    case WriteStringOp(_) => (b, Reply(0, Some("not implemented"), []))
    case OtherOp(_) => (b, Reply(0, None, []))
  }

  function BytesWritten(ops: seq<FileOp>, n: nat): nat
    requires n <= |ops|
  {
    if n == 0 then 0 else BytesWritten(ops, n - 1) + if ops[n - 1].WriteOp? then |ops[n - 1].data| else 0
  }

  function BytesDelivered(b: ValidBuffer, ops: seq<FileOp>, n: nat): nat
    requires n <= |ops|
  {
    if n == 0 then 0
    else BytesDelivered(b, ops, n - 1) + |DirectReply(BufferFile, b, ops, n - 1).data|
  }

  /** Reads report either bytes or the end of the file, writes never fail, a close fails exactly when sending
      does, and no other call delivers or changes anything. */
  lemma BufferCallsAreAllOrNothing(b: ValidBuffer, op: FileOp)
    ensures var r := BufferFile(b, op).1;
      && (Reads(op) && r.error.None? ==> r.n == |r.data|)
      && (!(Reads(op) && r.error.None?) ==> r.data == [])
      && (Writes(op) && r.error.None? ==> op.WriteOp? && r.n == |op.data|)
      && (op.WriteOp? ==> r.error.None?)
      && (r.error.Some? ==> r.n == 0)
      && (op.ReadOp? ==> r.error == if op.size > 0 && b.at == |b.content| then Some("EOF") else None)
      && (op.CloseOp? ==> r.n == 0 && (r.error.None? <==> op.sent))
      && (op.ReadAtOp? || op.WriteAtOp? || op.WriteStringOp? ==> r.error == Some("not implemented"))
      && (op.OtherOp? ==> r == Reply(0, None, []))
      && (!op.ReadOp? && !op.WriteOp? && !op.CloseOp? ==> BufferFile(b, op).0 == b)
  {
  }

  /** Over an upload buffer both counters are exact: what was written, and what was delivered to the caller.
      What a sender reads during Close is not counted. */
  lemma {:induction false} BufferCountersAreExact(b: ValidBuffer, ops: seq<FileOp>, n: nat)
    requires n <= |ops|
    ensures Run(BufferFile, b, ops, n).lengthWritten == BytesWritten(ops, n)
    ensures Run(BufferFile, b, ops, n).lengthRead == BytesDelivered(b, ops, n)
  {
    if n == 0 {
    } else {
      BufferCountersAreExact(b, ops, n - 1);
      WrapperIsTransparent(BufferFile, b, ops, n - 1);
      BufferCallsAreAllOrNothing(Direct(BufferFile, b, ops, n - 1), ops[n - 1]);
      var st, op := Run(BufferFile, b, ops, n - 1), ops[n - 1];
      assert Run(BufferFile, b, ops, n) == LogStep(BufferFile, st, op).0;
      assert DirectReply(BufferFile, b, ops, n - 1) == BufferFile(st.src, op).1;
    }
  }
}
