/** The upload buffer of the mail and Telegram files: a byte queue that Close hands to a sender. */
module Buffer {

  type Byte = bv8

  datatype Buffer = Buffer(content: seq<Byte>, at: nat)
  {
    predicate Valid() {
      at <= |content|
    }

    function Rest(): seq<Byte>
      requires Valid()
    {
      content[at..]
    }
  }

  const EMPTY := Buffer([], 0)

  function Min(a: nat, b: nat): nat {
    if a <= b then a else b
  }

  function Push(b: Buffer, data: seq<Byte>): Buffer {
    b.(content := b.content + data)
  }

  datatype Chunk = Chunk(data: seq<Byte>, eof: bool)

  /** Reads at most size bytes. Only a non-empty read of a drained buffer reports the end. */
  function Pull(b: Buffer, size: nat): (Chunk, Buffer)
    requires b.Valid()
  {
    if size > 0 && b.at == |b.content| then (Chunk([], true), b)
    else
      var n := Min(size, |b.content| - b.at);
      (Chunk(b.content[b.at..b.at + n], false), b.(at := b.at + n))
  }

  /** What a sender gets that reads with these sizes, and the buffer it leaves. */
  function Drain(b: Buffer, sizes: seq<nat>): (seq<Byte>, Buffer)
    requires b.Valid()
    decreases |sizes|
  {
    if sizes == [] then ([], b)
    else
      var (chunk, b') := Pull(b, sizes[0]);
      var (rest, b'') := Drain(b', sizes[1..]);
      (chunk.data + rest, b'')
  }

  /** A sender gets the next bytes in order, whatever the sizes, and moves nothing but the position. */
  lemma {:induction false} DrainGivesTheNextBytes(b: Buffer, sizes: seq<nat>)
    requires b.Valid()
    ensures var (data, b') := Drain(b, sizes);
      b'.Valid() && b'.content == b.content && b.at <= b'.at && data == b.content[b.at..b'.at]
    decreases |sizes|
  {
    if sizes == [] {
    } else {
      DrainGivesTheNextBytes(Pull(b, sizes[0]).1, sizes[1..]);
    }
  }

  function Sum(sizes: seq<nat>): nat {
    if sizes == [] then 0 else sizes[0] + Sum(sizes[1..])
  }

  /** Reads come back short only at the end: they deliver what they ask for, or all that is left. */
  lemma {:induction false} DrainDeliversWhatIsAskedFor(b: Buffer, sizes: seq<nat>)
    requires b.Valid()
    ensures |Drain(b, sizes).0| == if Sum(sizes) <= |b.content| - b.at then Sum(sizes) else |b.content| - b.at
    decreases |sizes|
  {
    if sizes == [] {
    } else {
      DrainDeliversWhatIsAskedFor(Pull(b, sizes[0]).1, sizes[1..]);
    }
  }

  /** Reading on with non-empty sizes drains the buffer within as many reads as bytes are left: the sender
      rebuilds the rest exactly. */
  lemma {:induction false} DrainFinishes(b: Buffer, sizes: seq<nat>)
    requires b.Valid() && |sizes| >= |b.content| - b.at && forall k :: 0 <= k < |sizes| ==> sizes[k] > 0
    ensures Drain(b, sizes) == (b.Rest(), Buffer(b.content, |b.content|))
    decreases |sizes|
  {
    if sizes == [] {
    } else {
      var (chunk, b') := Pull(b, sizes[0]);
      DrainFinishes(b', sizes[1..]);
      assert chunk.data + b'.Rest() == b.Rest();
    }
  }

  lemma EofIffDrained(b: Buffer, sizes: seq<nat>, size: nat)
    requires b.Valid() && size > 0
    ensures var b' := Drain(b, sizes).1;
      b'.Valid() && (Pull(b', size).0.eof <==> Drain(b, sizes).0 == b.Rest())
  {
    DrainGivesTheNextBytes(b, sizes);
    var (data, b') := Drain(b, sizes);
    assert |data| == b'.at - b.at && |b.Rest()| == |b.content| - b.at;
  }

  // ---------------------------------------------------------------- the life of one handle

  datatype Event =
    | Wrote(data: seq<Byte>)
    | WasRead(size: nat)
    | Closed(chunks: seq<nat>, sent: bool)  // the sizes the sender reads with, and whether the send succeeded

  function Step(b: Buffer, e: Event): (b': Buffer)
    requires b.Valid()
    ensures b'.Valid()
  {
    match e
    case Wrote(data) => Push(b, data)
    case WasRead(size) => Pull(b, size).1
    case Closed(chunks, sent) =>
      DrainGivesTheNextBytes(b, chunks);
      if sent then EMPTY else Drain(b, chunks).1
  }

  function After(events: seq<Event>, n: nat): (b: Buffer)
    requires n <= |events|
    ensures b.Valid()
  {
    if n == 0 then EMPTY else Step(After(events, n - 1), events[n - 1])
  }

  /** The bytes written since the last successful Close. */
  function Written(events: seq<Event>, n: nat): seq<Byte>
    requires n <= |events|
  {
    if n == 0 then []
    else match events[n - 1]
      case Wrote(data) => Written(events, n - 1) + data
      case WasRead(_) => Written(events, n - 1)
      case Closed(_, sent) => if sent then [] else Written(events, n - 1)
  }

  /** The bytes handed out since the last successful Close, to readers and to failing senders. */
  function HandedOut(events: seq<Event>, n: nat): seq<Byte>
    requires n <= |events|
  {
    if n == 0 then []
    else match events[n - 1]
      case Wrote(_) => HandedOut(events, n - 1)
      case WasRead(size) => HandedOut(events, n - 1) + Pull(After(events, n - 1), size).0.data
      case Closed(chunks, sent) =>
        if sent then [] else HandedOut(events, n - 1) + Drain(After(events, n - 1), chunks).0
  }

  /** First in, first out: the content is what was written, and what was handed out is the part of it before
      the position. */
  lemma {:induction false} FirstInFirstOut(events: seq<Event>, n: nat)
    requires n <= |events|
    ensures var b := After(events, n);
      && b.content == Written(events, n)
      && b.at <= |b.content| && HandedOut(events, n) == b.content[..b.at]
  {
    if n == 0 {
    } else {
      FirstInFirstOut(events, n - 1);
      var before := After(events, n - 1);
      match events[n - 1]
      case Wrote(data) =>
      case WasRead(size) =>
        HandsOutInOrder(before, Pull(before, size).0.data, Pull(before, size).1);
      case Closed(chunks, sent) =>
        DrainGivesTheNextBytes(before, chunks);
        HandsOutInOrder(before, Drain(before, chunks).0, Drain(before, chunks).1);
    }
  }

  lemma HandsOutInOrder(b: Buffer, data: seq<Byte>, b': Buffer)
    requires b.Valid() && b'.Valid() && b'.content == b.content && b.at <= b'.at && data == b.content[b.at..b'.at]
    ensures b.content[..b.at] + data == b'.content[..b'.at]
  {
  }

  /** What a successful Close sends to a sender that reads to the end, together with what had been handed out
      before, is everything written since the previous one. */
  lemma SenderGetsTheRest(events: seq<Event>, n: nat, chunks: seq<nat>)
    requires n < |events| && events[n] == Closed(chunks, true)
    requires |chunks| >= |After(events, n).content| - After(events, n).at
    requires forall k :: 0 <= k < |chunks| ==> chunks[k] > 0
    ensures HandedOut(events, n) + Drain(After(events, n), chunks).0 == Written(events, n)
  {
    FirstInFirstOut(events, n);
    DrainFinishes(After(events, n), chunks);
  }
}
