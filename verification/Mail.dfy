/** The mail backend: the same upload buffer, attached to a mail on Close, without metadata. */
module Mail {
  import opened Wrappers
  import opened Buffer

  datatype Error = NotFound | SendFailed

  class File {
    const attached: bool  // whether the handle belongs to a file system
    var content: seq<Byte>
    var at: nat

    constructor (attached: bool)
      ensures this.attached == attached && View() == EMPTY
    {
      this.attached, this.content, this.at := attached, [], 0;
    }

    function View(): Buffer
      reads this
    {
      Buffer(content, at)
    }

    method Write(data: seq<Byte>) returns (n: nat)
      modifies this`content
      ensures n == |data| && View() == Push(old(View()), data)
      ensures content == old(content) + data && at == old(at)
    {
      content := content + data;
      n := |data|;
    }

    method Read(b: array<Byte>) returns (n: nat, eof: bool)
      requires View().Valid()
      modifies this`at, b
      ensures View().Valid() && View() == Pull(old(View()), b.Length).1
      ensures n <= b.Length && Chunk(b[..n], eof) == Pull(old(View()), b.Length).0
      ensures b[n..] == old(b[..])[n..]
      ensures n == (if b.Length <= |content| - old(at) then b.Length else |content| - old(at)) && at == old(at) + n
      ensures content == old(content) && b[..n] == content[old(at)..old(at) + n]
      ensures eof <==> b.Length > 0 && old(at) == |content|
    {
      n, eof := 0, false;
      if b.Length > 0 && at == |content| {
        eof := true;
        return;
      }
      n := Min(b.Length, |content| - at);
      forall i | 0 <= i < n {
        b[i] := content[at + i];
      }
      assert b[..n] == content[at..at + n];
      at := at + n;
    }

    /** Mails the content, read through the handle in chunks; the buffer is emptied only once it was sent. */
    method Close(chunks: seq<nat>, sent: bool) returns (error: Option<Error>)
      requires View().Valid()
      modifies this`content, this`at
      ensures error == if !attached then Some(NotFound) else if sent then None else Some(SendFailed)
      ensures View() == if attached then Step(old(View()), Closed(chunks, sent)) else old(View())
      ensures attached && sent ==> content == [] && at == 0
      ensures !(attached && sent) ==> content == old(content) && at >= old(at)
    {
      if !attached {
        return Some(NotFound);
      }
      for i := 0 to |chunks|
        invariant content == old(content) && at >= old(at) && View().Valid()
        invariant Drain(View(), chunks[i..]).1 == Drain(old(View()), chunks).1
      {
        var b := new Byte[chunks[i]];
        var n, eof := Read(b);
        assert chunks[i..][1..] == chunks[i + 1..];
      }
      if !sent {
        return Some(SendFailed);
      }
      content := [];
      at := 0;
      return None;
    }
  }
}
