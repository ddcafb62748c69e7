/** The Telegram backend: file handles are upload buffers, and a successful Close publishes the file's size. */
module Telegram {
  import opened Wrappers
  import opened Buffer
  import opened Paths
  import opened Seqs
  import FakeFs

  // ---------------------------------------------------------------- what a file is sent as

  const IMAGES := [".jpg", ".jpeg", ".png", ".gif", ".bmp", ".tiff", ".tif"]
  const VIDEOS := [".mp4", ".avi", ".mkv", ".mov", ".wmv", ".flv", ".webm", ".mpeg", ".mpg", ".m4v", ".3gp", ".3g2"]
  const AUDIOS := [".mp3", ".ogg", ".flac", ".wav", ".m4a", ".opus"]
  const TEXTS := [".txt", ".md"]

  /** The part of the last path element from its last dot on. */
  function Extension(path: string): string {
    ExtensionFrom(path, |path|)
  }

  function ExtensionFrom(path: string, i: nat): string
    requires i <= |path|
  {
    if i == 0 || path[i - 1] == '/' then ""
    else if path[i - 1] == '.' then path[i - 1..]
    else ExtensionFrom(path, i - 1)
  }

  /** The small letter of a capital, as far as it is an ASCII letter: outside ASCII only the Kelvin sign and
      the dotted capital I have one, and no listed extension holds any other letter. */
  function LowerChar(c: char): char {
    if 'A' <= c <= 'Z' then (c as int + 32) as char
    else if c == '\U{212A}' then 'k'
    else if c == '\U{0130}' then 'i'
    else c
  }

  function Lower(s: string): string {
    seq(|s|, i requires 0 <= i < |s| => LowerChar(s[i]))
  }

  predicate IsExtension(path: string, extensions: seq<string>) {
    Lower(Extension(path)) in extensions
  }

  datatype Medium = Photo | Video | Audio | Message(markdown: bool) | Document

  function MediumOf(path: string, length: nat): Medium {
    if IsExtension(path, IMAGES) then Photo
    else if IsExtension(path, VIDEOS) then Video
    else if IsExtension(path, AUDIOS) then Audio
    else if IsExtension(path, TEXTS) && length < 4096 then Message(IsExtension(path, [".md"]))
    else Document
  }

  /** The lists of extensions exclude each other, so only short texts are sent without reading the handle. */
  lemma OnlyShortTextsAreMessages(path: string, length: nat)
    ensures var e := Lower(Extension(path));
            var medium := MediumOf(path, length);
      && (medium == Photo <==> e in [".jpg", ".jpeg", ".png", ".gif", ".bmp", ".tiff", ".tif"])
      && (medium == Video <==>
            e in [".mp4", ".avi", ".mkv", ".mov", ".wmv", ".flv", ".webm", ".mpeg", ".mpg", ".m4v", ".3gp", ".3g2"])
      && (medium == Audio <==> e in [".mp3", ".ogg", ".flac", ".wav", ".m4a", ".opus"])
      && (medium.Message? <==> e in [".txt", ".md"] && length < 4096)
      && (medium == Message(true) <==> e == ".md" && length < 4096)
  {
  }

  /** The extension is what follows the last dot of the last path element, with the dot. */
  lemma ExtensionIs(stem: string, letters: string)
    requires '.' !in letters && '/' !in letters
    ensures Extension(stem + "." + letters) == "." + letters
    ensures stem == "" || stem[|stem| - 1] == '/' ==> Extension(stem + letters) == ""
  {
    var dotted := stem + "." + letters;
    ExtensionSkips(dotted, |stem| + 1, |dotted|);
    assert dotted[|stem|..] == "." + letters;
    ExtensionSkips(stem + letters, |stem|, |stem + letters|);
  }

  lemma {:induction false} ExtensionSkips(path: string, lo: nat, hi: nat)
    requires lo <= hi <= |path| && forall k :: lo <= k < hi ==> path[k] != '.' && path[k] != '/'
    ensures ExtensionFrom(path, hi) == ExtensionFrom(path, lo)
  {
    if lo == hi {
    } else {
      ExtensionSkips(path, lo, hi - 1);
    }
  }

  /** Capitals of the alphabet are lowered one by one, as are the two others with a small ASCII letter, and
      everything else in ASCII stays. */
  lemma LowerIs(c: char)
    ensures Lower("ABCDEFGHIJKLMNOPQRSTUVWXYZ") == "abcdefghijklmnopqrstuvwxyz"
    ensures Lower("\U{212A}\U{0130}") == "ki"
    ensures c < 'A' || ('Z' < c && c as int < 128) ==> Lower([c]) == [c]
  {
  }

  /** The sizes a sender really reads with. */
  function SenderReads(path: string, length: nat, chunks: seq<nat>): seq<nat> {
    if MediumOf(path, length).Message? then [] else chunks
  }

  // ---------------------------------------------------------------- file system and handles

  /** The first n directories of a path, up to its first n cuts. */
  function Directories(name: string, mode: nat, n: nat): (ops: seq<FakeFs.Op>)
    requires n <= |Cuts(name)|
    ensures |ops| == n && forall i :: 0 <= i < n ==> ops[i] == FakeFs.Mkdir(name[..Cuts(name)[i]], mode)
  {
    if n == 0 then [] else Directories(name, mode, n - 1) + [FakeFs.Mkdir(name[..Cuts(name)[n - 1]], mode)]
  }

  function MkdirOps(name: string, mode: nat): (ops: seq<FakeFs.Op>)
    ensures |ops| == |Cuts(name)|
  {
    Directories(name, mode, |Cuts(name)|)
  }

  class Fs {
    const fakeFs: FakeFs.FakeFilesystem

    constructor ()
      ensures fresh(fakeFs) && fakeFs.Valid() && fakeFs.log == []
    {
      fakeFs := new FakeFs.FakeFilesystem();
    }

    /** Makes a directory of every path up to a slash, and of the path itself, the shortest first. */
    method MkdirAll(name: string, mode: nat)
      requires fakeFs.Valid()
      modifies fakeFs
      ensures fakeFs.Valid() && fakeFs.log == old(fakeFs.log) + MkdirOps(name, mode)
    {
      var path := Split(name);
      JoinOfFirstParts(name, 0);
      for i := 0 to |path|
        invariant fakeFs.Valid() && fakeFs.log == old(fakeFs.log) + Directories(name, mode, i)
      {
        JoinOfFirstParts(name, i);
        var dir := Join(path[..i + 1]);
        fakeFs.Mkdir(dir, mode);
        Associative(old(fakeFs.log), Directories(name, mode, i), [FakeFs.Mkdir(dir, mode)]);
      }
    }

    method Create(name: string) returns (f: File)
      requires fakeFs.Valid()
      modifies fakeFs
      ensures fakeFs.Valid() && fakeFs.log == old(fakeFs.log) + [FakeFs.Create(name)]
      ensures fresh(f) && f.fs == this && f.path == name && f.View() == EMPTY
    {
      fakeFs.Create(name);
      f := new File(name, this);
    }

    /** What a sent file leaves behind: a new entry, whatever stood there before, with the size of the file. */
    method Publish(path: string, size: nat)
      requires fakeFs.Valid()
      modifies fakeFs
      ensures fakeFs.Valid()
      ensures fakeFs.log == old(fakeFs.log) + [FakeFs.Create(path), FakeFs.SetSize(path, size)]
    {
      fakeFs.Create(path);
      fakeFs.SetSize(path, size);
    }

    /** Hands out the shared entry; null stands for the path error. */
    method Stat(name: string) returns (info: FakeFs.FileInfo?)
      requires fakeFs.Valid()
      ensures info == null <==> FakeFs.StatOf(fakeFs.log, name).None?
      ensures info != null ==>
        && FakeFs.LastCreation(fakeFs.log, name).Some?
        && info == fakeFs.entries[FakeFs.LastCreation(fakeFs.log, name).value]
      ensures info != null ==> FakeFs.StatOf(fakeFs.log, name) == Some(info.View())
    {
      info := fakeFs.Stat(name);
    }

    /** Opening does not touch the fake file system. */
    method Open(name: string) returns (f: File)
      ensures fresh(f) && f.fs == this && f.path == name && f.View() == EMPTY
    {
      f := new File(name, this);
    }
  }

  datatype Error = NotFound | SendFailed

  class File {
    const path: string
    const fs: Fs?
    var content: seq<Byte>
    var at: nat

    constructor (path: string, fs: Fs?)
      ensures this.path == path && this.fs == fs && View() == EMPTY
    {
      this.path, this.fs, this.content, this.at := path, fs, [], 0;
    }

    function View(): Buffer
      reads this
    {
      Buffer(content, at)
    }

    method Write(data: seq<Byte>) returns (n: nat)
      modifies this
      ensures n == |data| && View() == Push(old(View()), data)
      ensures content == old(content) + data && at == old(at)
    {
      content := content + data;
      n := |data|;
    }

    /** Fills the front of b and leaves the rest of it alone. */
    method Read(b: array<Byte>) returns (n: nat, eof: bool)
      requires View().Valid()
      modifies this`at, b
      ensures View().Valid() && View() == Pull(old(View()), b.Length).1
      ensures n <= b.Length && Chunk(b[..n], eof) == Pull(old(View()), b.Length).0
      ensures b[n..] == old(b[..])[n..]
      ensures n == (if b.Length <= |content| - old(at) then b.Length else |content| - old(at)) && at == old(at) + n
      ensures content == old(content) && b[..n] == content[old(at)..old(at) + n]
      ensures eof <==> b.Length > 0 && old(at) == |content|
    {
      if b.Length > 0 && at == |content| {
        return 0, true;
      }
      n := if |content| - at >= b.Length then b.Length else |content| - at;
      eof := false;
      forall i | 0 <= i < n {
        b[i] := content[at + i];
      }
      assert b[..n] == content[at..at + n];
      at := at + n;
    }

    /** A sender reads the handle in chunks of its own choosing. */
    method ReadBySender(chunks: seq<nat>)
      requires View().Valid()
      modifies this`at
      ensures View().Valid() && View() == Drain(old(View()), chunks).1
    {
      for i := 0 to |chunks|
        invariant content == old(content) && View().Valid()
        invariant Drain(View(), chunks[i..]).1 == Drain(old(View()), chunks).1
      {
        var b := new Byte[chunks[i]];
        var n, eof := Read(b);
        assert chunks[i..][1..] == chunks[i + 1..];
      }
    }

    /** Short texts are sent as messages; everything else is read from the handle. */
    method Send(chunks: seq<nat>)
      requires View().Valid()
      modifies this`at
      ensures View() == Drain(old(View()), SenderReads(path, |content|, chunks)).1
      ensures View() == if Lower(Extension(path)) in [".txt", ".md"] && |content| < 4096 then old(View())
                        else Drain(old(View()), chunks).1
    {
      if !MediumOf(path, |content|).Message? {
        ReadBySender(chunks);
      }
    }

    /** Sends the content and, on success, makes a new entry with its size and empties the buffer. */
    method Close(chunks: seq<nat>, sent: bool) returns (error: Option<Error>)
      requires View().Valid() && (fs != null ==> fs.fakeFs.Valid())
      modifies this`content, this`at
      modifies if fs != null then {fs.fakeFs} else {}
      ensures fs == null ==> error == Some(NotFound) && View() == old(View())
      ensures fs != null ==>
        && error == (if sent then None else Some(SendFailed))
        && fs.fakeFs.Valid()
        && View() == Step(old(View()), Closed(SenderReads(path, |old(content)|, chunks), sent))
        && (sent ==> content == [] && at == 0)
        && (!sent ==>
              if Lower(Extension(path)) in [".txt", ".md"] && |old(content)| < 4096 then View() == old(View())
              else View() == Drain(old(View()), chunks).1)
        && fs.fakeFs.log == old(fs.fakeFs.log)
             + if sent then [FakeFs.Create(path), FakeFs.SetSize(path, |old(content)|)] else []
    {
      if fs == null {
        return Some(NotFound);
      }
      DrainGivesTheNextBytes(View(), SenderReads(path, |content|, chunks));
      Send(chunks);
      if !sent {
        return Some(SendFailed);
      }
      fs.Publish(path, |content|);
      content := [];
      at := 0;
      return None;
    }
  }
}
