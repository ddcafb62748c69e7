/** Whole runs of the Telegram backend: many handles, one fake file system. */
module TelegramRuns {
  import opened Wrappers
  import opened Buffer
  import opened Paths
  import opened FakeFs
  import opened Telegram
  import opened Seqs

  // ---------------------------------------------------------------- making directories

  ghost predicate IsAncestorOrSelf(key: string, name: string) {
    key <= name && (|key| == |name| || name[|key|] == '/')
  }

  ghost predicate AmongFirst(key: string, name: string, n: nat)
    requires n <= |Cuts(name)|
  {
    exists i :: 0 <= i < n && key == name[..Cuts(name)[i]]
  }

  lemma AmongFirstNext(key: string, name: string, n: nat)
    requires n < |Cuts(name)|
    ensures AmongFirst(key, name, n + 1) <==> AmongFirst(key, name, n) || key == name[..Cuts(name)[n]]
  {
  }

  lemma {:induction false} StatAfterMkdirs(log: seq<Op>, name: string, mode: nat, n: nat, key: string)
    requires n <= |Cuts(name)|
    ensures StatOf(log + Directories(name, mode, n), key) ==
      if AmongFirst(key, name, n) then Some(Info(key, true, mode, 0)) else StatOf(log, key)
  {
    if n == 0 {
      assert log + Directories(name, mode, 0) == log;
    } else {
      var before, op := Directories(name, mode, n - 1), FakeFs.Mkdir(name[..Cuts(name)[n - 1]], mode);
      StatAfterMkdirs(log, name, mode, n - 1, key);
      AmongFirstNext(key, name, n - 1);
      StatAfter(log + before, op, key);
      Associative(log, before, [op]);
    }
  }

  /** MkdirAll makes directories of the path and of everything in front of one of its slashes, and of nothing else. */
  lemma MkdirAllMakesTheAncestors(log: seq<Op>, name: string, mode: nat, key: string)
    ensures StatOf(log + MkdirOps(name, mode), key) ==
      if IsAncestorOrSelf(key, name) then Some(Info(key, true, mode, 0)) else StatOf(log, key)
    ensures IsAncestorOrSelf(key, name) ==> StatOf(log + MkdirOps(name, mode), key).value.Size() == 42
  {
    StatAfterMkdirs(log, name, mode, |Cuts(name)|, key);
    AncestorsAreTheCuts(key, name);
  }

  lemma AncestorsAreTheCuts(key: string, name: string)
    ensures AmongFirst(key, name, |Cuts(name)|) <==> IsAncestorOrSelf(key, name)
  {
    CutsAreTheSlashes(name, |key|);
    if IsAncestorOrSelf(key, name) {
      var i :| 0 <= i < |Cuts(name)| && Cuts(name)[i] == |key|;
      assert key == name[..Cuts(name)[i]];
    }
    if AmongFirst(key, name, |Cuts(name)|) {
      var i :| 0 <= i < |Cuts(name)| && key == name[..Cuts(name)[i]];
      assert Cuts(name)[i] in Cuts(name);
    }
  }

  /** It makes one directory per slash and one for the path, all of different names. */
  lemma MkdirAllMakesDifferentDirectories(name: string, mode: nat)
    ensures |MkdirOps(name, mode)| == SlashesFrom(name, 0) + 1
    ensures forall i, j :: 0 <= i < j < |MkdirOps(name, mode)| ==>
      |MkdirOps(name, mode)[i].name| < |MkdirOps(name, mode)[j].name|
  {
    OneCutPerSlashAndOne(name, 0);
    forall i, j | 0 <= i < j < |Cuts(name)|
      ensures |MkdirOps(name, mode)[i].name| < |MkdirOps(name, mode)[j].name|
    {
      CutsAscend(name, 0, i, j);
    }
  }

  // ---------------------------------------------------------------- runs over many handles

  datatype Handle = Handle(path: string, buffer: Buffer)

  datatype World = World(handles: seq<Handle>, log: seq<Op>)
  {
    ghost predicate Valid() {
      forall h :: 0 <= h < |handles| ==> handles[h].buffer.Valid()
    }
  }

  datatype Call =
    | Creat(name: string)
    | Open(name: string)
    | MkDir(name: string, mode: nat)
    | MkDirAll(name: string, mode: nat)
    | On(handle: nat, event: Event)

  function Publication(path: string, size: nat): seq<Op> {
    [FakeFs.Create(path), FakeFs.SetSize(path, size)]
  }

  /** The event as the handle experiences it: the sender of a short text does not read. */
  function Effective(h: Handle, e: Event): Event {
    match e
    case Closed(chunks, sent) => Closed(SenderReads(h.path, |h.buffer.content|, chunks), sent)
    case _ => e
  }

  function Do(w: World, call: Call): (w': World)
    requires w.Valid()
    ensures w'.Valid() && |w.handles| <= |w'.handles|
    ensures forall h :: 0 <= h < |w.handles| ==> w'.handles[h].path == w.handles[h].path
  {
    match call
    case Creat(name) => World(w.handles + [Handle(name, EMPTY)], w.log + [FakeFs.Create(name)])
    case Open(name) => w.(handles := w.handles + [Handle(name, EMPTY)])
    case MkDir(name, mode) => w.(log := w.log + [FakeFs.Mkdir(name, mode)])
    case MkDirAll(name, mode) => w.(log := w.log + MkdirOps(name, mode))
    case On(h, e) =>
      if h >= |w.handles| then w
      else
        var handle := w.handles[h];
        World(w.handles[h := handle.(buffer := Step(handle.buffer, Effective(handle, e)))],
              if e.Closed? && e.sent then w.log + Publication(handle.path, |handle.buffer.content|) else w.log)
  }

  function Handles(files: seq<File>): (handles: seq<Handle>)
    reads files
    ensures |handles| == |files|
    ensures forall h :: 0 <= h < |files| ==> handles[h] == Handle(files[h].path, files[h].View())
  {
    seq(|files|, h requires 0 <= h < |files| reads files => Handle(files[h].path, files[h].View()))
  }

  /** An event on an open file. */
  method Use(f: File, e: Event)
    requires f.fs != null && f.fs.fakeFs.Valid() && f.View().Valid()
    modifies f, f.fs.fakeFs
    ensures f.fs.fakeFs.Valid() && f.View() == Step(old(f.View()), Effective(Handle(f.path, old(f.View())), e))
    ensures f.fs.fakeFs.log == old(f.fs.fakeFs.log)
         + if e.Closed? && e.sent then Publication(f.path, |old(f.content)|) else []
  {
    match e
    case Wrote(data) => var _ := f.Write(data);
    case WasRead(size) =>
      var b := new Byte[size];
      var _, _ := f.Read(b);
    case Closed(chunks, sent) => var _ := f.Close(chunks, sent);
  }

  /** The objects behind a world: one file system and the files opened on it. */
  class Session {
    const fs: Fs
    var files: seq<File>

    ghost predicate Valid()
      reads this, files, fs.fakeFs, fs.fakeFs.entries
    {
      && fs.fakeFs.Valid()
      && (forall h :: 0 <= h < |files| ==> files[h].fs == fs && files[h].View().Valid())
      && (forall g, h :: 0 <= g < h < |files| ==> files[g] != files[h])
    }

    ghost function View(): (w: World)
      requires Valid()
      reads this, files, fs.fakeFs, fs.fakeFs.entries
      ensures w.Valid()
    {
      World(Handles(files), fs.fakeFs.log)
    }

    constructor ()
      ensures Valid() && View() == World([], []) && fresh(fs.fakeFs) && files == []
    {
      fs := new Fs();
      files := [];
    }

    /** The methods of the file system and of its files do, call by call, what the world says. */
    method Perform(call: Call)
      requires Valid()
      modifies this`files, files, fs.fakeFs
      ensures Valid() && View() == Do(old(View()), call)
      ensures forall f :: f in files ==> f in old(files) || fresh(f)
    {
      match call
      case Creat(name) =>
        var f := fs.Create(name);
        Keep(f);
      case Open(name) =>
        var f := fs.Open(name);
        Keep(f);
      case MkDir(_, _) => MakeDirectories(call);
      case MkDirAll(_, _) => MakeDirectories(call);
      case On(h, e) =>
        if h < |files| {
          PerformOn(h, e);
        }
    }

    method MakeDirectories(call: Call)
      requires Valid() && (call.MkDir? || call.MkDirAll?)
      modifies fs.fakeFs
      ensures Valid() && View() == Do(old(View()), call)
    {
      if call.MkDirAll? {
        fs.MkdirAll(call.name, call.mode);
      } else {
        fs.fakeFs.Mkdir(call.name, call.mode);
      }
      assert Handles(files) == old(Handles(files));
    }

    method Keep(f: File)
      requires Valid() && f !in files && f.fs == fs && f.View() == EMPTY
      modifies this`files
      ensures files == old(files) + [f]
      ensures Valid() && View() == old(View()).(handles := old(View()).handles + [Handle(f.path, EMPTY)])
    {
      files := files + [f];
    }

    method PerformOn(h: nat, e: Event)
      requires Valid() && h < |files|
      modifies files[h], fs.fakeFs
      ensures Valid() && View() == Do(old(View()), On(h, e))
    {
      Use(files[h], e);
      assert Handles(files) == old(Handles(files))[h := Handle(files[h].path, files[h].View())];
    }
  }

  function Run(calls: seq<Call>, n: nat): (w: World)
    requires n <= |calls|
    ensures w.Valid()
  {
    if n == 0 then World([], []) else Do(Run(calls, n - 1), calls[n - 1])
  }

  /** Whole runs on the objects end in the world of the run. */
  method Perform(calls: seq<Call>) returns (session: Session)
    ensures session.Valid() && session.View() == Run(calls, |calls|)
  {
    session := new Session();
    for i := 0 to |calls|
      invariant fresh(session) && fresh(session.fs.fakeFs) && forall f :: f in session.files ==> fresh(f)
      invariant session.Valid() && session.View() == Run(calls, i)
    {
      session.Perform(calls[i]);
    }
  }

  /** The bytes written on a handle since its last successful Close, read off the calls. */
  function WrittenOn(calls: seq<Call>, n: nat, h: nat): seq<Byte>
    requires n <= |calls|
  {
    if n == 0 then []
    else
      var before := WrittenOn(calls, n - 1, h);
      match calls[n - 1]
      case On(g, Wrote(data)) => if g == h then before + data else before
      case On(g, Closed(_, sent)) => if g == h && sent then [] else before
      case _ => before
  }

  /** The handle exists when it is first used. */
  predicate UsesOpenHandles(calls: seq<Call>, n: nat)
    requires n <= |calls|
  {
    n == 0 ||
    (UsesOpenHandles(calls, n - 1) && (calls[n - 1].On? ==> calls[n - 1].handle < |Run(calls, n - 1).handles|))
  }

  lemma {:induction false} ContentIsWhatWasWritten(calls: seq<Call>, n: nat, h: nat)
    requires n <= |calls| && UsesOpenHandles(calls, n)
    ensures h < |Run(calls, n).handles| ==> Run(calls, n).handles[h].buffer.content == WrittenOn(calls, n, h)
    ensures h >= |Run(calls, n).handles| ==> WrittenOn(calls, n, h) == []
  {
    if n == 0 {
    } else {
      ContentIsWhatWasWritten(calls, n - 1, h);
      if calls[n - 1].On? && calls[n - 1].handle == h {
        var handle := Run(calls, n - 1).handles[h];
        var e := Effective(handle, calls[n - 1].event);
        match e
        case Closed(chunks, sent) => DrainGivesTheNextBytes(handle.buffer, chunks);
        case _ =>
      }
    }
  }

  /** A successful Close publishes: the path then stats as a file of the size written on the handle since its
      previous successful Close, however much of it had been read. */
  lemma ClosePublishesWhatWasWritten(calls: seq<Call>, n: nat, h: nat, chunks: seq<nat>)
    requires n < |calls| && UsesOpenHandles(calls, n + 1) && calls[n] == On(h, Closed(chunks, true))
    ensures h < |Run(calls, n).handles|
    ensures StatOf(Run(calls, n + 1).log, Run(calls, n).handles[h].path)
         == Some(Info(Run(calls, n).handles[h].path, false, 0, |WrittenOn(calls, n, h)|))
    ensures StatOf(Run(calls, n + 1).log, Run(calls, n).handles[h].path).value.Size() == |WrittenOn(calls, n, h)|
    ensures Run(calls, n + 1).handles[h].buffer == EMPTY
  {
    ContentIsWhatWasWritten(calls, n, h);
    var w, path := Run(calls, n), Run(calls, n).handles[h].path;
    var size := |w.handles[h].buffer.content|;
    StatAfter(w.log, FakeFs.Create(path), path);
    StatAfter(w.log + [FakeFs.Create(path)], FakeFs.SetSize(path, size), path);
    assert w.log + Publication(path, size) == w.log + [FakeFs.Create(path)] + [FakeFs.SetSize(path, size)];
  }

  /** A failed Close leaves all metadata and the content alone; it can only advance the position. */
  lemma FailedCloseKeepsEverything(calls: seq<Call>, n: nat, h: nat, chunks: seq<nat>)
    requires n < |calls| && UsesOpenHandles(calls, n + 1) && calls[n] == On(h, Closed(chunks, false))
    ensures Run(calls, n + 1).log == Run(calls, n).log
    ensures h < |Run(calls, n).handles| && forall g :: 0 <= g < |Run(calls, n).handles| ==>
      && Run(calls, n + 1).handles[g].buffer.content == Run(calls, n).handles[g].buffer.content
      && Run(calls, n + 1).handles[g].buffer.at >= Run(calls, n).handles[g].buffer.at
  {
    var handle := Run(calls, n).handles[h];
    DrainGivesTheNextBytes(handle.buffer, SenderReads(handle.path, |handle.buffer.content|, chunks));
  }

  predicate Touches(w: World, call: Call, path: string) {
    match call
    case Creat(name) => name == path
    case Open(_) => false
    case MkDir(name, _) => name == path
    case MkDirAll(name, _) => path <= name && (|path| == |name| || name[|path|] == '/')
    case On(h, e) => h < |w.handles| && w.handles[h].path == path && e.Closed? && e.sent
  }

  /** What the calls that make something make: an empty file and a handle for it, a handle alone, a directory,
      or all the directories on a path. */
  lemma WhatCallsMake(w: World, name: string, mode: nat, key: string)
    requires w.Valid()
    ensures var w' := Do(w, Creat(name));
      && w'.handles == w.handles + [Handle(name, EMPTY)]
      && StatOf(w'.log, key) == if key == name then Some(Info(name, false, 0, 0)) else StatOf(w.log, key)
    ensures Do(w, Open(name)).handles == w.handles + [Handle(name, EMPTY)] && Do(w, Open(name)).log == w.log
    ensures var w' := Do(w, MkDir(name, mode));
      && w'.handles == w.handles
      && StatOf(w'.log, key) == if key == name then Some(Info(name, true, mode, 0)) else StatOf(w.log, key)
    ensures var w' := Do(w, MkDirAll(name, mode));
      && w'.handles == w.handles
      && StatOf(w'.log, key)
         == if key <= name && (|key| == |name| || name[|key|] == '/') then Some(Info(key, true, mode, 0))
            else StatOf(w.log, key)
  {
    StatAfter(w.log, FakeFs.Create(name), key);
    StatAfter(w.log, FakeFs.Mkdir(name, mode), key);
    MkdirAllMakesTheAncestors(w.log, name, mode, key);
  }

  /** The published size stays until the name is created anew or published again: whatever is written, read,
      opened, or done under other names does not show. */
  lemma UntouchedStatsAsBefore(calls: seq<Call>, n: nat, path: string)
    requires n < |calls| && !Touches(Run(calls, n), calls[n], path)
    ensures StatOf(Run(calls, n + 1).log, path) == StatOf(Run(calls, n).log, path)
  {
    var w := Run(calls, n);
    match calls[n]
    case Creat(name) => StatAfter(w.log, FakeFs.Create(name), path);
    case Open(_) =>
    case MkDir(name, mode) => StatAfter(w.log, FakeFs.Mkdir(name, mode), path);
    case MkDirAll(name, mode) => MkdirAllMakesTheAncestors(w.log, name, mode, path);
    case On(h, e) =>
      if h < |w.handles| && e.Closed? && e.sent {
        var p, size := w.handles[h].path, |w.handles[h].buffer.content|;
        StatAfter(w.log, FakeFs.Create(p), path);
        StatAfter(w.log + [FakeFs.Create(p)], FakeFs.SetSize(p, size), path);
        assert w.log + Publication(p, size) == w.log + [FakeFs.Create(p)] + [FakeFs.SetSize(p, size)];
      }
  }
}
