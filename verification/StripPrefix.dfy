/** The wrapper that drops a fixed number of characters from the front of every path, over an arbitrary source. */
module StripPrefix {
  import opened Wrappers

  datatype Verb =
    | Chtimes(atime: int, mtime: int)
    | Chmod(mode: nat)
    | Chown(uid: int, gid: int)
    | Stat
    | RemoveAll
    | Remove
    | OpenFile(flag: int, perm: nat)
    | Open
    | Mkdir(mode: nat)
    | MkdirAll(mode: nat)
    | Create
    | Lstat
  {
    /** The operation named in a path error; Chown and MkdirAll borrow another one's name. */
    function OpName(): string {
      match this
      case Chtimes(_, _) => "chtimes"
      case Chmod(_) => "chmod"
      case Chown(_, _) => "chmod"
      case Stat => "stat"
      case RemoveAll => "remove_all"
      case Remove => "remove"
      case OpenFile(_, _) => "openfile"
      case Open => "open"
      case Mkdir(_) => "mkdir"
      case MkdirAll(_) => "mkdir"
      case Create => "create"
      case Lstat => "lstat"
    }

    predicate Opens() {
      OpenFile? || Open? || Create?
    }
  }

  datatype Call = At(verb: Verb, name: string) | Rename(oldName: string, newName: string)

  datatype Error = SourceError(text: string) | PathTooShort(op: string, path: string)

  /** An open file: one of the source's, under the wrappers it was opened through. */
  datatype File = Raw(id: nat) | Stripped(inner: File, start: nat)

  datatype Reply =
    | Done(error: Option<Error>)
    | Info(info: string, lstat: bool, error: Option<Error>)
    | Opened(file: File)

  /** The source answers as it likes, depending on all calls that ever reached it. Its files have names. */
  datatype Source = Source(respond: seq<Call> -> Reply, isLstater: bool, nameOf: (seq<Call>, nat) -> string)

  /** The source, or a wrapper around another file system. */
  datatype Fs = Bare | Strip(inner: Fs, start: nat)

  function RealPath(name: string, start: nat): Option<string> {
    if |name| < start then None else Some(name[start..])
  }

  /** The call with its paths shortened, or None when one of them is too short. */
  function Shorten(call: Call, start: nat): Option<Call> {
    match call
    case At(verb, name) => (
      match RealPath(name, start)
      case None => None
      case Some(name') => Some(At(verb, name')))
    case Rename(oldName, newName) => (
      match RealPath(oldName, start)
      case None => None
      case Some(old') => (
        match RealPath(newName, start)
        case None => None
        case Some(new') => Some(Rename(old', new'))))
  }

  /** The path error carries an empty path: the name was overwritten before the error was built. */
  function TooShort(call: Call): Reply {
    match call
    case Rename(_, _) => Done(Some(PathTooShort("rename", "")))
    case At(verb, _) =>
      var error := Some(PathTooShort(verb.OpName(), ""));
      if verb.Stat? || verb.Lstat? then Info("", false, error) else Done(error)
  }

  predicate IsLstater(src: Source, fs: Fs) {
    fs.Strip? || src.isLstater
  }

  /** One call on a file system: the reply, and the calls that have reached the source since. */
  function Do(src: Source, fs: Fs, history: seq<Call>, call: Call): (Reply, seq<Call>) {
    match fs
    case Bare => (src.respond(history + [call]), history + [call])
    case Strip(inner, start) =>
      match Shorten(call, start)
      case None => (TooShort(call), history)
      case Some(short) =>
        if short.At? && short.verb.Lstat? && !IsLstater(src, inner) then
          var (r, history') := Do(src, inner, history, At(Stat, short.name));
          (if r.Info? then r.(lstat := false) else r, history')
        else
          var (r, history') := Do(src, inner, history, short);
          (if r.Opened? && short.At? && short.verb.Opens() then Opened(Stripped(r.file, start)) else r, history')
  }

  /** The name of an open file; None stands for the slice panic on a name that is too short. */
  function FileName(src: Source, history: seq<Call>, f: File): Option<string> {
    match f
    case Raw(id) => Some(src.nameOf(history, id))
    case Stripped(inner, start) =>
      match FileName(src, history, inner)
      case None => None
      case Some(name) => RealPath(name, start)
  }

  // ---------------------------------------------------------------- stacking wrappers

  function RawId(f: File): nat {
    match f
    case Raw(id) => id
    case Stripped(inner, _) => RawId(inner)
  }

  function TotalStart(f: File): nat {
    match f
    case Raw(_) => 0
    case Stripped(inner, start) => TotalStart(inner) + start
  }

  /** All a client can tell about an open file is which one it is and how much its name is shortened. */
  lemma {:induction false} NameOfNested(src: Source, history: seq<Call>, f: File)
    ensures var name := src.nameOf(history, RawId(f));
      FileName(src, history, f) == if |name| < TotalStart(f) then None else Some(name[TotalStart(f)..])
  {
    match f
    case Raw(id) => assert src.nameOf(history, id)[0..] == src.nameOf(history, id);
    case Stripped(inner, start) => NameOfNested(src, history, inner);
  }

  predicate SameFile(f: File, g: File) {
    RawId(f) == RawId(g) && TotalStart(f) == TotalStart(g)
  }

  predicate SameReply(r: Reply, s: Reply) {
    if r.Opened? then s.Opened? && SameFile(r.file, s.file) else r == s
  }

  lemma ShortenTwice(call: Call, a: nat, b: nat)
    ensures Shorten(call, a + b) ==
      match Shorten(call, b)
      case None => None
      case Some(short) => Shorten(short, a)
  {
  }

  lemma ShortenKeepsKind(call: Call, start: nat)
    ensures match Shorten(call, start)
      case None => true
      case Some(short) =>
        TooShort(short) == TooShort(call) && short.At? == call.At? && (call.At? ==> short.verb == call.verb)
  {
  }

  /** One call on two stacked wrappers is one call on a single wrapper: same reply, same calls reach the source. */
  lemma StackedIsOne(src: Source, f: Fs, a: nat, b: nat, history: seq<Call>, call: Call)
    ensures var (r, h) := Do(src, Strip(Strip(f, a), b), history, call);
            var (s, k) := Do(src, Strip(f, a + b), history, call);
      SameReply(r, s) && h == k
  {
  }

  function TotalStripped(fs: Fs): nat {
    match fs
    case Bare => 0
    case Strip(inner, start) => TotalStripped(inner) + start
  }

  /** What arrives of a shortened call at the source: a stat stands in for an lstat it cannot do. */
  function Arrives(src: Source, short: Call): Call {
    if short.At? && short.verb.Lstat? && !src.isLstater then At(Stat, short.name) else short
  }

  /** The reply of wrappers that strip `total` characters, given the source's. */
  ghost predicate PassesOn(src: Source, call: Call, total: nat, answer: Reply, r: Reply) {
    match answer
    case Opened(f) =>
      if call.At? && (call.verb.OpenFile? || call.verb.Open? || call.verb.Create?)
      then r.Opened? && RawId(r.file) == RawId(f) && TotalStart(r.file) == TotalStart(f) + total
      else r == answer
    case Info(info, lstat, error) => r == Info(info, lstat && Arrives(src, call) == call, error)
    case Done(_) => r == answer
  }

  /** Through any stack of wrappers, a call with a path shorter than what the stack strips never reaches the
      source, and any other reaches it exactly once, shortened by that much, and brings back its answer. */
  lemma {:induction false} WhatReachesTheSource(src: Source, fs: Fs, history: seq<Call>, call: Call)
    requires fs.Strip?
    ensures var (r, history') := Do(src, fs, history, call);
      match Shorten(call, TotalStripped(fs))
      case None => r == TooShort(call) && history' == history
      case Some(short) =>
        && history' == history + [Arrives(src, short)]
        && PassesOn(src, call, TotalStripped(fs), src.respond(history'), r)
  {
    ShortenTwice(call, TotalStripped(fs.inner), fs.start);
    ShortenKeepsKind(call, fs.start);
    match Shorten(call, fs.start)
    case None =>
    case Some(short) =>
      ShortenKeepsKind(short, TotalStripped(fs.inner));
      match fs.inner
      case Bare => ShortenByNothing(short);
      case Strip(_, _) => WhatReachesTheSource(src, fs.inner, history, short);
  }

  /** The same, on the names themselves: both names of a rename are cut and both must be long enough, and the
      error names the operation, or what the code calls it. */
  lemma NamesReachTheSourceCut(src: Source, fs: Fs, history: seq<Call>, verb: Verb, name: string, newName: string)
    requires fs.Strip?
    ensures var n := TotalStripped(fs);
            var (r, history') := Do(src, fs, history, Rename(name, newName));
      if |name| < n || |newName| < n then r == Done(Some(PathTooShort("rename", ""))) && history' == history
      else
        && history' == history + [Rename(name[n..], newName[n..])]
        && (!src.respond(history').Info? ==> r == src.respond(history'))
    ensures var n := TotalStripped(fs);
            var (r, history') := Do(src, fs, history, At(verb, name));
      if |name| < n then
        && history' == history
        && match verb
           case Stat => r == Info("", false, Some(PathTooShort("stat", "")))
           case Lstat => r == Info("", false, Some(PathTooShort("lstat", "")))
           case Chtimes(_, _) => r == Done(Some(PathTooShort("chtimes", "")))
           case Chmod(_) => r == Done(Some(PathTooShort("chmod", "")))
           case Chown(_, _) => r == Done(Some(PathTooShort("chmod", "")))
           case RemoveAll => r == Done(Some(PathTooShort("remove_all", "")))
           case Remove => r == Done(Some(PathTooShort("remove", "")))
           case OpenFile(_, _) => r == Done(Some(PathTooShort("openfile", "")))
           case Open => r == Done(Some(PathTooShort("open", "")))
           case Mkdir(_) => r == Done(Some(PathTooShort("mkdir", "")))
           case MkdirAll(_) => r == Done(Some(PathTooShort("mkdir", "")))
           case Create => r == Done(Some(PathTooShort("create", "")))
      else history' == history + [At(if verb.Lstat? && !src.isLstater then Stat else verb, name[n..])]
  {
    WhatReachesTheSource(src, fs, history, Rename(name, newName));
    WhatReachesTheSource(src, fs, history, At(verb, name));
  }

  lemma ShortenByNothing(call: Call)
    ensures Shorten(call, 0) == Some(call)
  {
    match call
    case At(_, name) => assert name[0..] == name;
    case Rename(oldName, newName) => assert oldName[0..] == oldName && newName[0..] == newName;
  }

  // ---------------------------------------------------------------- whole runs of a client

  datatype Request = OnFs(call: Call) | AskName(k: nat)  // the name of the k-th file opened

  datatype Observation = Answer(reply: Reply) | GotFile(id: nat) | Named(name: Option<string>)

  datatype Session = Session(history: seq<Call>, files: seq<File>, seen: seq<Observation>)

  function Next(src: Source, fs: Fs, s: Session, q: Request): Session {
    match q
    case OnFs(call) => (
      var (r, history) := Do(src, fs, s.history, call);
      match r
      case Opened(f) => Session(history, s.files + [f], s.seen + [GotFile(RawId(f))])
      case _ => Session(history, s.files, s.seen + [Answer(r)]))
    case AskName(k) =>
      if k < |s.files| then s.(seen := s.seen + [Named(FileName(src, s.history, s.files[k]))]) else s
  }

  function Run(src: Source, fs: Fs, requests: seq<Request>, n: nat): Session
    requires n <= |requests|
  {
    if n == 0 then Session([], [], []) else Next(src, fs, Run(src, fs, requests, n - 1), requests[n - 1])
  }

  /** No client can tell two stacked wrappers from one: in every run, all it sees and all calls that reach the
      source are the same, and so are the files it holds. */
  lemma {:induction false} StackedRunsAlike(src: Source, f: Fs, a: nat, b: nat, requests: seq<Request>, n: nat)
    requires n <= |requests|
    ensures var s, t := Run(src, Strip(Strip(f, a), b), requests, n), Run(src, Strip(f, a + b), requests, n);
      && s.seen == t.seen && s.history == t.history
      && |s.files| == |t.files| && forall k :: 0 <= k < |s.files| ==> SameFile(s.files[k], t.files[k])
  {
    if n == 0 {
    } else {
      StackedRunsAlike(src, f, a, b, requests, n - 1);
      var s := Run(src, Strip(Strip(f, a), b), requests, n - 1);
      var t := Run(src, Strip(f, a + b), requests, n - 1);
      match requests[n - 1]
      case OnFs(call) => StackedIsOne(src, f, a, b, s.history, call);
      case AskName(k) =>
        if k < |s.files| {
          NameOfNested(src, s.history, s.files[k]);
          NameOfNested(src, t.history, t.files[k]);
        }
    }
  }

  function Depth(fs: Fs): nat {
    match fs
    case Bare => 0
    case Strip(inner, _) => 1 + Depth(inner)
  }

  /** So a stack of wrappers of any height is as good as one. */
  lemma {:induction false} StackRunsAsOne(src: Source, fs: Fs, requests: seq<Request>, n: nat)
    requires n <= |requests| && fs.Strip?
    ensures var s, t := Run(src, fs, requests, n), Run(src, Strip(Bare, TotalStripped(fs)), requests, n);
      s.seen == t.seen && s.history == t.history
    decreases Depth(fs)
  {
    match fs.inner
    case Bare =>
    case Strip(inner, a) =>
      var merged := Strip(inner, a + fs.start);
      assert Depth(merged) == 1 + Depth(inner) && Depth(fs) == 1 + Depth(Strip(inner, a));
      StackedRunsAlike(src, inner, a, fs.start, requests, n);
      StackRunsAsOne(src, merged, requests, n);
  }

  // ---------------------------------------------------------------- what a wrapped file is called

  /** The source's files are called what they were opened as. */
  ghost predicate NamesFilesAsOpened(src: Source) {
    forall history: seq<Call>, verb: Verb, name: string, id: nat ::
      src.respond(history + [At(verb, name)]) == Opened(Raw(id)) ==> src.nameOf(history + [At(verb, name)], id) == name
  }

  /** File.Name shortens a name that the source only ever saw shortened: the prefix goes twice, and asking
      panics exactly when the path the file was opened as is shorter than two prefixes. */
  lemma NameIsShortenedTwice(src: Source, start: nat, history: seq<Call>, verb: Verb, name: string, id: nat)
    requires NamesFilesAsOpened(src) && (verb.OpenFile? || verb.Open? || verb.Create?)
    requires |name| >= start && src.respond(history + [At(verb, name[start..])]) == Opened(Raw(id))
    ensures var (r, history') := Do(src, Strip(Bare, start), history, At(verb, name));
      && r.Opened?
      && FileName(src, history', r.file) == if |name| < start + start then None else Some(name[start + start..])
  {
  }

  /** One that panics: a file with a one-letter name under a directory of the prefix. */
  lemma AskingTheNameCanPanic() returns (src: Source)
    ensures NamesFilesAsOpened(src)
    ensures var (r, history) := Do(src, Strip(Bare, 4), [], At(Open, "/ftp/a"));
      r.Opened? && src.nameOf(history, RawId(r.file)) == "/a" && FileName(src, history, r.file).None?
  {
    src := Source(
      _ => Opened(Raw(0)),
      true,
      (history: seq<Call>, id: nat) =>
        if history != [] && history[|history| - 1].At? then history[|history| - 1].name else "");
    assert "/ftp/a"[4..] == "/a";
  }
}
