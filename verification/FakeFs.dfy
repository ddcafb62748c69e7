/** The fake file system of the Telegram backend: a map to shared, mutable entries, against a log of its operations. */
module FakeFs {
  import opened Wrappers
  import opened Seqs

  datatype Op = Mkdir(name: string, mode: nat) | Create(name: string) | SetSize(name: string, size: int)

  predicate Creates(op: Op, name: string) {
    (op.Mkdir? || op.Create?) && op.name == name
  }

  datatype Info = Info(name: string, dir: bool, mode: nat, size: int)
  {
    /** The size reported: directories always report 42. */
    function Size(): int {
      if dir then 42 else size
    }
  }

  // ---------------------------------------------------------------- what the log says

  /** The last operation that made an entry of that name. */
  function LastCreation(log: seq<Op>, name: string): (i: Option<nat>)
    ensures i.Some? ==> i.value < |log|
  {
    if log == [] then None
    else if Creates(log[|log| - 1], name) then Some(|log| - 1)
    else LastCreation(log[..|log| - 1], name)
  }

  /** The size of the entry made by the i-th operation: the last one set before the entry was replaced. */
  function SizeOf(log: seq<Op>, i: nat): int
    requires i < |log|
  {
    if |log| == i + 1 then 0
    else
      var before, op := log[..|log| - 1], log[|log| - 1];
      if op.SetSize? && LastCreation(before, op.name) == Some(i) then op.size else SizeOf(before, i)
  }

  function InfoOf(log: seq<Op>, i: nat): Info
    requires i < |log|
  {
    Info(log[i].name, log[i].Mkdir?, if log[i].Mkdir? then log[i].mode else 0, SizeOf(log, i))
  }

  function StatOf(log: seq<Op>, name: string): Option<Info> {
    match LastCreation(log, name)
    case None => None
    case Some(i) => Some(InfoOf(log, i))
  }

  lemma {:induction false} LastCreationIs(log: seq<Op>, name: string)
    ensures match LastCreation(log, name)
      case Some(i) => i < |log| && Creates(log[i], name) && forall k :: i < k < |log| ==> !Creates(log[k], name)
      case None => forall k :: 0 <= k < |log| ==> !Creates(log[k], name)
  {
    if log != [] && !Creates(log[|log| - 1], name) {
      LastCreationIs(log[..|log| - 1], name);
    }
  }

  /** The k-th operation sets the size of the entry made by the i-th: it comes before any replacement of it. */
  ghost predicate SetsSizeOf(log: seq<Op>, k: nat, i: nat)
    requires i < |log|
  {
    && i < k < |log| && log[k].SetSize? && Creates(log[i], log[k].name)
    && forall l :: i < l < k ==> !Creates(log[l], log[i].name)
  }

  lemma SetsSizeOfLast(log: seq<Op>, i: nat)
    requires i < |log| - 1 && Creates(log[i], log[i].name)
    ensures SetsSizeOf(log, |log| - 1, i)
       <==> log[|log| - 1].SetSize? && LastCreation(log[..|log| - 1], log[|log| - 1].name) == Some(i)
  {
    var before, op := log[..|log| - 1], log[|log| - 1];
    LastCreationIs(before, op.name);
    if SetsSizeOf(log, |log| - 1, i) {
      assert Creates(before[i], op.name);
    }
  }

  lemma SetsSizeOfEarlier(log: seq<Op>, i: nat, k: nat)
    requires i < |log| - 1 && k < |log| - 1
    ensures SetsSizeOf(log, k, i) <==> SetsSizeOf(log[..|log| - 1], k, i)
  {
  }

  /** The size of an entry is what was last set on it while it was the one under its name, or zero. */
  lemma {:induction false} SizeIsTheLastSet(log: seq<Op>, i: nat) returns (last: Option<nat>)
    requires i < |log| && Creates(log[i], log[i].name)
    ensures match last
      case None => SizeOf(log, i) == 0 && forall k: nat :: !SetsSizeOf(log, k, i)
      case Some(k) =>
        SetsSizeOf(log, k, i) && SizeOf(log, i) == log[k].size && forall l: nat :: l > k ==> !SetsSizeOf(log, l, i)
  {
    if i + 1 == |log| {
      last := None;
    } else {
      SetsSizeOfLast(log, i);
      if SetsSizeOf(log, |log| - 1, i) {
        last := Some(|log| - 1);
      } else {
        last := SizeIsTheLastSet(log[..|log| - 1], i);
        forall k: nat | k < |log| - 1
          ensures SetsSizeOf(log, k, i) <==> SetsSizeOf(log[..|log| - 1], k, i)
        {
          SetsSizeOfEarlier(log, i, k);
        }
      }
    }
  }

  /** What stat reports as the size of a name: 42 for a directory, whatever was set on it, and for a file what
      was last set since the name was created. */
  lemma ReportedSizeIs(log: seq<Op>, name: string) returns (last: Option<nat>)
    requires StatOf(log, name).Some?
    ensures var i, reported := LastCreation(log, name).value, StatOf(log, name).value.Size();
      if log[i].Mkdir? then reported == 42
      else match last
        case None => reported == 0 && forall k: nat :: !SetsSizeOf(log, k, i)
        case Some(k) =>
          SetsSizeOf(log, k, i) && reported == log[k].size && forall l: nat :: l > k ==> !SetsSizeOf(log, l, i)
  {
    LastCreationIs(log, name);
    last := SizeIsTheLastSet(log, LastCreation(log, name).value);
  }

  /** A replaced entry is frozen: it keeps the size it had when its name was created anew. */
  lemma {:induction false} ReplacedIsFrozen(log: seq<Op>, i: nat, m: nat)
    requires i < m < |log| && Creates(log[m], log[i].name) && Creates(log[i], log[i].name)
    ensures SizeOf(log, i) == SizeOf(log[..m], i)
  {
    var before := log[..|log| - 1];
    if m == |log| - 1 {
      assert before == log[..m];
    } else {
      ReplacedIsFrozen(before, i, m);
      assert before[..m] == log[..m];
      LastCreationIs(before, log[|log| - 1].name);
      assert Creates(before[m], log[i].name);
    }
  }

  /** An info handed out for a name keeps showing what stat shows for that name, up to the moment the name is
      created anew, and from then on what stat showed last. */
  lemma HeldInfoFollowsStat(log: seq<Op>, name: string, i: nat, more: seq<Op>, m: nat)
    requires LastCreation(log, name) == Some(i)
    requires m <= |more| && (forall k :: 0 <= k < m ==> !Creates(more[k], name))
    requires m < |more| ==> Creates(more[m], name)
    ensures StatOf(log + more[..m], name) == Some(InfoOf(log + more, i))
  {
    LastCreationIs(log, name);
    LastCreationStays(log, name, i, more[..m]);
    HeldSize(log, name, i, more, m);
  }

  lemma HeldSize(log: seq<Op>, name: string, i: nat, more: seq<Op>, m: nat)
    requires i < |log| && Creates(log[i], name) && m <= |more| && (m < |more| ==> Creates(more[m], name))
    ensures SizeOf(log + more, i) == SizeOf(log + more[..m], i)
  {
    var all := log + more;
    if m < |more| {
      PrefixOfConcat(log, more, m);
      ReplacedIsFrozen(all, i, |log| + m);
    } else {
      assert more[..m] == more;
    }
  }

  lemma {:induction false} LastCreationStays(log: seq<Op>, name: string, i: nat, more: seq<Op>)
    requires LastCreation(log, name) == Some(i) && forall k :: 0 <= k < |more| ==> !Creates(more[k], name)
    ensures LastCreation(log + more, name) == Some(i)
  {
    if more == [] {
      assert log + more == log;
    } else {
      LastCreationStays(log, name, i, more[..|more| - 1]);
      assert (log + more)[..|log + more| - 1] == log + more[..|more| - 1];
    }
  }

  /** The operations on one name. */
  function Only(log: seq<Op>, name: string): seq<Op> {
    if log == [] then []
    else
      var before, op := Only(log[..|log| - 1], name), log[|log| - 1];
      if op.name == name then before + [op] else before
  }

  /** Operations on other names never show. */
  lemma {:induction false} OtherNamesDoNotShow(log: seq<Op>, name: string)
    ensures StatOf(log, name) == StatOf(Only(log, name), name)
  {
    if log == [] {
    } else {
      var before, op := log[..|log| - 1], log[|log| - 1];
      OtherNamesDoNotShow(before, name);
      assert log == before + [op];
      StatAfter(before, op, name);
      if op.name == name {
        StatAfter(Only(before, name), op, name);
      }
    }
  }

  /** The map after replaying the log, entry by entry. */
  function Replay(log: seq<Op>): map<string, Info> {
    if log == [] then map[]
    else
      var dict := Replay(log[..|log| - 1]);
      match log[|log| - 1]
      case Mkdir(name, mode) => dict[name := Info(name, true, mode, 0)]
      case Create(name) => dict[name := Info(name, false, 0, 0)]
      case SetSize(name, size) => if name in dict then dict[name := dict[name].(size := size)] else dict
  }

  /** What one more operation does to stat. */
  lemma StatAfter(log: seq<Op>, op: Op, name: string)
    ensures StatOf(log + [op], name) ==
      if op.name != name then StatOf(log, name)
      else match op
        case Mkdir(_, mode) => Some(Info(name, true, mode, 0))
        case Create(_) => Some(Info(name, false, 0, 0))
        case SetSize(_, size) =>
          match StatOf(log, name)
          case None => None
          case Some(info) => Some(info.(size := size))
  {
    assert (log + [op])[..|log|] == log;
    LastCreationIs(log, name);
    LastCreationIs(log, op.name);
  }

  /** Stat agrees with the replay of the log. */
  lemma {:induction false} StatIsReplay(log: seq<Op>, name: string)
    ensures StatOf(log, name) == if name in Replay(log) then Some(Replay(log)[name]) else None
  {
    if log == [] {
    } else {
      StatIsReplay(log[..|log| - 1], name);
      StatAfter(log[..|log| - 1], log[|log| - 1], name);
      assert log == log[..|log| - 1] + [log[|log| - 1]];
    }
  }

  /** Names are never forgotten. */
  lemma {:induction false} NamesStay(log: seq<Op>, more: seq<Op>, name: string)
    requires StatOf(log, name).Some?
    ensures StatOf(log + more, name).Some?
  {
    if more == [] {
      assert log + more == log;
    } else {
      NamesStay(log, more[..|more| - 1], name);
      StatAfter(log + more[..|more| - 1], more[|more| - 1], name);
      assert log + more == log + more[..|more| - 1] + [more[|more| - 1]];
    }
  }

  // ---------------------------------------------------------------- the shared entries

  class FileInfo {
    const name: string
    const dir: bool
    const mode: nat
    var size: int

    constructor (name: string, dir: bool, mode: nat)
      ensures View() == Info(name, dir, mode, 0)
    {
      this.name, this.dir, this.mode, this.size := name, dir, mode, 0;
    }

    function View(): Info
      reads this
    {
      Info(name, dir, mode, size)
    }

    method Size() returns (n: int)
      ensures n == View().Size()
    {
      n := if dir then 42 else size;
    }
  }

  class FakeFilesystem {
    var dict: map<string, FileInfo>
    ghost var log: seq<Op>
    ghost var entries: seq<FileInfo?>  // the entry each operation made, if it made one

    /** Every entry ever made, also one replaced since and still held by a caller, shows what the log says of it. */
    ghost predicate Valid()
      reads this, entries
    {
      && |entries| == |log|
      && (forall i :: 0 <= i < |log| ==> (entries[i] != null <==> Creates(log[i], log[i].name)))
      && (forall i :: 0 <= i < |log| && entries[i] != null ==> entries[i].View() == InfoOf(log, i))
      && (forall i, j :: 0 <= i < j < |log| && entries[i] != null ==> entries[i] != entries[j])
      && (forall name :: name in dict <==> LastCreation(log, name).Some?)
      && (forall name :: name in dict ==> dict[name] == entries[LastCreation(log, name).value])
    }

    constructor ()
      ensures Valid() && log == []
    {
      dict, log, entries := map[], [], [];
    }

    method MakeEntry(op: Op) returns (info: FileInfo)
      requires Valid() && Creates(op, op.name)
      modifies this
      ensures Valid() && fresh(info)
      ensures log == old(log) + [op] && entries == old(entries) + [info] && dict == old(dict)[op.name := info]
    {
      info := new FileInfo(op.name, op.Mkdir?, if op.Mkdir? then op.mode else 0);
      AppendCreation(log, op);
      dict := dict[op.name := info];
      entries := entries + [info];
      log := log + [op];
    }

    method Mkdir(name: string, mode: nat)
      requires Valid()
      modifies this
      ensures Valid() && log == old(log) + [Op.Mkdir(name, mode)]
      ensures name in dict && fresh(dict[name]) && dict == old(dict)[name := dict[name]]
      ensures entries == old(entries) + [dict[name]]
    {
      var _ := MakeEntry(Op.Mkdir(name, mode));
    }

    method Create(name: string)
      requires Valid()
      modifies this
      ensures Valid() && log == old(log) + [Op.Create(name)]
      ensures name in dict && fresh(dict[name]) && dict == old(dict)[name := dict[name]]
      ensures entries == old(entries) + [dict[name]]
    {
      var _ := MakeEntry(Op.Create(name));
    }

    method SetSize(name: string, size: int)
      requires Valid()
      modifies this`log, this`entries, if name in dict then {dict[name]} else {}
      ensures Valid() && log == old(log) + [Op.SetSize(name, size)]
      ensures entries == old(entries) + [null]
    {
      AppendSetSize(log, name, size);
      if name in dict {
        dict[name].size := size;
      }
      entries := entries + [null];
      log := log + [Op.SetSize(name, size)];
    }

    /** Hands out the entry itself: what it shows later is what the log says of it then. */
    method Stat(name: string) returns (info: FileInfo?)
      requires Valid()
      ensures info == null <==> StatOf(log, name).None?
      ensures info != null ==> LastCreation(log, name).Some? && info == entries[LastCreation(log, name).value]
      ensures info != null ==> StatOf(log, name) == Some(info.View())
    {
      LastCreationIs(log, name);
      info := if name in dict then dict[name] else null;
    }
  }

  lemma AppendCreation(log: seq<Op>, op: Op)
    requires Creates(op, op.name)
    ensures var log' := log + [op];
      && (forall i :: 0 <= i < |log| ==> InfoOf(log', i) == InfoOf(log, i))
      && InfoOf(log', |log|) == Info(op.name, op.Mkdir?, if op.Mkdir? then op.mode else 0, 0)
      && (forall name :: LastCreation(log', name) == if name == op.name then Some(|log|) else LastCreation(log, name))
  {
  }

  lemma AppendSetSize(log: seq<Op>, name: string, size: int)
    ensures var log' := log + [SetSize(name, size)];
      && (forall i :: 0 <= i < |log| ==>
            InfoOf(log', i) ==
              if LastCreation(log, name) == Some(i) then InfoOf(log, i).(size := size) else InfoOf(log, i))
      && (forall other :: LastCreation(log', other) == LastCreation(log, other))
  {
  }
}
