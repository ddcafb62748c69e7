/**
  The configuration document as a tree, with the path update that sjson.Set performs.

  A path component that parses as a number is a `Num`, any other one a `Name`; either can
  be a member name of an object, and only a `Num` can index an array.
*/
module Json {
  import opened Wrappers

  datatype Part = Name(text: string) | Num(index: nat)

  datatype Json =
    | Null
    | Str(text: string)
    | Scalar(raw: string)  // a boolean or a number
    | Array(items: seq<Json>)
    | Object(members: map<Part, Json>)
    | Broken(bytes: string)  // not a document at all, such as what a failed write leaves behind

  function Nulls(n: nat): (nulls: seq<Json>)
    ensures |nulls| == n
    ensures forall k :: 0 <= k < n ==> nulls[k] == Null
  {
    seq(n, _ => Null)
  }

  /** The value created under a missing member: arrays for numbers, objects for names. */
  function Build(path: seq<Part>, leaf: Json): Json {
    if path == [] then leaf
    else match path[0]
      case Name(_) => Object(map[path[0] := Build(path[1..], leaf)])
      case Num(n) => Array(Nulls(n) + [Build(path[1..], leaf)])
  }

  /** Fails exactly where something that is no object or list stands in the way, or a name indexes an array. */
  function Set(doc: Json, path: seq<Part>, leaf: Json): Result<Json, string> {
    if path == [] then Success(leaf)
    else match doc
      case Object(members) =>
        if path[0] !in members then Success(Object(members[path[0] := Build(path[1..], leaf)]))
        else (match Set(members[path[0]], path[1..], leaf)
                case Success(child) => Success(Object(members[path[0] := child]))
                case Failure(e) => Failure(e))
      case Array(items) => (
        match path[0]
        case Name(_) => Failure("cannot set array element for non-numeric key")
        case Num(n) =>
          if n >= |items| then Success(Array(items + Nulls(n - |items|) + [Build(path[1..], leaf)]))
          else (match Set(items[n], path[1..], leaf)
                  case Success(child) => Success(Array(items[n := child]))
                  case Failure(e) => Failure(e)))
      case _ => Failure("json must be an object or array")
  }

  function Get(doc: Json, path: seq<Part>): Option<Json> {
    if path == [] then Some(doc)
    else match doc
      case Object(members) => if path[0] in members then Get(members[path[0]], path[1..]) else None
      case Array(items) =>
        if path[0].Num? && path[0].index < |items| then Get(items[path[0].index], path[1..]) else None
      case _ => None
  }

  lemma {:induction false} GetBuild(path: seq<Part>, leaf: Json)
    ensures Get(Build(path, leaf), path) == Some(leaf)
  {
    if path == [] {
    } else {
      GetBuild(path[1..], leaf);
    }
  }

  /** What was set is what is read back. */
  lemma {:induction false} GetSet(doc: Json, path: seq<Part>, leaf: Json)
    requires Set(doc, path, leaf).Success?
    ensures Get(Set(doc, path, leaf).value, path) == Some(leaf)
  {
    if path == [] {
    } else {
      GetBuild(path[1..], leaf);
      match doc
      case Object(members) =>
        if path[0] in members {
          GetSet(members[path[0]], path[1..], leaf);
        }
      case Array(items) =>
        if path[0].index < |items| {
          GetSet(items[path[0].index], path[1..], leaf);
        }
      case _ =>
    }
  }

  /** A path that parts from the written one at some component keeps the value it had. */
  lemma {:induction false} GetSetElsewhere(doc: Json, path: seq<Part>, other: seq<Part>, leaf: Json)
    requires Set(doc, path, leaf).Success?
    requires exists k :: 0 <= k < |path| && k < |other| && path[k] != other[k]
    requires Get(doc, other).Some?
    ensures Get(Set(doc, path, leaf).value, other) == Get(doc, other)
  {
    if path[0] == other[0] {
      var k :| 0 <= k < |path| && k < |other| && path[k] != other[k];
      assert path[1..][k - 1] != other[1..][k - 1];
      match doc
      case Object(members) => GetSetElsewhere(members[path[0]], path[1..], other[1..], leaf);
      case Array(items) => GetSetElsewhere(items[path[0].index], path[1..], other[1..], leaf);
      case _ =>
    }
  }

  lemma {:induction false} BuildHoldsNothingElse(path: seq<Part>, other: seq<Part>, leaf: Json)
    requires exists k :: 0 <= k < |path| && k < |other| && path[k] != other[k]
    ensures Get(Build(path, leaf), other) in {None, Some(Null)}
  {
    if path[0] == other[0] {
      var k :| 0 <= k < |path| && k < |other| && path[k] != other[k];
      assert path[1..][k - 1] != other[1..][k - 1];
      BuildHoldsNothingElse(path[1..], other[1..], leaf);
    } else if path[0].Num? && other[0].Num? && other[0].index < path[0].index {
      GetInNull(other[1..]);
    }
  }

  lemma GetInNull(path: seq<Part>)
    ensures Get(Null, path) in {None, Some(Null)}
  {
  }

  /** Nothing but the padding of a list appears beside what was set. */
  lemma {:induction false} NothingElseAppears(doc: Json, path: seq<Part>, other: seq<Part>, leaf: Json)
    requires Set(doc, path, leaf).Success?
    requires exists k :: 0 <= k < |path| && k < |other| && path[k] != other[k]
    requires Get(doc, other).None?
    ensures Get(Set(doc, path, leaf).value, other) in {None, Some(Null)}
  {
    GetInNull(other[1..]);
    if path[0] == other[0] {
      var k :| 0 <= k < |path| && k < |other| && path[k] != other[k];
      assert path[1..][k - 1] != other[1..][k - 1];
      match doc
      case Object(members) =>
        if path[0] in members {
          NothingElseAppears(members[path[0]], path[1..], other[1..], leaf);
        } else {
          BuildHoldsNothingElse(path[1..], other[1..], leaf);
        }
      case Array(items) =>
        if path[0].index < |items| {
          NothingElseAppears(items[path[0].index], path[1..], other[1..], leaf);
        } else {
          BuildHoldsNothingElse(path[1..], other[1..], leaf);
        }
      case _ =>
    }
  }

  /** Where a credential's password lives in the document. */
  function PassPath(i: nat): seq<Part> {
    [Name("accesses"), Num(i), Name("pass")]
  }

  /** The paths `accesses.<i>.pass` that Set can write, read off the document alone. */
  predicate Settable(doc: Json, i: nat) {
    && doc.Object?
    && (Name("accesses") in doc.members ==>
          var list := doc.members[Name("accesses")];
          match list
          case Array(items) => i < |items| ==> items[i].Object?
          case Object(members) => Num(i) in members ==> members[Num(i)].Object?
          case _ => false)
  }

  lemma SetPassUnfolds(doc: Json, i: nat, leaf: Json)
    ensures PassPath(i)[1..] == [Num(i), Name("pass")] && PassPath(i)[1..][1..] == [Name("pass")]
    ensures [Name("pass")][1..] == []
    ensures Build([Name("pass")], leaf) == Object(map[Name("pass") := leaf])
    ensures Build(PassPath(i)[1..], leaf) == Array(Nulls(i) + [Object(map[Name("pass") := leaf])])
  {
  }

  lemma SetPassMember(entry: Json, leaf: Json)
    ensures Set(entry, [Name("pass")], leaf)
         == (match entry
             case Object(members) => Success(Object(members[Name("pass") := leaf]))
             case Array(_) => Failure("cannot set array element for non-numeric key")
             case _ => Failure("json must be an object or array"))
  {
  }

  lemma SetPassSucceeds(doc: Json, i: nat, leaf: Json)
    ensures Set(doc, PassPath(i), leaf).Success? <==> Settable(doc, i)
  {
    SetPassUnfolds(doc, i, leaf);
    if doc.Object? && Name("accesses") in doc.members {
      var list := doc.members[Name("accesses")];
      match list
      case Array(items) =>
        if i < |items| {
          SetPassMember(items[i], leaf);
        }
      case Object(members) =>
        if Num(i) in members {
          SetPassMember(members[Num(i)], leaf);
        }
      case _ =>
    }
  }

  /** A password path that cannot be written cannot be read either. */
  lemma UnsettableIsUnreadable(doc: Json, i: nat)
    requires !Settable(doc, i)
    ensures Get(doc, PassPath(i)).None?
  {
    SetPassUnfolds(doc, i, Null);
    if doc.Object? && Name("accesses") in doc.members {
      var list := doc.members[Name("accesses")];
      assert Get(doc, PassPath(i)) == Get(list, PassPath(i)[1..]);
      match list
      case Array(items) => assert i < |items| ==> Get(list, PassPath(i)[1..]) == Get(items[i], [Name("pass")]);
      case Object(members) =>
        assert Num(i) in members ==> Get(list, PassPath(i)[1..]) == Get(members[Num(i)], [Name("pass")]);
      case _ =>
    }
  }

  /** Writing one credential does not change which later ones can be written. */
  lemma SettableAfterSet(doc: Json, j: nat, i: nat, leaf: Json)
    requires j < i && Settable(doc, j)
    ensures Set(doc, PassPath(j), leaf).Success?
    ensures Settable(Set(doc, PassPath(j), leaf).value, i) <==> Settable(doc, i)
  {
    SetPassUnfolds(doc, j, leaf);
    SetPassSucceeds(doc, j, leaf);
    if Name("accesses") in doc.members {
      var list := doc.members[Name("accesses")];
      var list' := Set(list, PassPath(j)[1..], leaf);
      assert list'.Success?;
      assert Set(doc, PassPath(j), leaf).value == Object(doc.members[Name("accesses") := list'.value]);
    }
  }

  /** Nor does it ever repair an entry that could not be written. */
  lemma SetKeepsUnsettable(doc: Json, j: nat, i: nat, leaf: Json)
    requires !Settable(doc, i)
    ensures Set(doc, PassPath(j), leaf).Success? ==> j != i && !Settable(Set(doc, PassPath(j), leaf).value, i)
  {
    SetPassUnfolds(doc, j, leaf);
    SetPassSucceeds(doc, j, leaf);
    if Settable(doc, j) && Name("accesses") in doc.members {
      var list := doc.members[Name("accesses")];
      var list' := Set(list, PassPath(j)[1..], leaf);
      assert list'.Success?;
      assert Set(doc, PassPath(j), leaf).value == Object(doc.members[Name("accesses") := list'.value]);
    }
  }
}
