/**
  The rewrite that HashPlaintextPasswords performs, on the table and on the document at once.
  `salts(i)` is the salt drawn for entry i.
*/
module Hashing {
  import opened Wrappers
  import opened Json
  import opened Credentials

  type Salts = nat -> nat

  predicate FailsAt(c: Crypto, salts: Salts, e: Entry, i: nat) {
    Plain(e) && c.hash(salts(i), e.pass).Failure?
  }

  function Hashed(c: Crypto, salts: Salts, e: Entry, i: nat): Entry {
    if !Plain(e) then e
    else match c.hash(salts(i), e.pass)
      case Success(encoded) => e.(pass := encoded)
      case Failure(_) => e
  }

  /** Where the loop stops: the first entry whose hashing fails, or the end. */
  function StopFrom(c: Crypto, salts: Salts, t: seq<Entry>, i: nat): (k: nat)
    requires i <= |t|
    ensures i <= k <= |t|
    ensures forall j :: i <= j < k ==> !FailsAt(c, salts, t[j], j)
    ensures k < |t| ==> FailsAt(c, salts, t[k], k)
    decreases |t| - i
  {
    if i == |t| || FailsAt(c, salts, t[i], i) then i else StopFrom(c, salts, t, i + 1)
  }

  function Stop(c: Crypto, salts: Salts, t: seq<Entry>): (k: nat)
    ensures k <= |t|
  {
    StopFrom(c, salts, t, 0)
  }

  /** The table after k iterations. */
  function TableAfter(c: Crypto, salts: Salts, t: seq<Entry>, k: nat): (t': seq<Entry>)
    requires k <= |t|
    ensures |t'| == |t|
    ensures forall i :: 0 <= i < |t| ==> t'[i] == if i < k then Hashed(c, salts, t[i], i) else t[i]
  {
    if k == 0 then t else TableAfter(c, salts, t, k - 1)[k - 1 := Hashed(c, salts, t[k - 1], k - 1)]
  }

  /** What one iteration does to the document and the save flag: a failed path update is silently dropped. */
  function DocStep(c: Crypto, salts: Salts, e: Entry, i: nat, before: (Json, bool)): (Json, bool) {
    if !Plain(e) || FailsAt(c, salts, e, i) then before
    else match Set(before.0, PassPath(i), Str(c.hash(salts(i), e.pass).value))
      case Success(modified) => (modified, true)
      case Failure(_) => before
  }

  function DocAfter(c: Crypto, salts: Salts, t: seq<Entry>, doc: Json, k: nat): (Json, bool)
    requires k <= |t|
  {
    if k == 0 then (doc, false) else DocStep(c, salts, t[k - 1], k - 1, DocAfter(c, salts, t, doc, k - 1))
  }

  lemma NothingDone(c: Crypto, salts: Salts, t: seq<Entry>, doc: Json)
    ensures TableAfter(c, salts, t, 0) == t && DocAfter(c, salts, t, doc, 0) == (doc, false)
  {
  }

  lemma OneMoreDone(c: Crypto, salts: Salts, t: seq<Entry>, doc: Json, k: nat)
    requires k < |t| && k <= Stop(c, salts, t)
    ensures TableAfter(c, salts, t, k)[k] == t[k]
    ensures TableAfter(c, salts, t, k + 1) == TableAfter(c, salts, t, k)[k := Hashed(c, salts, t[k], k)]
    ensures DocAfter(c, salts, t, doc, k + 1) == DocStep(c, salts, t[k], k, DocAfter(c, salts, t, doc, k))
    ensures FailsAt(c, salts, t[k], k) ==>
      Stop(c, salts, t) == k && TableAfter(c, salts, t, k + 1) == TableAfter(c, salts, t, k)
    ensures !FailsAt(c, salts, t[k], k) ==> k + 1 <= Stop(c, salts, t)
  {
  }

  // ---------------------------------------------------------------- the rewrite, read off the fields

  /** The open anonymous entry and hashed passwords are left alone; every other password that is reached is
      replaced by its digest. */
  lemma EntryAfterRewrite(c: Crypto, salts: Salts, t: seq<Entry>, k: nat, i: nat)
    requires k <= Stop(c, salts, t) && i < |t|
    ensures var e, e' := t[i], TableAfter(c, salts, t, k)[i];
      if i >= k || (e.user == "anonymous" && e.pass == "*") || LooksHashed(e.pass) then e' == e
      else c.hash(salts(i), e.pass).Success? && e' == e.(pass := c.hash(salts(i), e.pass).value)
  {
    SchemeIffLooksHashed(t[i].pass);
  }

  /** The loop stops at the first entry that is to be rewritten and on which the hasher fails. */
  lemma StopsAtFirstFailure(c: Crypto, salts: Salts, t: seq<Entry>, i: nat)
    requires i < |t|
    ensures i < Stop(c, salts, t) ==>
      (t[i].user == "anonymous" && t[i].pass == "*") || LooksHashed(t[i].pass) || c.hash(salts(i), t[i].pass).Success?
    ensures i == Stop(c, salts, t) ==>
      && !(t[i].user == "anonymous" && t[i].pass == "*") && !LooksHashed(t[i].pass)
      && c.hash(salts(i), t[i].pass).Failure?
  {
    SchemeIffLooksHashed(t[i].pass);
  }

  // ---------------------------------------------------------------- meaning of the table

  function Iterations(salts: Salts, k: nat): (events: seq<Event>)
    ensures |events| == k
  {
    seq(k, i requires 0 <= i < k => HashAt(i, salts(i)))
  }

  lemma {:induction false} IterationsRun(c: Crypto, salts: Salts, t: seq<Entry>, k: nat)
    requires k <= |t|
    ensures Run(c, t, Iterations(salts, k)) == TableAfter(c, salts, t, k)
  {
    if k == 0 {
    } else {
      IterationsRun(c, salts, t, k - 1);
      assert Iterations(salts, k)[..k - 1] == Iterations(salts, k - 1);
    }
  }

  /** After any number of iterations, also when the hasher fails halfway, every entry judges as before. */
  lemma {:induction false} PartlyHashedTableIsAlike(c: Crypto, salts: Salts, t: seq<Entry>, k: nat)
    requires Ideal(c) && k <= |t|
    ensures AlikeTables(c, t, TableAfter(c, salts, t, k))
  {
    IterationsRun(c, salts, t, k);
    RunKeepsVerdicts(c, t, Iterations(salts, k));
  }

  /** So logins are answered as before. */
  lemma PartlyHashedTableAnswersAlike(c: Crypto, salts: Salts, t: seq<Entry>, k: nat)
    requires Ideal(c) && k <= |t|
    ensures AnswersAlike(c, t, TableAfter(c, salts, t, k))
  {
    PartlyHashedTableIsAlike(c, salts, t, k);
    AlikeTablesHaveAnswersAlike(c, t, TableAfter(c, salts, t, k));
  }

  lemma NoPlaintextLeft(c: Crypto, salts: Salts, t: seq<Entry>)
    requires Ideal(c) && Stop(c, salts, t) == |t|
    ensures NoPlaintext(TableAfter(c, salts, t, |t|))
  {
  }

  /** The outcome of a rewrite, complete or not: every login is answered as before, and a complete one leaves
      no plaintext password. */
  lemma RewriteMeansTheSame(c: Crypto, salts: Salts, t: seq<Entry>)
    requires Ideal(c)
    ensures var k := Stop(c, salts, t);
      && AnswersAlike(c, t, TableAfter(c, salts, t, k))
      && (k == |t| ==> NoPlaintext(TableAfter(c, salts, t, k)))
  {
    PartlyHashedTableAnswersAlike(c, salts, t, Stop(c, salts, t));
    if Stop(c, salts, t) == |t| {
      NoPlaintextLeft(c, salts, t);
    }
  }

  // ---------------------------------------------------------------- meaning of the document

  lemma {:induction false} IterationsKeepSettable(c: Crypto, salts: Salts, t: seq<Entry>, doc: Json, k: nat, i: nat)
    requires k <= Stop(c, salts, t) && k <= i
    ensures Settable(DocAfter(c, salts, t, doc, k).0, i) <==> Settable(doc, i)
  {
    if k == 0 {
    } else {
      IterationsKeepSettable(c, salts, t, doc, k - 1, i);
      var before := DocAfter(c, salts, t, doc, k - 1).0;
      if Plain(t[k - 1]) {
        var leaf := Str(c.hash(salts(k - 1), t[k - 1].pass).value);
        SetPassSucceeds(before, k - 1, leaf);
        if Settable(before, k - 1) {
          SettableAfterSet(before, k - 1, i, leaf);
        }
      }
    }
  }

  predicate Saves(t: seq<Entry>, doc: Json, j: nat)
    requires j < |t|
  {
    Plain(t[j]) && Settable(doc, j)
  }

  /** There is something to save exactly when some plaintext entry's path could be written. */
  lemma {:induction false} SaveIffSettable(c: Crypto, salts: Salts, t: seq<Entry>, doc: Json, k: nat)
    requires k <= Stop(c, salts, t)
    ensures DocAfter(c, salts, t, doc, k).1 <==> exists j :: 0 <= j < k && Saves(t, doc, j)
  {
    if k == 0 {
    } else {
      SaveIffSettable(c, salts, t, doc, k - 1);
      SaveNext(c, salts, t, doc, k - 1);
    }
  }

  lemma SaveNext(c: Crypto, salts: Salts, t: seq<Entry>, doc: Json, k: nat)
    requires k < Stop(c, salts, t)
    ensures DocAfter(c, salts, t, doc, k + 1).1 == (DocAfter(c, salts, t, doc, k).1 || Saves(t, doc, k))
  {
    if Plain(t[k]) {
      IterationsKeepSettable(c, salts, t, doc, k, k);
      SetPassSucceeds(DocAfter(c, salts, t, doc, k).0, k, Str(c.hash(salts(k), t[k].pass).value));
    }
  }

  /** Memory and document agree on a rewritten entry exactly when its path could be written to begin with. */
  lemma {:induction false} DocumentAgreesIffSettable(c: Crypto, salts: Salts, t: seq<Entry>, doc: Json, k: nat, i: nat)
    requires i < k <= Stop(c, salts, t) && Plain(t[i])
    ensures Get(DocAfter(c, salts, t, doc, k).0, PassPath(i)) == Some(Str(TableAfter(c, salts, t, k)[i].pass))
       <==> Settable(doc, i)
  {
    var leaf := Str(c.hash(salts(i), t[i].pass).value);
    IterationsKeepSettable(c, salts, t, doc, i, i);
    SetPassSucceeds(DocAfter(c, salts, t, doc, i).0, i, leaf);
    if Settable(doc, i) {
      GetSet(DocAfter(c, salts, t, doc, i).0, PassPath(i), leaf);
      assert DocAfter(c, salts, t, doc, i + 1) == (Set(DocAfter(c, salts, t, doc, i).0, PassPath(i), leaf).value, true);
      LaterIterationsKeep(c, salts, t, doc, i, i + 1, k);
    } else {
      NeverReadable(c, salts, t, doc, i, k);
    }
  }

  lemma {:induction false} LaterIterationsKeep(c: Crypto, salts: Salts, t: seq<Entry>, doc: Json, i: nat,
                                               lo: nat, hi: nat)
    requires i < lo <= hi <= |t| && Get(DocAfter(c, salts, t, doc, lo).0, PassPath(i)).Some?
    ensures Get(DocAfter(c, salts, t, doc, hi).0, PassPath(i)) == Get(DocAfter(c, salts, t, doc, lo).0, PassPath(i))
  {
    if lo == hi {
    } else {
      LaterIterationsKeep(c, salts, t, doc, i, lo, hi - 1);
      var before := DocAfter(c, salts, t, doc, hi - 1).0;
      if Plain(t[hi - 1]) && !FailsAt(c, salts, t[hi - 1], hi - 1) {
        var leaf := Str(c.hash(salts(hi - 1), t[hi - 1].pass).value);
        if Set(before, PassPath(hi - 1), leaf).Success? {
          assert PassPath(hi - 1)[1] != PassPath(i)[1];
          GetSetElsewhere(before, PassPath(hi - 1), PassPath(i), leaf);
        }
      }
    }
  }

  lemma {:induction false} NeverReadable(c: Crypto, salts: Salts, t: seq<Entry>, doc: Json, i: nat, k: nat)
    requires k <= Stop(c, salts, t) && !Settable(doc, i)
    ensures !Settable(DocAfter(c, salts, t, doc, k).0, i)
    ensures Get(DocAfter(c, salts, t, doc, k).0, PassPath(i)).None?
  {
    if k == 0 {
    } else {
      NeverReadable(c, salts, t, doc, i, k - 1);
      var before := DocAfter(c, salts, t, doc, k - 1).0;
      if Plain(t[k - 1]) {
        SetKeepsUnsettable(before, k - 1, i, Str(c.hash(salts(k - 1), t[k - 1].pass).value));
      }
    }
    UnsettableIsUnreadable(DocAfter(c, salts, t, doc, k).0, i);
  }

  /** The document decodes to a table of n accesses: each is an object in the list under "accesses". */
  predicate ListsAccesses(doc: Json, n: nat) {
    && doc.Object?
    && Name("accesses") in doc.members
    && doc.members[Name("accesses")].Array?
    && |doc.members[Name("accesses")].items| == n
    && forall i :: 0 <= i < n ==> doc.members[Name("accesses")].items[i].Object?
  }

  function Accesses(doc: Json, n: nat): (items: seq<Json>)
    requires ListsAccesses(doc, n)
    ensures |items| == n && forall i :: 0 <= i < n ==> items[i].Object?
  {
    doc.members[Name("accesses")].items
  }

  /** In such a document every path can be written, so file and memory agree on every rewritten entry. */
  lemma ListedIsSettable(doc: Json, n: nat, i: nat)
    requires ListsAccesses(doc, n) && i < n
    ensures Settable(doc, i)
  {
    assert doc.members[Name("accesses")].items[i].Object?;
  }

  /** The decoder folds the case of member names and a path update does not. So here, where "Accesses" decodes
      to a table of one plaintext entry, the rewrite reaches memory only: nothing is written to the file. */
  lemma RewriteCanMissTheFile(c: Crypto, salts: Salts)
    requires c.hash(salts(0), "secret").Success?
    ensures var access := Object(map[Name("user") := Str("u"), Name("pass") := Str("secret"), Name("fs") := Str("os")]);
            var doc := Object(map[Name("accesses") := Null, Name("Accesses") := Array([access])]);
            var t := [Entry("u", "secret", "os", false, "")];
      && Stop(c, salts, t) == 1 && !Settable(doc, 0)
      && TableAfter(c, salts, t, 1)[0].pass == c.hash(salts(0), "secret").value
      && DocAfter(c, salts, t, doc, 1) == (doc, false)
      && Get(doc, PassPath(0)).None?
  {
    var access := Object(map[Name("user") := Str("u"), Name("pass") := Str("secret"), Name("fs") := Str("os")]);
    var doc := Object(map[Name("accesses") := Null, Name("Accesses") := Array([access])]);
    var t := [Entry("u", "secret", "os", false, "")];
    assert "secret"[0] == 's';
    assert Plain(t[0]) && !FailsAt(c, salts, t[0], 0);
    assert StopFrom(c, salts, t, 1) == 1;
    SetPassSucceeds(doc, 0, Str(c.hash(salts(0), "secret").value));
    assert DocAfter(c, salts, t, doc, 0) == (doc, false);
    UnsettableIsUnreadable(doc, 0);
  }

  lemma SetPassInList(doc: Json, n: nat, i: nat, leaf: Json)
    requires ListsAccesses(doc, n) && i < n
    ensures var item := Object(Accesses(doc, n)[i].members[Name("pass") := leaf]);
      Set(doc, PassPath(i), leaf)
      == Success(Object(doc.members[Name("accesses") := Array(Accesses(doc, n)[i := item])]))
  {
    SetPassUnfolds(doc, i, leaf);
    SetPassMember(Accesses(doc, n)[i], leaf);
    assert Set(doc.members[Name("accesses")], [Num(i), Name("pass")], leaf).Success?;
  }

  function ItemAfter(c: Crypto, salts: Salts, e: Entry, i: nat, item: Json): Json
    requires item.Object?
  {
    if Plain(e) && !FailsAt(c, salts, e, i)
    then Object(item.members[Name("pass") := Str(Hashed(c, salts, e, i).pass)])
    else item
  }

  /** The list of accesses after k iterations: only the passwords of plaintext entries are replaced. */
  function ItemsAfter(c: Crypto, salts: Salts, t: seq<Entry>, items: seq<Json>, k: nat): (items': seq<Json>)
    requires k <= |t| == |items| && forall i :: 0 <= i < |items| ==> items[i].Object?
    ensures |items'| == |items|
    ensures forall i :: 0 <= i < |items| ==> items'[i].Object?
    ensures forall i :: 0 <= i < |items| ==>
      items'[i] == if i < k then ItemAfter(c, salts, t[i], i, items[i]) else items[i]
  {
    if k == 0 then items
    else ItemsAfter(c, salts, t, items, k - 1)[k - 1 := ItemAfter(c, salts, t[k - 1], k - 1, items[k - 1])]
  }

  function WithAccesses(doc: Json, items: seq<Json>): Json
    requires doc.Object?
  {
    Object(doc.members[Name("accesses") := Array(items)])
  }

  /** On a document that lists the accesses, the rewrite replaces the passwords of the plaintext
      entries by those in memory and changes nothing else anywhere in the tree. */
  lemma {:induction false} DocumentMirrorsTable(c: Crypto, salts: Salts, t: seq<Entry>, doc: Json, k: nat)
    requires ListsAccesses(doc, |t|) && k <= |t|
    ensures DocAfter(c, salts, t, doc, k).0 == WithAccesses(doc, ItemsAfter(c, salts, t, Accesses(doc, |t|), k))
  {
    if k == 0 {
    } else {
      DocumentMirrorsTable(c, salts, t, doc, k - 1);
      MirrorNext(c, salts, t, doc, k - 1, DocAfter(c, salts, t, doc, k - 1).1);
    }
  }

  lemma MirrorNext(c: Crypto, salts: Salts, t: seq<Entry>, doc: Json, k: nat, save: bool)
    requires ListsAccesses(doc, |t|) && k < |t|
    ensures var items := Accesses(doc, |t|);
      DocStep(c, salts, t[k], k, (WithAccesses(doc, ItemsAfter(c, salts, t, items, k)), save))
      == (WithAccesses(doc, ItemsAfter(c, salts, t, items, k + 1)),
          save || (Plain(t[k]) && !FailsAt(c, salts, t[k], k)))
  {
    var items := ItemsAfter(c, salts, t, Accesses(doc, |t|), k);
    var before := WithAccesses(doc, items);
    if Plain(t[k]) && !FailsAt(c, salts, t[k], k) {
      var leaf := Str(c.hash(salts(k), t[k].pass).value);
      SetPassInList(before, |t|, k, leaf);
      var items' := items[k := Object(items[k].members[Name("pass") := leaf])];
      assert items' == ItemsAfter(c, salts, t, Accesses(doc, |t|), k + 1);
      assert WithAccesses(before, items') == WithAccesses(doc, items');
    } else {
      assert items[k := items[k]] == items;
    }
  }

  /** The password an access decodes to: a missing member and a null read as the empty one. */
  function PassOf(item: Json): Option<string>
    requires item.Object?
  {
    if Name("pass") !in item.members then Some("")
    else match item.members[Name("pass")]
      case Null => Some("")
      case Str(pass) => Some(pass)
      case _ => None
  }

  /** The document holds the passwords of the table. */
  ghost predicate HoldsPasswords(doc: Json, t: seq<Entry>) {
    && ListsAccesses(doc, |t|)
    && forall i :: 0 <= i < |t| ==> PassOf(Accesses(doc, |t|)[i]) == Some(t[i].pass)
  }

  /** If file and memory agree on the passwords to begin with, they agree after every iteration, and a
      complete rewrite has something to save exactly when some entry was plaintext. */
  lemma FileAndMemoryAgree(c: Crypto, salts: Salts, t: seq<Entry>, doc: Json, k: nat)
    requires HoldsPasswords(doc, t) && k <= Stop(c, salts, t)
    ensures HoldsPasswords(DocAfter(c, salts, t, doc, k).0, TableAfter(c, salts, t, k))
    ensures DocAfter(c, salts, t, doc, k).1 <==> exists i :: 0 <= i < k && Plain(t[i])
  {
    DocumentMirrorsTable(c, salts, t, doc, k);
    ItemsHoldPasswords(c, salts, t, Accesses(doc, |t|), k);
    SaveIffSettable(c, salts, t, doc, k);
    forall i | 0 <= i < k && Plain(t[i]) ensures Saves(t, doc, i) {
      ListedIsSettable(doc, |t|, i);
    }
  }

  lemma ItemsHoldPasswords(c: Crypto, salts: Salts, t: seq<Entry>, items: seq<Json>, k: nat)
    requires k <= |t| == |items| && forall i :: 0 <= i < |items| ==> items[i].Object?
    requires k <= Stop(c, salts, t) && forall i :: 0 <= i < |items| ==> PassOf(items[i]) == Some(t[i].pass)
    ensures forall i :: 0 <= i < |items| ==>
      PassOf(ItemsAfter(c, salts, t, items, k)[i]) == Some(TableAfter(c, salts, t, k)[i].pass)
  {
  }

  /** A second pass over the rewritten table and document is a fixpoint that has nothing to save. */
  lemma {:induction false} SecondPassIsIdle(c: Crypto, salts: Salts, again: Salts, t: seq<Entry>, doc: Json, k: nat)
    requires Ideal(c) && Stop(c, salts, t) == |t| && k <= |t|
    ensures var t' := TableAfter(c, salts, t, |t|);
      Stop(c, again, t') == |t| && TableAfter(c, again, t', k) == t' && DocAfter(c, again, t', doc, k) == (doc, false)
  {
    NoPlaintextLeft(c, salts, t);
    var t' := TableAfter(c, salts, t, |t|);
    assert TableAfter(c, again, t', k) == t';
    if k == 0 {
    } else {
      SecondPassIsIdle(c, salts, again, t, doc, k - 1);
    }
  }
}
