/**
  What other logins and rewrite steps can do in the middle of an operation that holds no lock on the accesses:
  between the two halves of a login, and between two iterations of a rewrite.
*/
module Interleavings {
  import opened Wrappers
  import opened Json
  import opened Credentials
  import opened Hashing
  import FsCache

  /** The login is answered by the keycloak entry i and overwrites it. */
  predicate Overwrites(c: Crypto, t: seq<Entry>, e: Event, i: nat) {
    e.LogIn? && Answers(c, t, e.user, e.pass) == Chosen(i) && t[i].fs == "keycloak"
  }

  predicate Rewrites(c: Crypto, t: seq<Entry>, e: Event, i: nat)
    requires i < |t|
  {
    e.HashAt? && e.index == i && Plain(t[i]) && c.hash(e.salt, t[i].pass).Success?
  }

  function LastOverwrite(c: Crypto, t: seq<Entry>, events: seq<Event>, i: nat): (last: Option<Event>)
    ensures last.Some? ==> last.value.LogIn?
  {
    if events == [] then None
    else
      var before, e := events[..|events| - 1], events[|events| - 1];
      if Overwrites(c, Run(c, t, before), e, i) then Some(e) else LastOverwrite(c, t, before, i)
  }

  // ---------------------------------------------------------------- the two halves of a login

  /** The user of an entry is the one its last overwriting login gave it. */
  lemma {:induction false} UserAfter(c: Crypto, t: seq<Entry>, events: seq<Event>, i: nat)
    requires i < |t|
    ensures var e, last := Run(c, t, events)[i], LastOverwrite(c, t, events, i);
      && e == t[i].(user := e.user, pass := e.pass)
      && e.user == (if last.Some? then last.value.user else t[i].user)
      && (t[i].fs != "keycloak" ==> last.None?)
  {
    if events == [] {
    } else {
      UserAfter(c, t, events[..|events| - 1], i);
    }
  }

  ghost predicate Undisturbed(c: Crypto, t: seq<Entry>, events: seq<Event>, i: nat) {
    LastOverwrite(c, t, events, i).None? && forall e :: e in events && e.HashAt? ==> e.index != i
  }

  lemma {:induction false} UndisturbedStays(c: Crypto, t: seq<Entry>, events: seq<Event>, i: nat)
    requires i < |t| && Undisturbed(c, t, events, i)
    ensures Run(c, t, events)[i] == t[i]
  {
    if events == [] {
    } else {
      var before := events[..|events| - 1];
      assert events[|events| - 1] in events && Undisturbed(c, t, before, i);
      UndisturbedStays(c, t, before, i);
    }
  }

  /** A login first chooses its access and later, without a lock on it, reads it again to load the file
      system. The user it then reads is its own exactly when no later login has overwritten the access, or the
      last one to do so was for the same user. What it loads is what it chose, unless the access is a keycloak
      one that another login or the rewrite has touched in between. */
  lemma {:induction false} LoadedAccessIsTheChosenOne(c: Crypto, t: seq<Entry>, user: string, pass: string,
                                                      between: seq<Event>)
    requires Answers(c, t, user, pass).Chosen?
    ensures var i, t' := Answers(c, t, user, pass).index, AfterLogIn(c, t, user, pass);
      var chosen, read, last := t'[i], Run(c, t', between)[i], LastOverwrite(c, t', between, i);
      && (read.user == user <==> last.None? || last.value.user == user)
      && (chosen.fs != "keycloak" || Undisturbed(c, t', between, i) ==> FsCache.SameRequest(chosen, read))
  {
    var i, t' := Answers(c, t, user, pass).index, AfterLogIn(c, t, user, pass);
    ChosenEntryIsTheUsers(c, t, user, pass);
    UserAfter(c, t', between, i);
    if Undisturbed(c, t', between, i) {
      UndisturbedStays(c, t', between, i);
    }
  }

  // ---------------------------------------------------------------- logins between the iterations of a rewrite

  /** The document while rewrite steps and logins go on: a login changes memory only. */
  function DocRun(c: Crypto, t: seq<Entry>, doc: Json, events: seq<Event>): Json {
    if events == [] then doc
    else
      var before, e := events[..|events| - 1], events[|events| - 1];
      var doc' := DocRun(c, t, doc, before);
      match e
      case HashAt(i, salt) => if i < |t| then DocStep(c, _ => salt, Run(c, t, before)[i], i, (doc', false)).0 else doc'
      case LogIn(_, _) => doc'
  }

  /** What the last rewrite of entry i stored, or the password it had to begin with. */
  function Saved(c: Crypto, t: seq<Entry>, events: seq<Event>, i: nat): string
    requires i < |t|
  {
    if events == [] then t[i].pass
    else
      var before, e := events[..|events| - 1], events[|events| - 1];
      var t' := Run(c, t, before);
      if Rewrites(c, t', e, i) then c.hash(e.salt, t'[i].pass).value else Saved(c, t, before, i)
  }

  /** Since the last rewrite of entry i, a login has overwritten it. */
  predicate Overwritten(c: Crypto, t: seq<Entry>, events: seq<Event>, i: nat)
    requires i < |t|
  {
    if events == [] then false
    else
      var before, e := events[..|events| - 1], events[|events| - 1];
      var t' := Run(c, t, before);
      Overwrites(c, t', e, i) || (!Rewrites(c, t', e, i) && Overwritten(c, t, before, i))
  }

  lemma {:induction false} MemoryAfter(c: Crypto, t: seq<Entry>, events: seq<Event>, i: nat)
    requires i < |t|
    ensures var pass, last := Run(c, t, events)[i].pass, LastOverwrite(c, t, events, i);
      if Overwritten(c, t, events, i) then last.Some? && pass == last.value.pass else pass == Saved(c, t, events, i)
  {
    if events == [] {
    } else {
      MemoryAfter(c, t, events[..|events| - 1], i);
    }
  }

  lemma {:induction false} FileAfter(c: Crypto, t: seq<Entry>, doc: Json, events: seq<Event>, i: nat)
    requires HoldsPasswords(doc, t) && i < |t|
    ensures ListsAccesses(DocRun(c, t, doc, events), |t|)
    ensures PassOf(Accesses(DocRun(c, t, doc, events), |t|)[i]) == Some(Saved(c, t, events, i))
  {
    if events == [] {
    } else {
      var before, e := events[..|events| - 1], events[|events| - 1];
      FileAfter(c, t, doc, before, i);
      if e.HashAt? && e.index < |t| {
        var entry := Run(c, t, before)[e.index];
        if Rewrites(c, Run(c, t, before), e, e.index) {
          SetPassInList(DocRun(c, t, doc, before), |t|, e.index, Str(c.hash(e.salt, entry.pass).value));
        }
      }
    }
  }

  /** If file and memory agree to begin with, then however logins come between the rewrite steps, the file
      holds what was last rewritten, and they agree on an entry exactly when no login has overwritten it since,
      or the last one to do so came with the very password that was stored. */
  lemma FileAndMemoryAgreeIff(c: Crypto, t: seq<Entry>, doc: Json, events: seq<Event>, i: nat)
    requires HoldsPasswords(doc, t) && i < |t|
    ensures ListsAccesses(DocRun(c, t, doc, events), |t|)
    ensures PassOf(Accesses(DocRun(c, t, doc, events), |t|)[i]) == Some(Saved(c, t, events, i))
    ensures Overwritten(c, t, events, i) ==> t[i].fs == "keycloak" && LastOverwrite(c, t, events, i).Some?
    ensures PassOf(Accesses(DocRun(c, t, doc, events), |t|)[i]) == Some(Run(c, t, events)[i].pass)
       <==> !Overwritten(c, t, events, i) || LastOverwrite(c, t, events, i).value.pass == Saved(c, t, events, i)
  {
    FileAfter(c, t, doc, events, i);
    MemoryAfter(c, t, events, i);
    UserAfter(c, t, events, i);
  }
}
