/**
  Loading and reloading: what the rewrite makes of table and file together, and what the file decodes to
  when it is loaded again.
*/
module Reloading {
  import opened Wrappers
  import opened Json
  import opened Credentials
  import opened Hashing

  /** A write truncates the file first, so a failed one can leave anything in it. */
  datatype WriteFailure = WriteFailure(error: Error, left: Json)

  /** What the environment does to one load: the file's fate and PUBLIC_HOST. */
  datatype Outside = Outside(readError: Option<Error>, writeError: Option<WriteFailure>, publicHost: string)

  datatype Loaded = Loaded(table: seq<Entry>, file: Json, error: Option<Error>)

  /** The rewrite as a whole: entries before the first hasher failure are rewritten, and the file only if
      there was none. */
  function Rewrite(c: Crypto, salts: Salts, t: seq<Entry>, file: Json, outside: Outside): Loaded {
    if outside.readError.Some? then Loaded(t, file, outside.readError)
    else
      var k := Stop(c, salts, t);
      var (doc, save) := DocAfter(c, salts, t, file, k);
      var t' := TableAfter(c, salts, t, k);
      if k < |t| then Loaded(t', file, Some(c.hash(salts(k), t[k].pass).error))
      else if !save then Loaded(t', file, None)
      else match outside.writeError
        case None => Loaded(t', doc, None)
        case Some(failure) => Loaded(t', failure.left, Some(failure.error))
  }

  /** What a load makes of a decoded table and of the file, with and without the rewrite configured. */
  function Load(asked: bool, c: Crypto, salts: Salts, t: seq<Entry>, file: Json, outside: Outside): Loaded {
    if asked then Rewrite(c, salts, t, file, outside) else Loaded(t, file, None)
  }

  /** The rewrite got as far as writing the file, and the write failed. */
  predicate WriteFails(asked: bool, c: Crypto, salts: Salts, t: seq<Entry>, file: Json, outside: Outside) {
    && asked && outside.readError.None? && outside.writeError.Some?
    && Stop(c, salts, t) == |t| && DocAfter(c, salts, t, file, |t|).1
  }

  /** The installed table judges as the decoded one, whatever fails; without an error it holds no plaintext. */
  lemma LoadMeansTheSame(asked: bool, c: Crypto, salts: Salts, t: seq<Entry>, file: Json, outside: Outside)
    requires Ideal(c)
    ensures var r := Load(asked, c, salts, t, file, outside);
      AlikeTables(c, t, r.table) && AnswersAlike(c, t, r.table) && (asked && r.error.None? ==> NoPlaintext(r.table))
  {
    var r, k := Load(asked, c, salts, t, file, outside), Stop(c, salts, t);
    AlikeIsAnEquivalence(c, t, t, t);
    PartlyHashedTableIsAlike(c, salts, t, k);
    assert r.table == t || r.table == TableAfter(c, salts, t, k);
    AlikeTablesHaveAnswersAlike(c, t, r.table);
    if asked && r.error.None? {
      NoPlaintextLeft(c, salts, t);
    }
  }

  // ---------------------------------------------------------------- decoding

  /** What the members of an access other than its password decode to. */
  type Reader = map<Part, Json> -> Option<Entry>

  function DecodedAccess(reader: Reader, item: Json): Option<Entry> {
    if !item.Object? then None
    else match (reader(item.members - {Name("pass")}), PassOf(item))
      case (Some(e), Some(pass)) => Some(e.(pass := pass))
      case _ => None
  }

  function DecodedList(reader: Reader, items: seq<Json>): Option<seq<Entry>> {
    if forall i :: 0 <= i < |items| ==> DecodedAccess(reader, items[i]).Some?
    then Some(seq(|items|, i requires 0 <= i < |items| => DecodedAccess(reader, items[i]).value))
    else None
  }

  /** The accesses a document decodes to. */
  function Decoded(reader: Reader, doc: Json): Option<seq<Entry>> {
    match doc
    case Null => Some([])
    case Object(members) => (
      if Name("accesses") !in members then Some([])
      else match members[Name("accesses")]
        case Null => Some([])
        case Array(items) => DecodedList(reader, items)
        case _ => None)
    case _ => None
  }

  /** A document decodes to a table exactly if it lists its accesses as objects whose passwords and other
      members decode to the entries; to the empty one also if the list is missing or null. */
  lemma DecodedIff(reader: Reader, doc: Json, t: seq<Entry>)
    ensures Decoded(reader, doc) == Some(t) <==>
      if ListsAccesses(doc, |t|) then
        forall i :: 0 <= i < |t| ==> DecodesTo(reader, Accesses(doc, |t|)[i], t[i])
      else
        t == [] && (doc.Null?
          || (doc.Object? && (Name("accesses") !in doc.members || doc.members[Name("accesses")].Null?)))
  {
    if Decoded(reader, doc) == Some(t) && t != [] {
      DecodedIsHeld(reader, doc, t);
      forall i | 0 <= i < |t| ensures DecodesTo(reader, Accesses(doc, |t|)[i], t[i]) {
        assert DecodedAccess(reader, Accesses(doc, |t|)[i]) == Some(t[i]);
      }
    }
    if ListsAccesses(doc, |t|) && forall i :: 0 <= i < |t| ==> DecodesTo(reader, Accesses(doc, |t|)[i], t[i]) {
      var items := Accesses(doc, |t|);
      forall i | 0 <= i < |t| ensures DecodedAccess(reader, items[i]) == Some(t[i]) {
        assert DecodesTo(reader, items[i], t[i]);
      }
      assert DecodedList(reader, items).value == t;
    }
  }

  /** The access is what its other members decode to, with the password given, which is empty if missing. */
  predicate DecodesTo(reader: Reader, item: Json, e: Entry)
    requires item.Object?
  {
    && reader(item.members - {Name("pass")}).Some?
    && e == reader(item.members - {Name("pass")}).value.(pass := e.pass)
    && (if Name("pass") in item.members && item.members[Name("pass")] != Null
        then item.members[Name("pass")] == Str(e.pass) else e.pass == "")
  }

  lemma DecodedIsHeld(reader: Reader, doc: Json, t: seq<Entry>)
    requires Decoded(reader, doc) == Some(t) && t != []
    ensures HoldsPasswords(doc, t) && DecodedList(reader, Accesses(doc, |t|)) == Some(t)
  {
    var items := doc.members[Name("accesses")].items;
    forall i | 0 <= i < |t| ensures items[i].Object? && PassOf(items[i]) == Some(t[i].pass) {
      assert DecodedAccess(reader, items[i]) == Some(t[i]);
    }
  }

  lemma DecodedAccessAfter(c: Crypto, salts: Salts, reader: Reader, e: Entry, i: nat, item: Json)
    requires DecodedAccess(reader, item) == Some(e)
    ensures DecodedAccess(reader, ItemAfter(c, salts, e, i, item)) == Some(Hashed(c, salts, e, i))
  {
    var item' := ItemAfter(c, salts, e, i, item);
    assert item'.members - {Name("pass")} == item.members - {Name("pass")};
  }

  /** After every iteration the document decodes to the table in memory. */
  lemma DecodedAfter(c: Crypto, salts: Salts, reader: Reader, t: seq<Entry>, doc: Json, k: nat)
    requires Decoded(reader, doc) == Some(t) && k <= |t|
    ensures Decoded(reader, DocAfter(c, salts, t, doc, k).0) == Some(TableAfter(c, salts, t, k))
  {
    if t != [] {
      DecodedIsHeld(reader, doc, t);
      DocumentMirrorsTable(c, salts, t, doc, k);
      DecodedListAfter(c, salts, reader, t, Accesses(doc, |t|), k);
    }
  }

  lemma DecodedListAfter(c: Crypto, salts: Salts, reader: Reader, t: seq<Entry>, items: seq<Json>, k: nat)
    requires DecodedList(reader, items) == Some(t) && k <= |t| == |items|
    requires forall i :: 0 <= i < |items| ==> items[i].Object?
    ensures DecodedList(reader, ItemsAfter(c, salts, t, items, k)) == Some(TableAfter(c, salts, t, k))
  {
    var items', t' := ItemsAfter(c, salts, t, items, k), TableAfter(c, salts, t, k);
    forall i | 0 <= i < |t| ensures DecodedAccess(reader, items'[i]) == Some(t'[i]) {
      assert DecodedAccess(reader, items[i]) == Some(t[i]);
      DecodedAccessAfter(c, salts, reader, t[i], i, items[i]);
    }
    assert DecodedList(reader, items').value == t';
  }

  /** What the next load finds: after a load without an error the very table that was installed, otherwise one
      that judges alike, unless a write failed. */
  lemma FileDecodesAlike(asked: bool, c: Crypto, salts: Salts, reader: Reader, t: seq<Entry>, file: Json,
                         outside: Outside)
    requires Ideal(c) && Decoded(reader, file) == Some(t) && !WriteFails(asked, c, salts, t, file, outside)
    ensures var r := Load(asked, c, salts, t, file, outside);
      && Decoded(reader, r.file).Some?
      && AlikeTables(c, t, Decoded(reader, r.file).value)
      && (r.error.None? ==> Decoded(reader, r.file) == Some(r.table))
  {
    DecodedAfter(c, salts, reader, t, file, Stop(c, salts, t));
    AlikeIsAnEquivalence(c, t, t, t);
    PartlyHashedTableIsAlike(c, salts, t, Stop(c, salts, t));
    if outside.readError.None? && Stop(c, salts, t) == |t| && !DocAfter(c, salts, t, file, |t|).1 {
      NothingSavedNothingChanged(c, salts, reader, t, file);
    }
  }

  lemma NothingSavedNothingChanged(c: Crypto, salts: Salts, reader: Reader, t: seq<Entry>, file: Json)
    requires Decoded(reader, file) == Some(t) && Stop(c, salts, t) == |t| && !DocAfter(c, salts, t, file, |t|).1
    ensures TableAfter(c, salts, t, |t|) == t
  {
    if t != [] {
      DecodedIsHeld(reader, file, t);
      FileAndMemoryAgree(c, salts, t, file, |t|);
    }
  }

  /** Once a rewrite has succeeded, loading again changes neither table nor file, whatever the salts and
      whether or not the file could be written. */
  lemma NextLoadIsIdle(c: Crypto, salts: Salts, reader: Reader, t: seq<Entry>, file: Json, outside: Outside,
                       again: Salts, later: Outside)
    requires Ideal(c) && Decoded(reader, file) == Some(t)
    requires Load(true, c, salts, t, file, outside).error.None?
    ensures var r := Load(true, c, salts, t, file, outside);
      && Decoded(reader, r.file) == Some(r.table)
      && Load(true, c, again, r.table, r.file, later) == Loaded(r.table, r.file, later.readError)
  {
    FileDecodesAlike(true, c, salts, reader, t, file, outside);
    SecondPassIsIdle(c, salts, again, t, Load(true, c, salts, t, file, outside).file, |t|);
  }

  // ---------------------------------------------------------------- one load after the other

  datatype Turn = Turn(asked: bool, salts: Salts, outside: Outside)

  /** The n-th load of a file that nobody else edits; a file that does not decode is left alone. */
  function LoadedAt(c: Crypto, reader: Reader, file: Json, turns: seq<Turn>, n: nat): Option<Loaded>
    requires n < |turns|
    decreases n, 1
  {
    match Decoded(reader, FileAfter(c, reader, file, turns, n))
    case None => None
    case Some(t) =>
      Some(Load(turns[n].asked, c, turns[n].salts, t, FileAfter(c, reader, file, turns, n), turns[n].outside))
  }

  function FileAfter(c: Crypto, reader: Reader, file: Json, turns: seq<Turn>, n: nat): Json
    requires n <= |turns|
    decreases n, 0
  {
    if n == 0 then file
    else match LoadedAt(c, reader, file, turns, n - 1)
      case None => FileAfter(c, reader, file, turns, n - 1)
      case Some(loaded) => loaded.file
  }

  /** However often the configuration is loaded, with hashing errors and files that cannot be read in between,
      and as long as no write fails, the table installed judges as the one the file decoded to at first. */
  lemma {:induction false} ReloadsStayAlike(c: Crypto, reader: Reader, file: Json, t: seq<Entry>, turns: seq<Turn>,
                                            n: nat)
    requires Ideal(c) && Decoded(reader, file) == Some(t) && n < |turns|
    requires forall i :: 0 <= i < n ==> turns[i].outside.writeError.None?
    ensures LoadedAt(c, reader, file, turns, n).Some?
    ensures AlikeTables(c, t, LoadedAt(c, reader, file, turns, n).value.table)
  {
    var t' := FilesStayAlike(c, reader, file, t, turns, n);
    var loaded := LoadedAt(c, reader, file, turns, n).value;
    LoadMeansTheSame(turns[n].asked, c, turns[n].salts, t', FileAfter(c, reader, file, turns, n), turns[n].outside);
    AlikeIsAnEquivalence(c, t, t', loaded.table);
  }

  lemma {:induction false} FilesStayAlike(c: Crypto, reader: Reader, file: Json, t: seq<Entry>, turns: seq<Turn>,
                                          n: nat) returns (t': seq<Entry>)
    requires Ideal(c) && Decoded(reader, file) == Some(t) && n <= |turns|
    requires forall i :: 0 <= i < n ==> turns[i].outside.writeError.None?
    ensures Decoded(reader, FileAfter(c, reader, file, turns, n)) == Some(t') && AlikeTables(c, t, t')
  {
    if n == 0 {
      t' := t;
    } else {
      var before := FilesStayAlike(c, reader, file, t, turns, n - 1);
      var turn, last := turns[n - 1], FileAfter(c, reader, file, turns, n - 1);
      FileDecodesAlike(turn.asked, c, turn.salts, reader, before, last, turn.outside);
      assert LoadedAt(c, reader, file, turns, n - 1)
          == Some(Load(turn.asked, c, turn.salts, before, last, turn.outside));
      t' := Decoded(reader, FileAfter(c, reader, file, turns, n)).value;
      AlikeIsAnEquivalence(c, t, before, t');
    }
  }
}
