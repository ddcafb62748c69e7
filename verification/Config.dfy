/** The configuration object: accesses are heap objects, rewritten by hashing and by keycloak logins. */
module Config {
  import opened Wrappers
  import opened Json
  import opened Credentials
  import opened Hashing
  import opened Reloading

  class Access {
    var user: string
    var pass: string
    const fs: string
    const shared: bool
    const source: string

    constructor (e: Entry)
      ensures View() == e
    {
      user, pass, fs, shared, source := e.user, e.pass, e.fs, e.shared, e.source;
    }

    function View(): Entry
      reads this
    {
      Entry(user, pass, fs, shared, source)
    }
  }

  class Content {
    var listenAddress: string
    var publicHost: string
    const hashPlaintextPasswords: bool
    const accesses: seq<Access>

    constructor (listenAddress: string, publicHost: string, hashPlaintextPasswords: bool, accesses: seq<Access>)
      ensures this.listenAddress == listenAddress && this.publicHost == publicHost
      ensures this.hashPlaintextPasswords == hashPlaintextPasswords && this.accesses == accesses
    {
      this.listenAddress, this.publicHost := listenAddress, publicHost;
      this.hashPlaintextPasswords, this.accesses := hashPlaintextPasswords, accesses;
    }

    /** Decoding allocates each access anew. */
    ghost predicate Distinct() {
      AllDistinct(accesses)
    }

    function Addresses(): (string, string)
      reads this
    {
      (listenAddress, publicHost)
    }

    function Table(): (t: seq<Entry>)
      reads accesses
      ensures |t| == |accesses| && forall i :: 0 <= i < |t| ==> t[i] == accesses[i].View()
    {
      Views(accesses)
    }
  }

  function Views(accesses: seq<Access>): (t: seq<Entry>)
    reads accesses
    ensures |t| == |accesses| && forall i :: 0 <= i < |t| ==> t[i] == accesses[i].View()
  {
    seq(|accesses|, i requires 0 <= i < |accesses| reads accesses => accesses[i].View())
  }

  const DEFAULT_LISTEN_ADDRESS := "0.0.0.0:2121"

  ghost predicate AllDistinct(accesses: seq<Access>) {
    forall i, j :: 0 <= i < j < |accesses| ==> accesses[i] != accesses[j]
  }

  /** One iteration: hashes the password of a plaintext access, in memory and in the document. */
  method HashAccess(c: Crypto, salts: Salts, accesses: seq<Access>, i: nat, json: Json, save: bool)
    returns (error: Option<Error>, json': Json, save': bool)
    requires AllDistinct(accesses) && i < |accesses|
    modifies accesses[i]
    ensures Views(accesses) == old(Views(accesses))[i := Hashed(c, salts, old(accesses[i].View()), i)]
    ensures error == if FailsAt(c, salts, old(accesses[i].View()), i)
                     then Some(c.hash(salts(i), old(accesses[i].pass)).error) else None
    ensures (json', save') == DocStep(c, salts, old(accesses[i].View()), i, (json, save))
    ensures accesses[i].user == old(accesses[i].user)
    ensures var pass := old(accesses[i].pass);
      if (accesses[i].user == "anonymous" && pass == "*") || LooksHashed(pass) then
        error.None? && accesses[i].pass == pass && json' == json && save' == save
      else
        match c.hash(salts(i), pass)
        case Failure(e) => error == Some(e) && accesses[i].pass == pass && json' == json && save' == save
        case Success(digest) =>
          && error.None? && accesses[i].pass == digest
          && match Set(json, [Name("accesses"), Num(i), Name("pass")], Str(digest))
             case Success(modified) => json' == modified && save'
             case Failure(_) => json' == json && save' == save
  {
    error, json', save' := None, json, save;
    var a := accesses[i];
    SchemeIffLooksHashed(a.pass);
    if Plain(a.View()) {
      match c.hash(salts(i), a.pass) {
        case Failure(e) => error := Some(e);
        case Success(encoded) =>
          var modified := Set(json, PassPath(i), Str(encoded));
          a.pass := encoded;
          if modified.Success? {
            save' := true;
            json' := modified.value;
          }
      }
    }
    assert a.View() == Hashed(c, salts, old(accesses[i].View()), i);
  }

  /** The loop over the accesses; it stops at the first one the hasher fails on. */
  method HashAccesses(c: Crypto, salts: Salts, accesses: seq<Access>, doc: Json)
    returns (error: Option<Error>, json: Json, save: bool)
    requires AllDistinct(accesses)
    modifies accesses
    ensures var t := old(Views(accesses));
      var k := Stop(c, salts, t);
      && Views(accesses) == TableAfter(c, salts, t, k)
      && error == (if k < |t| then Some(c.hash(salts(k), t[k].pass).error) else None)
      && (json, save) == DocAfter(c, salts, t, doc, k)
  {
    error, json, save := None, doc, false;
    ghost var t := Views(accesses);
    NothingDone(c, salts, t, doc);
    var i := 0;
    while i < |accesses| && error.None?
      invariant i <= |t| && Views(accesses) == TableAfter(c, salts, t, i)
      invariant (json, save) == DocAfter(c, salts, t, doc, i)
      invariant error.None? ==> i <= Stop(c, salts, t)
      invariant error.Some? ==>
        i == Stop(c, salts, t) && i < |t| && error == Some(c.hash(salts(i), t[i].pass).error)
      decreases |accesses| - i, error.None?
    {
      OneMoreDone(c, salts, t, doc, i);
      assert accesses[i].View() == t[i];
      error, json, save := HashAccess(c, salts, accesses, i, json, save);
      if error.None? {
        i := i + 1;
      }
    }
  }

  /** The addresses the server is to use: a default to listen on, and PUBLIC_HOST over the configured host. */
  function Prepared(configured: (string, string), outside: Outside): (string, string) {
    (if configured.0 == "" then DEFAULT_LISTEN_ADDRESS else configured.0,
     if outside.publicHost != "" then outside.publicHost else configured.1)
  }

  class Config {
    var content: Content
    var file: Json  // what the configuration file currently holds

    constructor (content: Content, file: Json)
      ensures this.content == content && this.file == file
    {
      this.content, this.file := content, file;
    }

    /** What can be seen of the configuration once a call has returned. */
    function State(error: Option<Error>): Loaded
      reads this, content.accesses
    {
      Loaded(content.Table(), file, error)
    }

    /** Rewrites the plaintext passwords in memory, one entry after the other, and the file at the end. A read
        error leaves everything as it was, and a hasher error the file. */
    method HashPlaintextPasswords(c: Crypto, salts: Salts, outside: Outside) returns (error: Option<Error>)
      requires content.Distinct()
      modifies this`file, content.accesses
      ensures State(error) == Rewrite(c, salts, old(content.Table()), old(file), outside)
      ensures outside.readError.Some? ==>
        content.Table() == old(content.Table()) && file == old(file) && error == outside.readError
      ensures outside.readError.None? ==>
        var t := old(content.Table());
        var k := Stop(c, salts, t);
        var (doc, save) := DocAfter(c, salts, t, old(file), k);
        && content.Table() == TableAfter(c, salts, t, k)
        && (k < |t| ==> file == old(file) && error == Some(c.hash(salts(k), t[k].pass).error))
        && (k == |t| && !save ==> file == old(file) && error.None?)
        && (k == |t| && save && outside.writeError.None? ==> file == doc && error.None?)
        && (k == |t| && save && outside.writeError.Some? ==>
              file == outside.writeError.value.left && error == Some(outside.writeError.value.error))
    {
      if outside.readError.Some? {
        return outside.readError;
      }
      var json, save;
      error, json, save := HashAccesses(c, salts, content.accesses, file);
      if error.None? && save {
        match outside.writeError {
          case None => file := json;
          case Some(failure) =>
            file := failure.left;
            error := Some(failure.error);
        }
      }
    }

    /** Fills in the listen address and lets PUBLIC_HOST override the public host. */
    method Prepare(outside: Outside)
      modifies content
      ensures content.Addresses() == Prepared(old(content.Addresses()), outside)
      ensures content.listenAddress
           == if old(content.listenAddress) == "" then "0.0.0.0:2121" else old(content.listenAddress)
      ensures content.publicHost == if outside.publicHost != "" then outside.publicHost else old(content.publicHost)
    {
      if content.listenAddress == "" {
        content.listenAddress := DEFAULT_LISTEN_ADDRESS;
      }
      if outside.publicHost != "" {
        content.publicHost := outside.publicHost;
      }
    }

    method RewriteIfAsked(c: Crypto, salts: Salts, outside: Outside) returns (error: Option<Error>)
      requires content.Distinct()
      modifies this`file, content.accesses
      ensures State(error)
           == Reloading.Load(content.hashPlaintextPasswords, c, salts, old(content.Table()), old(file), outside)
      ensures !content.hashPlaintextPasswords ==>
        error.None? && file == old(file) && content.Table() == old(content.Table())
      ensures content.hashPlaintextPasswords && outside.readError.Some? ==>
        error == outside.readError && file == old(file) && content.Table() == old(content.Table())
      ensures content.hashPlaintextPasswords && outside.readError.None? ==>
        content.Table() == TableAfter(c, salts, old(content.Table()), Stop(c, salts, old(content.Table())))
      ensures Ideal(c) ==> AnswersAlike(c, old(content.Table()), content.Table())
      ensures Ideal(c) && content.hashPlaintextPasswords && error.None? ==> NoPlaintext(content.Table())
    {
      error := None;
      ghost var t, before := content.Table(), file;
      if content.hashPlaintextPasswords {
        error := HashPlaintextPasswords(c, salts, outside);
      }
      if Ideal(c) {
        LoadMeansTheSame(content.hashPlaintextPasswords, c, salts, t, before, outside);
      }
    }

    /** `decoded` is what opening and decoding the file yields: a newly allocated content or an error.
        A failure before the assignment leaves the configuration alone; one after it leaves the new
        content installed, unprepared, and answering logins as it was decoded. */
    method Load(c: Crypto, salts: Salts, decoded: Result<Content, Error>, outside: Outside)
      returns (error: Option<Error>)
      requires decoded.Success? ==> decoded.value.Distinct()
      modifies this
      modifies if decoded.Success? then {decoded.value} else {}
      modifies if decoded.Success? then decoded.value.accesses else []
      ensures decoded.Failure? ==> error == Some(decoded.error) && content == old(content) && file == old(file)
      ensures decoded.Success? ==>
        && content == decoded.value
        && State(error)
           == Reloading.Load(content.hashPlaintextPasswords, c, salts, old(decoded.value.Table()), old(file), outside)
        && content.Addresses() == if error.None? then Prepared(old(decoded.value.Addresses()), outside)
                                  else old(decoded.value.Addresses())
      ensures decoded.Success? && !content.hashPlaintextPasswords ==>
        error.None? && file == old(file) && content.Table() == old(decoded.value.Table())
      ensures decoded.Success? && content.hashPlaintextPasswords && outside.readError.Some? ==>
        error == outside.readError && file == old(file) && content.Table() == old(decoded.value.Table())
      ensures decoded.Success? && error.None? ==>
        && content.listenAddress
           == (if old(decoded.value.listenAddress) == "" then "0.0.0.0:2121" else old(decoded.value.listenAddress))
        && content.publicHost
           == (if outside.publicHost != "" then outside.publicHost else old(decoded.value.publicHost))
      ensures decoded.Success? && Ideal(c) ==>
        && AnswersAlike(c, old(decoded.value.Table()), content.Table())
        && (content.hashPlaintextPasswords && error.None? ==> NoPlaintext(content.Table()))
    {
      if decoded.Failure? {
        return Some(decoded.error);
      }
      content := decoded.value;
      error := RewriteIfAsked(c, salts, outside);
      if error.None? {
        Prepare(outside);
      }
    }

    /** Returns the very object at the chosen index; a keycloak entry is first given the login's credentials. */
    method GetAccess(c: Crypto, user: string, pass: string) returns (r: Result<Access, Error>)
      requires content.Distinct()
      modifies content.accesses
      ensures match Answers(c, old(content.Table()), user, pass)
        case Chosen(i) => i < |content.accesses| && r == Success(content.accesses[i])
        case Rejected(e) => r == Failure(e)
      ensures r.Success? ==> r.value.user == user
      ensures content.Table() == Step(c, old(content.Table()), LogIn(user, pass))
      ensures forall i :: 0 <= i < |content.accesses| ==>
        var a := content.accesses[i];
        if r == Success(a) && a.fs == "keycloak" then a.user == user && a.pass == pass
        else a.user == old(content.accesses[i].user) && a.pass == old(content.accesses[i].pass)
    {
      ghost var t := content.Table();
      if c.decoderError.Some? {
        return Failure(c.decoderError.value);
      }
      for i := 0 to |content.accesses|
        invariant content == old(content) && content.Table() == t
        invariant Answers(c, t, user, pass) == AnswerFrom(c, t, i, user, pass)
      {
        var a := content.accesses[i];
        assert a.View() == t[i];
        if a.fs == "keycloak" {
          assert Answers(c, t, user, pass) == Chosen(i);
          a.user := user;
          a.pass := pass;
          assert content.Table() == t[i := a.View()];
          return Success(a);
        }
        if a.user == user {
          if SchemeOf(a.pass).Some? {
            var digest := c.decode(a.pass);
            if digest.Failure? {
              return Failure(digest.error);
            }
            var ok := c.matches(digest.value, pass);
            if ok.Failure? {
              return Failure(ok.error);
            }
            if ok.value {
              return Success(a);
            }
          } else if a.pass == pass || (a.user == "anonymous" && a.pass == "*") {
            return Success(a);
          }
        }
      }
      return Failure(UnknownUser);
    }
  }
}
