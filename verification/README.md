# A verified model of ftpserver's stateful cores

ftpserver is a gateway from FTP clients to pluggable file systems. Most of it is glue; the parts
that keep state and interact are modelled here in Dafny 4.11, with proofs of what they promise.

| file | models |
|---|---|
| `Json.dfy`, `Credentials.dfy`, `Hashing.dfy`, `Reloading.dfy`, `Config.dfy` | the credential table: how a login is answered, the rewrite of plaintext passwords in memory and in the file, loading and reloading |
| `Interleavings.dfy`, `SplitLogins.dfy` | what other logins can do between the two halves of a login, and between two iterations of a rewrite |
| `Shutdown.dfy`, `Server.dfy` | client counting and graceful shutdown, as a transition system and as the server object that implements its steps |
| `FsCache.dfy`, `Auth.dfy` | the cache of shared file systems, and authentication end to end |
| `EnvVars.dfy`, `EnvLaws.dfy` | environment substitution, its matches, and its algebra |
| `Paths.dfy`, `FakeFs.dfy`, `Buffer.dfy`, `Telegram.dfy`, `TelegramRuns.dfy`, `Mail.dfy` | upload buffers, the Telegram fake file system with its shared entries, whole runs over many handles |
| `StripPrefix.dfy`, `FsLog.dfy` | the two wrappers, over arbitrary sources |
| `Wrappers.dfy`, `Seqs.dfy` | Option and Result; two facts about sequences |

`dafny verify dfyconfig.toml` checks everything.

## How the pieces are modelled

- Objects that the source updates in place are classes; each method's contract gives the whole new
  state as a function of the old one, and the lemmas are about those functions. Runs are sequences
  of events, and the state after the first n of them is a function of n.
- The password library is a record of functions (`Crypto`). `Ideal` is the one assumption about it:
  a digest carries the `$2b$` prefix, decodes, and matches its own plaintext and nothing else.
  Hashing, decoding and matching may fail. `SwapIsInvisibleIffFaithful` shows that nothing less than
  a faithful digest will do (of the prefix, any of the eight would), `AnIdealHasherExists` that it can be met.
- The configuration file is a tree, with the path update of sjson written out, including the values
  it creates on the way and the cases in which it fails. What it decodes to is written out as far as the
  list of accesses and their passwords go; the other members of an access go through a parameter. A failed
  write can leave anything in the file.
- Every step of the server under its mutex is atomic. The reset of the event channel at the end of
  `WaitGracefully`, which the source does without the mutex, is taken as one atomic step too. So is a
  login in most lemmas, although the choice of the access and the loading of its file system share no lock.
  `SplitLoginsAreWhole` says for which runs that makes no difference, `LoadedAccessIsTheChosenOne` exactly when
  the access that is loaded is still the caller's.
- The environment, the loader, senders, source files and source file systems are parameters: arbitrary
  functions of what reached them.

Properties one might expect and that do not hold are settled by an exact condition:

- A shutdown can send on a closed channel. `PanicsIffFiresTwice` says in which runs,
  `LateClientPanics` gives one, `LastClientLeaves` says when it happens once the listener has stopped.
- File and memory can disagree after hashing, because a failed path update is dropped silently.
  `DocumentAgreesIffSettable` says for which entries. On a document that lists its accesses under their exact
  name it cannot happen (`ListedIsSettable`); it takes a member that only the decoder recognises
  (`RewriteCanMissTheFile` has one), or a file that changes between being decoded and being read again.
- They can also disagree because a keycloak login overwrites the access in memory between two iterations.
  `FileAndMemoryAgreeIff` says when.
- The cache can answer differently from loading directly, and let in a login that direct loading would refuse.
  `CacheIsInvisibleIffNoShadowing` and `CacheLetsInTheSameIff` say for which tables, over whole runs. One shared
  keycloak access is enough for both (`SharedKeycloakShadowsItself`).
- Substitution is not idempotent and does not distribute over concatenation. `IdempotentIffNoMatchMade` and
  `DistributesIffJoinable` say when it is and does, `DoubleDollarIsNotIdempotent` and `CutReferenceDiffers`
  where it is and does not.
- The logging wrapper's counters can miss bytes. `CountersAreExactIff` says when they do not,
  `LastBytesWithEndAreNotCounted` is a read that they miss.
- A file opened through the prefix wrapper has its name shortened a second time, and asking for it can
  panic. `NameIsShortenedTwice` says when, `AskingTheNameCanPanic` gives one.

Where comments and code differ, the model follows the code: the comment above `realPath`
(`fs/stripprefix/stripslash.go:38-39`) speaks of a base path that is prepended, the code drops a prefix;
the path errors it leads to carry an empty path, and those of `Chown` and `MkdirAll` another operation's name.

## Model

| member | source | states |
|---|---|---|
| Credentials.SchemesAreExclusive | config/config.go:211-331 | at most one of the eight hash prefixes fits a password, so the order of the switch is irrelevant and its branches are one |
| Credentials.AnswersFollowTheRule | config/config.go:197-343 | the loop answers what the first entry that stops the search decides, and no other answer satisfies that rule |
| Credentials.FieldsDecide | config/config.go:197-343 | the answer by the fields of the entries alone: what lets the search go on, what takes the login (keycloak, a matching digest, an equal password, the open anonymous entry), and which decode or match error ends it |
| Credentials.PlainEntriesAnswer | config/config.go:333-336 | without keycloak and hashed entries the first entry of the user with that password, or the open anonymous one, takes the login, and without one the user is unknown |
| Credentials.SwapIsInvisibleIffFaithful | config/config.go:145-151 | replacing a plaintext password by a digest leaves every verdict of the entry alone exactly when the digest decodes and matches that password only |
| Credentials.StepKeepsVerdicts | config/config.go:107-157 | one iteration of the rewrite, and one login, keep every entry's verdict on every login |
| Credentials.RunKeepsAnswers | config/config.go:107-343 | however iterations and logins interleave, every login is answered as on the original table, errors included |
| Credentials.OvertakenLogInKeepsAnswer | config/config.go:203-342 | so is a login that meets each entry at a different moment of the rewrite |
| Credentials.LogInsKeepAnswers | config/config.go:204-208 | the entry chosen never depends on earlier logins, although keycloak entries are overwritten |
| Credentials.ChosenEntryIsTheUsers | config/config.go:204-210 | a successful answer belongs to the requested user when the login returns |
| Credentials.AnIdealHasherExists | config/config.go:140-148 | the assumption on the hasher can be met by a salted, partial one |
| Json.GetSet | config/config.go:150 | what a path update writes is what that path reads back |
| Json.GetSetElsewhere | config/config.go:150 | a path that parts from the written one keeps its value |
| Json.NothingElseAppears | config/config.go:150 | beside what was written nothing but the null padding of a list appears |
| Json.SetPassSucceeds | config/config.go:150-152 | a password path can be written exactly when no scalar, null or list stands in its way |
| Json.SettableAfterSet | config/config.go:150-155 | writing one entry does not change which later ones can be written |
| Hashing.IterationsRun | config/config.go:108-157 | k iterations of the loop are k rewrite steps on the table |
| Hashing.EntryAfterRewrite | config/config.go:109-151 | the open anonymous entry and hashed passwords are left alone, every other password reached is replaced by its digest |
| Hashing.StopsAtFirstFailure | config/config.go:138-148 | the loop stops at the first entry to be rewritten on which the hasher fails |
| Hashing.PartlyHashedTableIsAlike | config/config.go:108-157 | after any number of iterations, also when the hasher fails halfway, every entry gives the verdicts it gave before |
| Hashing.PartlyHashedTableAnswersAlike | config/config.go:108-157 | so every login is answered as before |
| Hashing.NoPlaintextLeft | config/config.go:108-165 | a complete rewrite leaves no plaintext password apart from the open anonymous entry |
| Hashing.RewriteMeansTheSame | config/config.go:100-166 | both of these for wherever the loop stops |
| Hashing.DocumentMirrorsTable | config/config.go:150-155 | in a document that lists the accesses, exactly the plaintext entries' passwords are replaced, by those in memory, and nothing else changes |
| Hashing.FileAndMemoryAgree | config/config.go:107-165 | agreement of file and memory on all passwords is kept by every iteration; there is something to save exactly when an entry was plaintext |
| Hashing.SaveIffSettable | config/config.go:107-158 | on any document, there is something to save exactly when some plaintext entry's path could be written |
| Hashing.DocumentAgreesIffSettable | config/config.go:150-155 | on any document, file and memory agree on a rewritten entry exactly when its path could be written to begin with |
| Hashing.ListedIsSettable | config/config.go:150 | in a document that lists its accesses every password path can be written, so there file and memory agree on all of them |
| Hashing.RewriteCanMissTheFile | config/config.go:150-155 | a document with a differently-cased member, on which the rewrite reaches memory but not the file |
| Hashing.SecondPassIsIdle | config/config.go:107-165 | a second pass changes neither table nor document and saves nothing |
| Reloading.DecodedIff | config/config.go:80-87 | which documents decode to which table, a missing or null password reading as the empty one |
| Reloading.LoadMeansTheSame | config/config.go:66-166 | whatever fails during a load, every entry of the installed table gives the verdicts of the decoded one; without an error it holds no plaintext |
| Reloading.DecodedAfter | config/config.go:107-157 | after every iteration the document decodes to the table in memory |
| Reloading.FileDecodesAlike | config/config.go:66-166 | what the next load finds in the file: after a load without error exactly the installed table, and one with the same verdicts after any error but that of the write |
| Reloading.NextLoadIsIdle | config/config.go:66-166 | after a successful rewrite, loading again changes neither table nor file, with any salts, also if the file cannot be written |
| Reloading.ReloadsStayAlike | server/server.go:102-104 | in any sequence of loads, with hasher and read errors in between, every installed table gives the verdicts of the table first decoded |
| Interleavings.LoadedAccessIsTheChosenOne | server/server.go:247-268 | the user that loadFs reads is the caller's exactly when no later login has overwritten the access, or the last one that did was for the same user; any access but a disturbed keycloak one is loaded as it was chosen |
| Interleavings.FileAndMemoryAgreeIff | config/config.go:107-157 | with logins between the iterations the file holds what was last rewritten, and memory agrees on an entry exactly when no login has overwritten it since, or the last one came with that very password |
| Config.HashAccess | config/config.go:109-156 | one iteration on the heap: the access's password, the document and the save flag, and no other access |
| Config.HashAccesses | config/config.go:107-157 | the loop stops at the first hasher failure with exactly the earlier accesses rewritten |
| Config.Config.HashPlaintextPasswords | config/config.go:100-166 | table, file and error in every case: unreadable file, hasher failure at k, nothing to save, saved, and a failed write that leaves anything behind |
| Config.Config.RewriteIfAsked | config/config.go:91-95 | without the setting neither table nor file changes, whatever could be read or written; with it the table, file and error of the rewrite; logins are answered as before, and without an error no plaintext password is left |
| Config.Config.Load | config/config.go:66-98 | a failure to open or decode leaves everything in place; otherwise the new content is installed, untouched unless the rewrite is configured, else with exactly the table, the file and the error of the rewrite; it answers logins as decoded even if that failed, and on success has its addresses filled in and no plaintext password |
| Config.Config.Prepare | config/config.go:169-180 | the default listen address and the PUBLIC_HOST override |
| Config.Config.GetAccess | config/config.go:197-343 | returns the object of the chosen entry or the error of the rule; a keycloak entry it returns gets the credentials of the login, and nothing else changes |
| Shutdown.PairedSoFar | server/server.go:107-139 | with disconnects paired to connects the uint32 counter is the number of live clients |
| Shutdown.ConsistentNext | server/server.go:126-168 | what one step keeps: the installed channel is that of the last Stop, closed exactly when zero has been seen since, and no send blocks |
| Shutdown.PanicsIffFiresTwice | server/server.go:126-168 | a run sends on a closed channel exactly when zero is seen twice with no Stop and no returning wait in between; no run blocks on the send |
| Shutdown.SecondFiringPanics | server/server.go:163-168 | the second zero is where the run ends |
| Shutdown.LateClientPanics | server/server.go:142-168 | the run stop, connect, disconnect of an idle server panics |
| Shutdown.PanicNeedsALateClient | server/server.go:107-168 | between the two zeros a client must have connected |
| Shutdown.NoLateClientNoPanic | server/server.go:107-168 | without clients connecting after a Stop the server never panics |
| Shutdown.ReadyIffEmptied | server/server.go:142-168 | the channel of a Stop is closed, and equivalently ready, exactly when the server was without live clients in some state from that Stop on, while it was installed |
| Shutdown.WhatCanHappenNext | server/server.go:107-161 | while the server runs clients may come and go and it may be stopped; exactly the waits that have not returned can time out, with or without a channel |
| Shutdown.NilIsPossibleIffEmptied | server/server.go:150-168 | a wait blocked on the channel of a Stop can return nil exactly in that case, and can always time out |
| Shutdown.WaitOnStopCanReturnNilIff | server/server.go:142-168 | so a wait that began while that channel was installed can return nil exactly from the moment on when nobody is left |
| Shutdown.IdleServerStopsAtOnce | server/server.go:142-168 | the run stop, wait, nil of an idle server |
| Shutdown.NilMeansEmptied | server/server.go:150-161 | a wait that returns nil selected on the channel of a Stop, and since that Stop the server was without live clients |
| Shutdown.DrainsToReady | server/server.go:126-168 | with nobody arriving after Stop, each disconnect brings the channel closer; it is ready, and a wait on it can return nil, exactly when none of the live clients is left |
| Shutdown.LastClientLeaves | main.go:108-124 | once the listener has stopped, the last departure panics exactly when the channel had fired and clients were live again; otherwise every wait on it can return nil |
| Shutdown.WaitWithoutStopTimesOut | server/server.go:150-161 | a wait that begins before any Stop can only time out, whatever Stops follow |
| Server.Server.ConsiderEnd | server/server.go:163-168 | send and close on the object's fields are the protocol's step |
| Server.Server.ClientConnected | server/server.go:107-123 | refines the protocol's connect, wrapping at 2^32 |
| Server.Server.ClientDisconnected | server/server.go:126-139 | refines the protocol's disconnect, wrapping below zero |
| Server.Server.Stop | server/server.go:142-147 | refines the protocol's stop, installing a new channel |
| Server.Server.BeginWait | server/server.go:150-155 | the select captures the channel installed when it starts |
| Server.Server.EndWait | server/server.go:153-161 | receive or timeout, then the reset, also of a channel installed later |
| FsCache.SharedFs.LoadFs | server/server.go:170-191 | the cached instance, or a loader call with the backend, settings and user of the access, and what the cache keeps |
| FsCache.CacheOnlyGrows | server/server.go:170-191 | no request ever replaces or drops a cached instance |
| FsCache.SharedInstanceIsForever | server/server.go:175-188 | after a shared success every later request for that user gets the same instance without a loader call, whatever was reloaded |
| FsCache.OnlySharedSuccessIsKept | server/server.go:181-188 | errors and non-shared loads leave the cache alone; the loader is called exactly when the user is not cached |
| FsCache.LoadsOncePerUser | fs/README.md:28-29 | a shared file system is loaded at most once per user |
| FsCache.InstanceStemsFromAnAccess | server/server.go:170-191 | every instance handed out was loaded from the backend and settings of the access requested, or of an earlier shared one of the same user |
| FsCache.NoInstanceIsMixedUp | server/server.go:170-191 | cached instances of different users are different and were loaded with that user's settings |
| FsCache.RefinesDirectIffNoShadowing | server/server.go:170-191 | over a set of accesses requested, every run answers as direct loading, up to identity, exactly when no loadable shared access stands beside a different access of its user |
| Auth.AuthUser | server/server.go:247-268 | the two objects together do what the table and the cache say |
| Auth.AlikeTablesLoadAlike | server/server.go:247-268 | a login on two tables with the same verdicts gets the same instance and leaves alike tables and equal caches |
| Auth.RewritesAreInvisible | server/server.go:102-104 | in every run of logins, rewrite iterations and reloads of tables that may be rewritten themselves, all outcomes and the cache are those of the run without any rewrite |
| Auth.ReloadingOwnFileIsInvisible | server/server.go:102-104 | in particular when every reload reads the file that earlier loads have rewritten: the server serves as one that keeps the passwords in plain |
| Auth.CacheIsInvisibleIffNoShadowing | server/server.go:247-268 | in every run of logins, rewrites and reloads of given tables each login gets what direct loading would give, up to identity, exactly when no loadable shared access that a login can reach stands beside a different reachable access of its user; keycloak accesses are reached with every user and password |
| Auth.CacheLetsInTheSameIff | server/server.go:247-268 | the cache lets in exactly the logins that direct loading would, in every run, exactly when each reachable access loads whose user has a reachable shared access that loads |
| Auth.CacheIsInvisibleToLogInsIffNoShadowing | server/server.go:247-268 | the same condition decides for the runs of logins only on a single table |
| Auth.SharedKeycloakShadowsItself | config/config.go:204-208 | a table of one shared keycloak access on which a login with a refused password gets the instance of an earlier one |
| SplitLogins.SplitLoginsAreWhole | server/server.go:247-268 | however the halves of logins interleave with each other, with rewrites and with reloads of alike tables, all outcomes and the cache are those of whole logins, as long as each login that loads a keycloak access finds its own credentials there |
| EnvVars.ReplaceEnvVars | fs/utils/env.go:10-16 | the scanning loop computes the image of the scanned tokens |
| EnvVars.ScanDecomposes | fs/utils/env.go:10-16 | the tokens concatenate to the input and form a canonical decomposition |
| EnvVars.CanonicalIsScanned | fs/utils/env.go:10-16 | that decomposition is the only one |
| EnvVars.EveryMatchIsTaken | fs/utils/env.go:10-13 | every match of the pattern starts where a reference starts, which reaches at least as far |
| EnvVars.EveryReferenceIsAMatch | fs/utils/env.go:10-13 | every reference is a match, and no longer one starts there |
| EnvLaws.ScanOfConcat | fs/utils/env.go:10-16 | the tokens of joinable texts are those of the two texts |
| EnvLaws.DistributesIffJoinable | fs/utils/env.go:12-16 | substitution distributes over s + t in every environment exactly when t does not start in a word or s does not end in a dollar and word characters |
| EnvLaws.CutReferenceDiffers | fs/utils/env.go:12-16 | two texts on which substitution does not distribute |
| EnvLaws.OutputHasMatchIff | fs/utils/env.go:12-16 | the output contains a match exactly when a value brings one along or a dollar, literal or at the end of a value, meets a value that completes it |
| EnvLaws.IdempotentIffNoMatchMade | fs/utils/env.go:12-16 | in every environment a second pass changes nothing if no such match is made, and only then if the variables the output refers to hold no dollar |
| EnvLaws.SelfReferenceIsIdempotent | fs/utils/env.go:12-16 | an environment in which a match is made and a second pass changes nothing |
| EnvLaws.IdempotentWithoutDoubleDollar | fs/utils/env.go:12-16 | a second pass changes nothing if the input has no two adjacent dollars and no value holds a match or ends in a dollar |
| EnvLaws.DoubleDollarIsNotIdempotent | fs/utils/env.go:12-16 | an input on which two passes differ from one |
| Paths.CutsAreTheSlashes | fs/telegram/telegram.go:286 | the parts of a path end at its slashes and at its end |
| Paths.JoinOfFirstParts | fs/telegram/telegram.go:286-288 | joining the first parts of a path gives the path up to the corresponding cut |
| FakeFs.LastCreationIs | fs/telegram/fake_fs.go:26-44 | the creation an entry goes back to is the last one of its name |
| FakeFs.SizeIsTheLastSet | fs/telegram/fake_fs.go:47-53 | an entry's size is what was last set while it stood under its name, or zero |
| FakeFs.ReplacedIsFrozen | fs/telegram/fake_fs.go:26-53 | a replaced entry keeps the size it had when its name was created anew |
| FakeFs.HeldInfoFollowsStat | fs/telegram/fake_fs.go:26-60 | an info handed out shows what stat shows until its name is created anew, and what stat showed last from then on |
| FakeFs.OtherNamesDoNotShow | fs/telegram/fake_fs.go:26-60 | stat depends on the operations on that name only |
| FakeFs.StatAfter | fs/telegram/fake_fs.go:26-60 | what each operation does to stat of every name; setting the size of a missing name does nothing |
| FakeFs.StatIsReplay | fs/telegram/fake_fs.go:26-60 | stat is the replay of the whole log |
| FakeFs.NamesStay | fs/telegram/fake_fs.go:26-60 | a name once created stays |
| FakeFs.FakeFilesystem.Mkdir | fs/telegram/fake_fs.go:26-34 | a new entry in the map; every entry ever made keeps showing what the log says |
| FakeFs.FakeFilesystem.Create | fs/telegram/fake_fs.go:37-44 | likewise for a file |
| FakeFs.FakeFilesystem.SetSize | fs/telegram/fake_fs.go:47-53 | writes through the shared entry, and every other entry keeps its size |
| FakeFs.FakeFilesystem.Stat | fs/telegram/fake_fs.go:56-60 | hands out the shared entry of the last creation, or nothing |
| FakeFs.ReportedSizeIs | fs/telegram/file_info.go:32-37 | stat reports 42 for a directory, whatever size was set on it, and for a file the last size set since its creation, or zero |
| Buffer.DrainGivesTheNextBytes | fs/telegram/telegram.go:167-184 | a sender gets the next bytes in order whatever sizes it reads with, and moves only the position |
| Buffer.DrainDeliversWhatIsAskedFor | fs/telegram/telegram.go:174-178 | reads of any sizes deliver together what they ask for, or all that is left |
| Buffer.DrainFinishes | fs/telegram/telegram.go:167-184 | non-empty reads, as many as bytes are left, rebuild the rest exactly and drain the buffer |
| Buffer.EofIffDrained | fs/telegram/telegram.go:170-172 | a non-empty read reports the end exactly when everything has been read |
| Buffer.FirstInFirstOut | fs/mail/mail.go:97-137 | between successful closes the content is what was written and what was handed out is its part before the position |
| Buffer.SenderGetsTheRest | fs/mail/mail.go:107-116 | what was handed out before and what a successful send reads to the end make up all that was written |
| Telegram.OnlyShortTextsAreMessages | fs/telegram/telegram.go:129-149 | which lowered extensions are sent as what; exactly texts shorter than 4096 bytes are sent without reading the handle |
| Telegram.ExtensionIs | fs/telegram/telegram.go:326-334 | the extension is what follows the last dot of the last path element, with the dot, or nothing |
| Telegram.LowerIs | fs/telegram/telegram.go:326-334 | capitals are lowered letter by letter, everything else in ASCII stays |
| Telegram.Fs.MkdirAll | fs/telegram/telegram.go:285-292 | makes a directory of the path up to each cut, in order |
| Telegram.Fs.Create | fs/telegram/telegram.go:300-303 | creates the entry and an empty handle |
| Telegram.Fs.Stat | fs/telegram/telegram.go:311-318 | the shared entry, showing what the log says of the name, or the path error |
| Telegram.Fs.Open | fs/telegram/telegram.go:295-297 | an empty handle, leaving the fake file system alone |
| Telegram.Fs.Publish | fs/telegram/telegram.go:157-158 | a new entry of the file's size |
| Telegram.File.Write | fs/telegram/telegram.go:236-240 | appends to the content |
| Telegram.File.Read | fs/telegram/telegram.go:167-184 | fills the array as far as bytes are left with the next bytes, leaves the rest of it, and reports the end exactly when there was something to fill and nothing left |
| Telegram.File.Send | fs/telegram/telegram.go:129-149 | a sender reads the handle, except for a short text |
| Telegram.File.Close | fs/telegram/telegram.go:120-164 | without a file system nothing; on failure only the position may move; on success the size is published and the buffer emptied |
| TelegramRuns.MkdirAllMakesTheAncestors | fs/telegram/telegram.go:285-292 | exactly the path and what stands before its slashes become directories, of reported size 42, and everything else stats as before |
| TelegramRuns.MkdirAllMakesDifferentDirectories | fs/telegram/telegram.go:285-292 | one directory per slash and one more, all different |
| TelegramRuns.ContentIsWhatWasWritten | fs/telegram/telegram.go:120-164 | in every run over many handles a handle's content is what was written on it since its last successful close |
| TelegramRuns.ClosePublishesWhatWasWritten | fs/telegram/telegram.go:152-163 | after a successful close the path stats as a file of exactly that many bytes, however many had been read |
| TelegramRuns.FailedCloseKeepsEverything | fs/telegram/telegram.go:152-155 | a failed close changes no metadata and no content |
| TelegramRuns.WhatCallsMake | fs/telegram/telegram.go:279-303 | what stat shows after each call that makes something: an empty file, a directory, or the directories on a path; opening makes a handle only |
| TelegramRuns.UntouchedStatsAsBefore | fs/telegram/telegram.go:257-318 | stat of a path changes only by calls that create or publish that path |
| TelegramRuns.Session.Perform | fs/telegram/telegram.go:120-318 | every call on the file system and on its open files takes the objects to the next state of the runs these laws are about |
| TelegramRuns.Perform | fs/telegram/telegram.go:120-318 | so a whole run on the objects ends in the state of that run |
| Mail.File.Write | fs/mail/mail.go:184-188 | appends to the content |
| Mail.File.Read | fs/mail/mail.go:120-137 | fills the array as far as bytes are left with the next bytes, and reports the end exactly when there was something to fill and nothing left |
| Mail.File.Close | fs/mail/mail.go:97-117 | the buffer is emptied exactly when the mail was sent |
| StripPrefix.NameOfNested | fs/stripprefix/stripslash.go:34-36 | the name of a file under several wrappers, panics included, is that under one of the total length |
| StripPrefix.WhatReachesTheSource | fs/stripprefix/stripslash.go:40-202 | through any stack of wrappers, a call with too short a path gives the path error and never reaches the source; any other reaches it exactly once, shortened, as a stat where an lstat cannot be done, and brings back its answer |
| StripPrefix.NamesReachTheSourceCut | fs/stripprefix/stripslash.go:40-202 | on the names themselves: both names of a rename are cut and must both be long enough; every other call reaches the source with its cut name, and too short a one brings the path error of that operation |
| StripPrefix.StackedIsOne | fs/stripprefix/stripslash.go:40-202 | one call on two stacked wrappers gives the reply and the source calls of one wrapper of the total length, errors, Rename and the Lstat fallback included |
| StripPrefix.StackedRunsAlike | fs/stripprefix/stripslash.go:29-202 | so does every run of a client, which may also ask the names of the files it opened |
| StripPrefix.StackRunsAsOne | fs/stripprefix/stripslash.go:29-202 | for stacks of any height |
| StripPrefix.NameIsShortenedTwice | fs/stripprefix/stripslash.go:34-46 | over a source that names files as opened, a file's name is its path without two prefixes, and a panic exactly when the path is shorter than that |
| StripPrefix.AskingTheNameCanPanic | fs/stripprefix/stripslash.go:34-36 | a file opened without an error whose name cannot be asked for |
| FsLog.File.Read | fs/fslog/fslog.go:147-155 | passes the call on and counts it when there was no error |
| FsLog.File.Write | fs/fslog/fslog.go:174-182 | likewise |
| FsLog.File.ReadAt | fs/fslog/fslog.go:158-166 | likewise |
| FsLog.File.WriteAt | fs/fslog/fslog.go:185-193 | likewise |
| FsLog.File.WriteString | fs/fslog/fslog.go:226-234 | likewise |
| FsLog.File.Delegate | fs/fslog/fslog.go:196-223 | the other calls are passed on and counted nowhere |
| FsLog.File.Close | fs/fslog/fslog.go:128-144 | passes the call on and reports the positive lengths |
| FsLog.WrapperIsTransparent | fs/fslog/fslog.go:128-234 | in every run the source and all replies are those without the wrapper, and the counters are the sums over calls without error |
| FsLog.CountersAreExactIff | fs/fslog/fslog.go:147-193 | the counters are all bytes moved exactly when no call returned a positive count with an error |
| FsLog.LastBytesWithEndAreNotCounted | fs/fslog/fslog.go:147-155 | a read that returns bytes together with the end of the file is not counted |
| FsLog.BufferCountersAreExact | fs/mail/mail.go:97-137 | over the upload buffers they are the bytes written and the bytes delivered to the caller, without what a send reads |

## Left out

- Backend loaders other than mail's and Telegram's buffers, and the read-only, base-path and sync-and-delete layers: thin wrappers over libraries; the loader is a parameter that succeeds or fails.
- bcrypt itself: the hasher is idealised, so its 72-byte limit shows only as a hash that fails, and its cost parameter not at all.
- Duplicate members of the configuration file, and its textual layout: the file is a tree with one member per name. The decoder of the model reads exact names only, the real one also differently-cased ones.
- A configuration file that is emptied or broken between being decoded and being read again: the path update fails on it in the model, where sjson would build on an empty text.
- Null entries in the list of accesses: the source dereferences them and crashes.
- Several entries sharing one access object: decoding allocates each entry anew, and the methods on the table ask for that.
- The access webhook, TLS certificates, settings copying, the config schema, logger output, file permissions and timestamps.
- Auth.AuthUser: the webhook branch and the optional logging wrapper around the loaded file system are not part of it, and it is one atomic step, which SplitLogins.SplitLoginsAreWhole justifies.
- SplitLogins.SplitLoginsAreWhole: reloads that change verdicts are not covered.
- Interleavings.LoadedAccessIsTheChosenOne: the two assignments that overwrite a keycloak access are one step, and so are the reads of it while loading.
- FsCache.RefinesDirectIffNoShadowing: the loader's success may depend on the settings only, not on the moment, here and in the lemmas of Auth that compare with direct loading; the other cache lemmas need no such assumption.
- Server.Server.EndWait: the unlocked reset of the channel field is one atomic step; torn reads and writes of it are not modelled.
- Shutdown.NilMeansEmptied: fewer than 2^32 clients are connected at once, as for every lemma that speaks of live clients; the panic condition itself is stated on the wrapping counter.
- FsLog.File.Read: the counters do not wrap at 64 bits, here and in the other methods.
- FsLog on failed opens: the source wraps a nil file together with the error; only open files are modelled.
- StripPrefix.StackedRunsAlike: calls on open files other than Name go straight to the source's file and are not among the requests; negative prefix lengths are not modelled.
- EnvLaws.IdempotentIffNoMatchMade: when the output refers to variables whose values hold a dollar, only one direction is stated; the other one can fail there, as EnvLaws.SelfReferenceIsIdempotent shows.
- Telegram and mail methods without effect (Truncate, Seek, Sync, Readdir, Rename, Remove and the like), and the bot's handlers.
- The signal loop of main.go: its reloads and its stop are events of the runs; that it stops at the first SIGTERM is not stated.
