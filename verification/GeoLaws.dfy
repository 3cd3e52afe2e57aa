/** When each call of the geo manager succeeds and what it leaves, in terms of its tables and of the attempts alone. */
module GeoLaws {
  import opened Wrappers
  import opened Names
  import opened GeoRegistry

  // ----- the retry loop -----

  // The loop goes on after the attempt: it brought nothing, or something with another hash.
  predicate GoesOn(a: Attempt, hash: string) {
    a.NoDownload? || (a.computed.Some? && a.computed.value != hash)
  }

  predicate GoOnBefore(attempts: seq<Attempt>, hash: string, i: nat)
    requires i <= |attempts|
  {
    forall j | 0 <= j < i :: GoesOn(attempts[j], hash)
  }

  lemma FirstGoesOn(attempts: seq<Attempt>, hash: string, i: nat)
    requires 0 < i <= |attempts| && GoOnBefore(attempts, hash, i)
    ensures GoesOn(attempts[0], hash) && GoOnBefore(attempts[1..], hash, i - 1)
  {
    forall j | 0 <= j < i - 1 ensures GoesOn(attempts[1..][j], hash) { assert attempts[1..][j] == attempts[j + 1]; }
  }

  // The first attempt with the right hash decides, whatever failed before.
  lemma {:induction false} FirstMatchTaken(attempts: seq<Attempt>, hash: string, content: string, failed: bool, i: nat)
    requires i < |attempts| && GoOnBefore(attempts, hash, i)
    requires attempts[i].Downloaded? && attempts[i].computed == Some(hash)
    ensures Fetch(attempts, hash, content, failed) == Content(attempts[i].content)
    decreases i
  {
    if i > 0 {
      FirstGoesOn(attempts, hash, i);
      var a := attempts[0];
      var kept := if a.NoDownload? then content else a.content;
      FirstMatchTaken(attempts[1..], hash, kept, failed || a.NoDownload?, i - 1);
    }
  }

  // A hash that cannot be computed ends the loop with an exception.
  lemma {:induction false} FirstBadThrows(attempts: seq<Attempt>, hash: string, content: string, failed: bool, i: nat)
    requires i < |attempts| && GoOnBefore(attempts, hash, i)
    requires attempts[i].Downloaded? && attempts[i].computed.None?
    ensures Fetch(attempts, hash, content, failed) == Thrown
    decreases i
  {
    if i > 0 {
      FirstGoesOn(attempts, hash, i);
      var a := attempts[0];
      FirstBadThrows(attempts[1..], hash, if a.NoDownload? then content else a.content, failed || a.NoDownload?, i - 1);
    }
  }

  // Where no attempt decides, one that brought nothing makes the call fail.
  lemma {:induction false} NoneDecides(attempts: seq<Attempt>, hash: string, content: string, failed: bool)
    requires GoOnBefore(attempts, hash, |attempts|)
    ensures var r := Fetch(attempts, hash, content, failed);
            if failed || (exists j | 0 <= j < |attempts| :: attempts[j].NoDownload?) then r == Failed
            else r == Content(if attempts == [] then content else attempts[|attempts| - 1].content)
    decreases |attempts|
  {
    if attempts != [] {
      FirstGoesOn(attempts, hash, |attempts|);
      var a, rest := attempts[0], attempts[1..];
      NoneDecides(rest, hash, if a.NoDownload? then content else a.content, failed || a.NoDownload?);
      if j :| 0 < j < |attempts| && attempts[j].NoDownload? { assert rest[j - 1].NoDownload?; }
      if j :| 0 <= j < |rest| && rest[j].NoDownload? { assert attempts[j + 1].NoDownload?; }
    }
  }

  lemma {:induction false} FirstDecides(attempts: seq<Attempt>, hash: string) returns (i: nat)
    requires !GoOnBefore(attempts, hash, |attempts|)
    ensures i < |attempts| && GoOnBefore(attempts, hash, i) && !GoesOn(attempts[i], hash)
    decreases |attempts|
  {
    if !GoesOn(attempts[0], hash) {
      i := 0;
    } else {
      var j :| 0 <= j < |attempts| && !GoesOn(attempts[j], hash);
      assert attempts[1..][j - 1] == attempts[j];
      var k := FirstDecides(attempts[1..], hash);
      i := k + 1;
      forall j | 0 <= j < i ensures GoesOn(attempts[j], hash) {
        if j > 0 { assert attempts[1..][j - 1] == attempts[j]; }
      }
    }
  }

  // What the loop comes to, over all attempts: the first one that decides is taken; where none does, one that brought
  // nothing makes it fail, and otherwise the last content is taken as it is.
  predicate ComesTo(attempts: seq<Attempt>, hash: string, r: Fetched) {
    && (r == Thrown <==>
          exists i | 0 <= i < |attempts| ::
            attempts[i].Downloaded? && attempts[i].computed.None? && GoOnBefore(attempts, hash, i))
    && (r == Failed <==>
          && (forall i | 0 <= i < |attempts| :: GoesOn(attempts[i], hash))
          && (exists i | 0 <= i < |attempts| :: attempts[i].NoDownload?))
    && (forall i | 0 <= i < |attempts| ::
          attempts[i].Downloaded? && attempts[i].computed == Some(hash) && GoOnBefore(attempts, hash, i) ==>
            r == Content(attempts[i].content))
    && ((forall i | 0 <= i < |attempts| :: attempts[i].Downloaded? && GoesOn(attempts[i], hash)) ==>
          r == Content(if attempts == [] then "" else attempts[|attempts| - 1].content))
  }

  lemma FetchLaw(attempts: seq<Attempt>, hash: string)
    ensures ComesTo(attempts, hash, Fetch(attempts, hash, "", false))
  {
    forall i | 0 <= i < |attempts| && attempts[i].Downloaded? && GoOnBefore(attempts, hash, i)
      ensures attempts[i].computed == Some(hash) ==>
                Fetch(attempts, hash, "", false) == Content(attempts[i].content)
      ensures attempts[i].computed.None? ==> Fetch(attempts, hash, "", false) == Thrown
    {
      if attempts[i].computed == Some(hash) { FirstMatchTaken(attempts, hash, "", false, i); }
      if attempts[i].computed.None? { FirstBadThrows(attempts, hash, "", false, i); }
    }
    if GoOnBefore(attempts, hash, |attempts|) {
      NoneDecides(attempts, hash, "", false);
    } else {
      var i := FirstDecides(attempts, hash);
      assert attempts[i].Downloaded? && GoOnBefore(attempts, hash, i);
    }
  }

  // ----- the calls -----

  lemma AddLaw(g: Registry, path: string, kind: Type, world: World)
    ensures var error, u, name := AddError(g, path, kind, world), AddDb(g, path, kind, true, world), Filename(path);
            && (error == Some(TypeTaken) <==> kind in g.dbTypes)
            && (error == Some(NameTaken) <==> kind !in g.dbTypes && name in g.dbs)
            && (error.None? <==> kind !in g.dbTypes && name !in g.dbs && world.opens && PlainPart(name))
            && (error.Some? && error != Some(TypeTaken) && error != Some(NameTaken) ==> error == Some(OpenFailed))
            && (error.Some? ==> u == g)
            && (error.None? ==>
                  && u.dbs == g.dbs[name := DbEntry(path, kind)] && u.dbTypes == g.dbTypes[kind := name]
                  && u.docs == if world.stores && world.fileHash.Some?
                               then g.docs[name := Doc(Some(path), world.fileHash, Some(TypeName(kind)))] else g.docs)
  {
  }

  // The tables of u are those of g without the name; the document goes if the store takes it out.
  predicate Forgotten(g: Registry, u: Registry, name: string, world: World) {
    && u.dbs == g.dbs - {name}
    && u.dbTypes == (map kind | kind in g.dbTypes && g.dbTypes[kind] != name :: g.dbTypes[kind])
    && u.docs == if name in g.dbs && world.stores then g.docs - {name} else g.docs
  }

  lemma RemoveLaw(g: Registry, path: string, world: World)
    requires Inverse(g)
    ensures var error, name := RemoveError(g, path, world), Filename(path);
            && (error.None? <==> name in g.dbs && name in g.docs && world.stores)
            && (error == Some(NotFound) <==> name !in g.dbs)
            && (error.Some? && name in g.dbs ==> error == Some(StoreFailed))
    ensures Forgotten(g, RemoveDb(g, path, world), Filename(path), world)
  {
    if Filename(path) in g.dbs { TypeOfLaw(g, Filename(path)); }
  }

  lemma TypeOfLaw(g: Registry, name: string)
    requires Inverse(g) && name in g.dbs
    ensures TypeOf(g.dbTypes, name) == Some(g.dbs[name].kind)
  {
  }

  // The answer for the type asked for: none, or the name it has already.
  predicate NameFits(g: Registry, path: string, kind: Type) {
    kind in g.dbTypes ==> g.dbTypes[kind] == Filename(path)
  }

  predicate UpToDateNow(g: Registry, path: string, kind: Type, world: World) {
    && NameFits(g, path, kind) && world.remoteHash.Some?
    && Filename(path) in g.dbs && Filename(path) in g.docs && g.docs[Filename(path)].hash == world.remoteHash
  }

  // A call is up to date exactly when the hash stored for the database is the remote one.
  lemma UpToDateLaw(g: Registry, path: string, kind: Type, world: World)
    requires NameFits(g, path, kind) && world.remoteHash.Some?
    requires Filename(path) in g.dbs && Filename(path) in g.docs && g.docs[Filename(path)].hash.Some?
    ensures !Asks(g, path, kind, world) <==> g.docs[Filename(path)].hash.value == world.remoteHash.value
    ensures g.docs[Filename(path)].hash.value == world.remoteHash.value ==>
              UpsertError(g, path, kind, world).None? && RemoteUpsertDb(g, path, kind, world) == g
  {
  }

  // The calls that end before a download, and why.
  lemma AskLaw(g: Registry, path: string, kind: Type, world: World)
    ensures var name, error := Filename(path), UpsertError(g, path, kind, world);
            && (!NameFits(g, path, kind) <==> error == Some(NameMismatch))
            && (NameFits(g, path, kind) && world.remoteHash.None? <==> error == Some(HashUnavailable))
            && (NameFits(g, path, kind) && world.remoteHash.Some? && name in g.dbs && name in g.docs ==>
                  (g.docs[name].hash.None? ==> error == Some(BadAccess)))
            && (error in EarlyErrors() ==> RemoteUpsertDb(g, path, kind, world) == g)
  {
  }

  // The errors of the exits before anything is changed.
  function EarlyErrors(): set<Option<GeoError>> {
    {Some(NameMismatch), Some(HashUnavailable), Some(BadAccess), Some(DownloadFailed), Some(WriteFailed)}
  }

  // An ordinary call: the database is not the remote one yet, attempt i is the first that brings the remote one, and
  // what it brings is written and opened.
  predicate Brings(g: Registry, path: string, kind: Type, world: World, i: nat)
    requires i < |world.attempts|
  {
    && NameFits(g, path, kind) && world.remoteHash.Some?
    && (Filename(path) in g.dbs && Filename(path) in g.docs ==>
          g.docs[Filename(path)].hash.Some? && g.docs[Filename(path)].hash != world.remoteHash)
    && GoOnBefore(world.attempts, world.remoteHash.value, i)
    && world.attempts[i].Downloaded? && world.attempts[i].computed == world.remoteHash
    && world.writes && world.opens && PlainPart(Filename(path))
    && (Filename(path) !in g.dbs ==> kind !in g.dbTypes)
  }

  // The database is registered in u and its document holds the hash of the file.
  predicate InPlace(g: Registry, u: Registry, path: string, kind: Type, world: World) {
    var name := Filename(path);
    && name in u.dbs
    && u.dbs == (if name in g.dbs then g.dbs else g.dbs[name := DbEntry(path, kind)])
    && u.dbTypes == (if name in g.dbs then g.dbTypes else g.dbTypes[kind := name])
    && u.docs == if world.stores && world.fileHash.Some?
                 then g.docs[name := Doc(Some(path), world.fileHash, Some(TypeName(u.dbs[name].kind)))]
                 else g.docs
  }

  lemma RemoteUpsertLaw(g: Registry, path: string, kind: Type, world: World, i: nat)
    requires i < |world.attempts| && Brings(g, path, kind, world, i)
    ensures UpsertError(g, path, kind, world).None?
    ensures InPlace(g, RemoteUpsertDb(g, path, kind, world), path, kind, world)
  {
    FirstMatchTaken(world.attempts, world.remoteHash.value, "", false, i);
  }

  // What a call answers and leaves: u and error, from g.
  predicate Settles(g: Registry, u: Registry, error: Option<GeoError>, path: string, kind: Type, world: World) {
    && (error == Some(NameMismatch) <==> kind in g.dbTypes && g.dbTypes[kind] != Filename(path))
    && (error == Some(HashUnavailable) <==> NameFits(g, path, kind) && world.remoteHash.None?)
    && (error in EarlyErrors() ==> u == g)
    && (UpToDateNow(g, path, kind, world) ==> error.None? && u == g)
    && forall i | 0 <= i < |world.attempts| && Brings(g, path, kind, world, i) ::
         error.None? && InPlace(g, u, path, kind, world)
  }

  lemma RemoteUpsertAnswers(g: Registry, path: string, kind: Type, world: World)
    ensures Settles(g, RemoteUpsertDb(g, path, kind, world), UpsertError(g, path, kind, world), path, kind, world)
  {
    AskLaw(g, path, kind, world);
    if UpToDateNow(g, path, kind, world) { UpToDateLaw(g, path, kind, world); }
    forall i | 0 <= i < |world.attempts| && Brings(g, path, kind, world, i)
      ensures UpsertError(g, path, kind, world).None?
      ensures InPlace(g, RemoteUpsertDb(g, path, kind, world), path, kind, world)
    {
      RemoteUpsertLaw(g, path, kind, world, i);
    }
  }

  // What follows a download, whichever was chosen.
  lemma InstallLaw(g: Registry, path: string, kind: Type, world: World)
    requires Inverse(g)
    ensures var name, error, u := Filename(path), InstallError(g, path, kind, world), Install(g, path, kind, world);
            && (error.None? <==>
                  && world.writes && world.opens && PlainPart(name)
                  && (name in g.dbs || kind !in g.dbTypes))
            && (error == Some(WriteFailed) <==> !world.writes)
            && (error == Some(OpenFailed) && name in g.dbs ==> name !in u.dbs)
            && (error.Some? && name !in g.dbs ==> u == g)
            && (error.None? ==>
                  && name in u.dbs
                  && u.dbTypes == if name in g.dbs then g.dbTypes else g.dbTypes[kind := name])
  {
  }

  // ----- the constructor -----

  // A document the constructor cannot read: it throws.
  predicate Unreadable(doc: Doc) {
    doc.path.None? || doc.kind.None? || (doc.kind.value != "city" && doc.kind.value != "asn")
  }

  predicate ListsUnreadable(docs: map<string, Doc>, list: seq<string>) {
    exists i | 0 <= i < |list| :: list[i] in docs && Unreadable(docs[list[i]])
  }

  // Whatever the documents are, the constructor throws exactly when one of those listed cannot be read.
  lemma {:induction false} RecoverThrows(g: Registry, list: seq<string>, worlds: Answers)
    requires Distinct(list)
    ensures Recover(g, list, worlds).None? <==> ListsUnreadable(g.docs, list)
    decreases |list|
  {
    if list != [] {
      TailOf(list);
      var name, rest := list[0], list[1..];
      ListedFirst(g.docs, list);
      if name !in g.docs {
        RecoverThrows(g, rest, worlds);
      } else if !Unreadable(g.docs[name]) {
        var doc := g.docs[name];
        var kind := if doc.kind.value == "city" then City else Asn;
        assert doc.kind.value == TypeName(kind);
        var u := if AddError(g, doc.path.value, kind, worlds(name)).None? then Register(g, doc.path.value, kind)
                 else Forget(g, name, worlds(name));
        RecoverThrows(u, rest, worlds);
        SameUnreadable(g.docs, u.docs, rest, name);
      }
    }
  }

  lemma ListedFirst(docs: map<string, Doc>, list: seq<string>)
    requires list != []
    ensures ListsUnreadable(docs, list) <==>
            (list[0] in docs && Unreadable(docs[list[0]])) || ListsUnreadable(docs, list[1..])
  {
    if i :| 0 < i < |list| && list[i] in docs && Unreadable(docs[list[i]]) { assert list[1..][i - 1] == list[i]; }
    if i :| 0 <= i < |list[1..]| && list[1..][i] in docs && Unreadable(docs[list[1..][i]]) {
      assert list[i + 1] == list[1..][i];
    }
  }

  lemma SameUnreadable(docs: map<string, Doc>, later: map<string, Doc>, list: seq<string>, name: string)
    requires name !in list && (later == docs || later == docs - {name})
    ensures ListsUnreadable(docs, list) <==> ListsUnreadable(later, list)
  {
    assert forall i :: 0 <= i < |list| ==> list[i] in list;
  }

  // The names of the types, as they are stored.
  lemma TypeNames()
    ensures TypeName(City) == "city" && TypeName(Asn) == "asn"
  {
  }
}
