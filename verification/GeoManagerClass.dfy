/** The manager as the object it is. */
module GeoManagers {
  import opened Wrappers
  import opened Names
  import opened GeoRegistry
  import opened GeoLaws

  class Manager {
    var dbs: map<string, DbEntry>
    var dbTypes: map<Type, string>
    var docs: map<string, Doc> // what the store keeps under "geo/"

    ghost function Abs(): Registry
      reads this
    {
      Registry(dbs, dbTypes, docs)
    }

    // Over a store that holds these documents, before any of them is read.
    constructor (docs: map<string, Doc>)
      ensures Abs() == Registry(map[], map[], docs)
    {
      this.dbs, this.dbTypes, this.docs := map[], map[], docs;
    }

    // The loop of the constructor; ok is false when it throws.
    method Load(list: seq<string>, worlds: Answers) returns (ok: bool)
      requires Inverse(Abs())
      modifies this
      ensures ok <==> Recover(old(Abs()), list, worlds).Some?
      ensures ok ==> Abs() == Recover(old(Abs()), list, worlds).value
      ensures Distinct(list) ==> (ok <==> !ListsUnreadable(old(docs), list))
      ensures Inverse(Abs())
    {
      if Distinct(list) { RecoverThrows(Abs(), list, worlds); }
      assert list[0..] == list;
      for i := 0 to |list|
        invariant Inverse(Abs())
        invariant Recover(old(Abs()), list, worlds) == Recover(Abs(), list[i..], worlds)
      {
        assert list[i..][1..] == list[i + 1..];
        if list[i] in docs {
          var doc := docs[list[i]];
          if doc.path.None? {
            return false;
          }
          if doc.kind.None? {
            return false;
          }
          var kind := TypeFromName(doc.kind.value);
          if kind.None? {
            return false;
          }
          var added := AddDbUnsafe(doc.path.value, kind.value, false, worlds(list[i]));
          if added.Some? && worlds(list[i]).stores {
            docs := docs - {list[i]};
          }
        }
      }
      return true;
    }

    method AddDbUnsafe(path: string, kind: Type, upsertStore: bool, world: World) returns (error: Option<GeoError>)
      requires Inverse(Abs())
      modifies this
      ensures Abs() == AddDb(old(Abs()), path, kind, upsertStore, world)
      ensures error == AddError(old(Abs()), path, kind, world)
      ensures Inverse(Abs())
      ensures var name := Filename(path);
              && (error.None? <==> kind !in old(dbTypes) && name !in old(dbs) && world.opens && PlainPart(name))
              && (error.None? ==>
                    dbs == old(dbs)[name := DbEntry(path, kind)] && dbTypes == old(dbTypes)[kind := name])
              && docs == if error.None? && upsertStore && world.stores && world.fileHash.Some?
                         then old(docs)[name := Doc(Some(path), world.fileHash, Some(TypeName(kind)))] else old(docs)
      ensures error.Some? ==> unchanged(this)
    {
      var name := Filename(path);
      if kind in dbTypes {
        return Some(TypeTaken);
      }
      if name in dbs {
        return Some(NameTaken);
      }
      if !Opens(path, world) {
        return Some(OpenFailed);
      }
      dbs := dbs[name := DbEntry(path, kind)];
      dbTypes := dbTypes[kind := name];
      if upsertStore {
        UpsertStoreEntry(path, world);
      }
      return None;
    }

    method UpsertStoreEntry(path: string, world: World)
      requires Filename(path) in dbs
      modifies this`docs
      ensures Abs() == GeoRegistry.UpsertStoreEntry(old(Abs()), path, world)
      ensures var name := Filename(path);
              docs == if world.stores && world.fileHash.Some?
                      then old(docs)[name := Doc(Some(path), world.fileHash, Some(TypeName(dbs[name].kind)))]
                      else old(docs)
    {
      var name := Filename(path);
      if world.fileHash.None? {
        return;
      }
      var doc := Complete(path, world.fileHash.value, dbs[name].kind);
      if world.stores {
        docs := docs[name := doc];
      }
    }

    method RemoveDbUnsafe(path: string, world: World) returns (error: Option<GeoError>)
      requires Inverse(Abs())
      modifies this
      ensures Abs() == RemoveDb(old(Abs()), path, world)
      ensures error == RemoveError(old(Abs()), path, world)
      ensures Inverse(Abs())
      ensures var name := Filename(path);
              && (error.None? <==> name in old(dbs) && name in old(docs) && world.stores)
              && (error == Some(NotFound) <==> name !in old(dbs))
      ensures Forgotten(old(Abs()), Abs(), Filename(path), world)
    {
      RemoveKeeps(Abs(), path, world);
      RemoveLaw(Abs(), path, world);
      var name := Filename(path);
      if name !in dbs {
        return Some(NotFound);
      }
      dbs := dbs - {name};
      var types := [City, Asn];
      var it := 0;
      while it < |types| && !(types[it] in dbTypes && dbTypes[types[it]] == name)
        invariant 0 <= it <= 2
        invariant forall k :: 0 <= k < it ==> !(types[k] in dbTypes && dbTypes[types[k]] == name)
      {
        it := it + 1;
      }
      assert types[0] == City && types[1] == Asn;
      if it < |types| {
        dbTypes := dbTypes - {types[it]};
      }
      if name !in docs || !world.stores {
        return Some(StoreFailed);
      }
      docs := docs - {name};
      return None;
    }

    method FetchContent(attempts: seq<Attempt>, hash: string) returns (fetched: Fetched)
      ensures fetched == Fetch(attempts, hash, "", false)
      ensures ComesTo(attempts, hash, fetched)
    {
      FetchLaw(attempts, hash);
      var content, failed := "", false;
      assert attempts[0..] == attempts;
      for i := 0 to |attempts|
        invariant Fetch(attempts, hash, "", false) == Fetch(attempts[i..], hash, content, failed)
      {
        assert attempts[i..][1..] == attempts[i + 1..];
        match attempts[i] {
          case NoDownload =>
            failed := true;
          case Downloaded(c, computed) =>
            content := c;
            if computed.None? {
              return Thrown;
            }
            if computed.value == hash {
              return Content(content);
            }
        }
      }
      return if failed then Failed else Content(content);
    }

    // The first part of remoteUpsertDb; asks is set when it goes on to download.
    method Ask(path: string, kind: Type, world: World) returns (error: Option<GeoError>, asks: bool)
      ensures error == AskError(Abs(), path, kind, world)
      ensures asks == Asks(Abs(), path, kind, world)
      ensures error == Some(NameMismatch) <==> kind in dbTypes && dbTypes[kind] != Filename(path)
      ensures error == Some(HashUnavailable) <==> NameFits(Abs(), path, kind) && world.remoteHash.None?
      ensures !asks && error.None? <==> UpToDateNow(Abs(), path, kind, world)
    {
      var name := Filename(path);
      if kind in dbTypes && dbTypes[kind] != name {
        return Some(NameMismatch), false;
      }
      if world.remoteHash.None? {
        return Some(HashUnavailable), false;
      }
      var hash := world.remoteHash.value;
      if name in dbs {
        if name in docs {
          if docs[name].hash.None? {
            return Some(BadAccess), false;
          }
          if docs[name].hash.value == hash {
            return None, false;
          }
        }
      }
      return None, true;
    }

    method RemoteUpsertDb(path: string, kind: Type, world: World) returns (error: Option<GeoError>)
      requires Inverse(Abs()) && |world.attempts| == MAX_RETRIES
      modifies this
      ensures Abs() == GeoRegistry.RemoteUpsertDb(old(Abs()), path, kind, world)
      ensures error == UpsertError(old(Abs()), path, kind, world)
      ensures Inverse(Abs())
      ensures Settles(old(Abs()), Abs(), error, path, kind, world)
    {
      RemoteUpsertAnswers(Abs(), path, kind, world);
      var asks;
      error, asks := Ask(path, kind, world);
      if !asks {
        return;
      }
      var hash := world.remoteHash.value;
      var fetched := FetchContent(world.attempts, hash);
      if fetched.Thrown? {
        return Some(BadAccess);
      }
      if fetched.Failed? {
        return Some(DownloadFailed);
      }
      error := Install(path, kind, world);
    }

    // The rest of remoteUpsertDb, once a download was chosen.
    method Install(path: string, kind: Type, world: World) returns (error: Option<GeoError>)
      requires Inverse(Abs())
      modifies this
      ensures Abs() == GeoRegistry.Install(old(Abs()), path, kind, world)
      ensures error == InstallError(old(Abs()), path, kind, world)
      ensures Inverse(Abs())
      ensures error.None? <==>
                && world.writes && world.opens && PlainPart(Filename(path))
                && (Filename(path) in old(dbs) || kind !in old(dbTypes))
      ensures error == Some(WriteFailed) <==> !world.writes
      ensures error.None? ==> Filename(path) in dbs
      ensures error == Some(OpenFailed) && Filename(path) in old(dbs) ==> dbs == old(dbs) - {Filename(path)}
      ensures error.Some? && Filename(path) !in old(dbs) ==> unchanged(this)
    {
      InstallLaw(Abs(), path, kind, world);
      InstallKeeps(Abs(), path, kind, world);
      var name := Filename(path);
      if !world.writes {
        return Some(WriteFailed);
      }
      if name in dbs {
        if !Opens(path, world) {
          var _ := RemoveDbUnsafe(path, world);
          return Some(OpenFailed);
        }
      } else {
        var added := AddDbUnsafe(path, kind, false, world);
        if added.Some? {
          return added;
        }
      }
      UpsertStoreEntry(path, world);
      return None;
    }

    // dbs_.at never fails: the entry found has the type asked for.
    method GetLocator(kind: Type) returns (entry: Option<DbEntry>)
      requires Inverse(Abs())
      ensures entry.Some? <==> exists name :: name in dbs && dbs[name].kind == kind
      ensures entry.Some? ==> entry.value.kind == kind && exists name :: name in dbs && dbs[name] == entry.value
    {
      if kind !in dbTypes {
        return None;
      }
      return Some(dbs[dbTypes[kind]]);
    }
  }
}
