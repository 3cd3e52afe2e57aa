/** store/store.cpp: documents in namespaces, kept by a driver and indexed in memory. */
module Stores {
  import opened Wrappers
  import opened Names
  import opened JsonModel
  import opened FileTree
  import opened FileDrivers
  import opened DocNamesIndex
  import opened StoreView
  import opened StoreLaws
  import opened StoreLink
  import opened StoreLoad

  // The names with more than size parts, cut after size + 1 of them.
  function Cuts(names: seq<Path>, size: nat): set<Path> {
    set name | name in names && |name| > size :: name[..size + 1]
  }

  lemma CutsStep(names: seq<Path>, i: nat, size: nat)
    requires i < |names|
    ensures Cuts(names[..i + 1], size) ==
            Cuts(names[..i], size) + if |names[i]| > size then {names[i][..size + 1]} else {}
  {
    assert names[..i + 1] == names[..i] + [names[i]];
  }

  // The result lists the std::set in its own order.
  method CutName(names: seq<Path>, size: nat) returns (cut: seq<Path>)
    ensures StrictlySorted(cut)
    ensures forall n :: n in cut <==> n in Cuts(names, size)
  {
    cut := [];
    for i := 0 to |names|
      invariant StrictlySorted(cut)
      invariant forall n :: n in cut <==> n in Cuts(names[..i], size)
    {
      CutsStep(names, i, size);
      if |names[i]| >= size + 1 {
        InsertSortedProperty(cut, names[i][..size + 1]);
        cut := InsertSorted(cut, names[i][..size + 1]);
      }
    }
    assert names[..|names|] == names;
  }

  function Lift<T>(r: Result<T, DriverError>): Result<T, StoreError> {
    match r
    case Success(value) => Success(value)
    case Failure(error) => Failure(Driver(error))
  }

  function LiftError(error: Option<DriverError>): Option<StoreError> {
    match error
    case None => None
    case Some(e) => Some(Driver(e))
  }

  class Store {
    const driver: FileDriver
    const cache: DocNames

    ghost predicate Valid()
      reads this, driver, cache
    {
      && cache.Valid()
      && IsTree(driver.nodes)
      && Clean(driver.nodes)
      && Linked(cache.nameToNs, Files(driver.nodes))
    }

    ghost function Seen(): View
      requires Valid()
      reads this, driver, cache
    {
      ViewOf(cache.nameToNs, Files(driver.nodes))
    }

    constructor (driver: FileDriver)
      ensures this.driver == driver && fresh(cache)
      ensures cache.Valid() && cache.nameToNs == map[]
    {
      this.driver := driver;
      this.cache := new DocNames();
    }

    // The constructor proper: reads every namespace of the tree into a new index.
    static method Open(driver: FileDriver) returns (r: Result<Store, OpenError>)
      requires IsTree(driver.nodes) && PlainTree(driver.nodes)
      ensures r.Failure? <==> Unloadable(driver.nodes)
      ensures r.Success? ==> r.value.driver == driver && fresh(r.value) && fresh(r.value.cache)
      ensures r.Success? ==> r.value.cache.Valid() && Loaded(r.value.cache.nameToNs, driver.nodes)
      ensures forall index :: Clean(driver.nodes) && Linked(index, Files(driver.nodes)) ==>
                r.Success? && r.value.Valid() && r.value.cache.nameToNs == index
    {
      ghost var t := driver.nodes;
      forall index | Clean(t) && Linked(index, Files(t))
        ensures !Unloadable(t) && forall m :: Loaded(m, t) ==> m == index
      {
        LinkedLoads(index, t);
      }
      var store := new Store(driver);
      if !driver.ExistsCol([NAMESPACES]) {
        NothingToLoad(t);
        return Success(store);
      }
      assert PlainPart(NAMESPACES);
      var namespaces := driver.ReadCol([NAMESPACES]);
      if namespaces.Failure? {
        assert false;
      }
      ListsEntries(t, [NAMESPACES], namespaces.value);
      var error := store.LoadNamespaces(namespaces.value);
      if error.Some? {
        return Failure(error.value);
      }
      LoadDone(store.cache.nameToNs, t);
      return Success(store);
    }

    // The constructor's loop over the namespaces.
    method LoadNamespaces(list: seq<Path>) returns (error: Option<OpenError>)
      requires cache.Valid() && cache.nameToNs == map[] && IsTree(driver.nodes) && PlainTree(driver.nodes)
      requires IsDir(driver.nodes, [NAMESPACES]) && Elements(list) == Entries(driver.nodes, [NAMESPACES])
      modifies cache
      ensures cache.Valid()
      ensures error.Some? <==> Unloadable(driver.nodes)
      ensures error.None? ==> LoadedFrom(cache.nameToNs, driver.nodes, Elements(list))
    {
      ghost var t := driver.nodes;
      for i := 0 to |list|
        invariant cache.Valid()
        invariant LoadedFrom(cache.nameToNs, t, Elements(list[..i]))
        invariant forall k :: 0 <= k < i ==> IsDir(t, list[k]) && !TooDeep(t, list[k])
      {
        error := LoadNamespace(list, i);
        if error.Some? {
          return error;
        }
      }
      assert list[..|list|] == list;
      Loadable(t, list);
      return None;
    }

    // One round of it.
    method LoadNamespace(list: seq<Path>, i: nat) returns (error: Option<OpenError>)
      requires cache.Valid() && IsTree(driver.nodes) && PlainTree(driver.nodes) && i < |list|
      requires IsDir(driver.nodes, [NAMESPACES]) && Elements(list) == Entries(driver.nodes, [NAMESPACES])
      requires LoadedFrom(cache.nameToNs, driver.nodes, Elements(list[..i]))
      modifies cache
      ensures cache.Valid()
      ensures error.Some? ==> Unloadable(driver.nodes)
      ensures error.None? ==> LoadedFrom(cache.nameToNs, driver.nodes, Elements(list[..i + 1]))
      ensures error.None? ==> IsDir(driver.nodes, list[i]) && !TooDeep(driver.nodes, list[i])
    {
      var name := list[i];
      assert name in Elements(list);
      NamespaceEntry(driver.nodes, name);
      if |name| == 2 && driver.ExistsCol(name) {
        LoadNext(cache.nameToNs, driver.nodes, list, i);
        error := Visit(name, name[1]);
      } else {
        return Some(InvalidNamespace);
      }
    }

    // The recursive visitor of the constructor: indexes every file below name under ns.
    method Visit(name: Path, ns: string) returns (error: Option<OpenError>)
      requires cache.Valid() && IsTree(driver.nodes) && PlainTree(driver.nodes)
      requires name in driver.nodes && ValidName(name) && PlainPart(ns)
      requires |name| >= 2 && name[0] == NAMESPACES && name[1] == ns && (|name| == 2 ==> IsDir(driver.nodes, name))
      modifies cache
      ensures cache.Valid()
      ensures error.Some? <==> TooDeep(driver.nodes, name)
      ensures error.None? ==> cache.nameToNs == Gathered(old(cache.nameToNs), driver.nodes, {name}, ns)
      decreases Subtree(driver.nodes, name), 1
    {
      if driver.ExistsDoc(name) {
        VisitFile(cache.nameToNs, driver.nodes, name, ns);
        var virtualName := RealToVirtual(name);
        if virtualName.None? {
          return Some(InvalidDocument);
        }
        var _ := cache.Add(virtualName.value, ns);
        return None;
      }
      var result := driver.ReadCol(name);
      VisitDepth(driver.nodes, name);
      if result.Failure? {
        return Some(LoadFailed(result.error));
      }
      ListsEntries(driver.nodes, name, result.value);
      GatheredEntries(cache.nameToNs, driver.nodes, name, ns);
      EntriesValid(driver.nodes, name);
      assert forall sub :: sub in result.value <==> sub in Elements(result.value);
      error := VisitAll(name, result.value, ns);
    }

    // The visitor's loop over the names of one collection.
    method VisitAll(name: Path, list: seq<Path>, ns: string) returns (error: Option<OpenError>)
      requires cache.Valid() && IsTree(driver.nodes) && PlainTree(driver.nodes)
      requires name in driver.nodes && Elements(list) <= Entries(driver.nodes, name)
      requires PlainPart(ns) && |name| >= 2 && name[0] == NAMESPACES && name[1] == ns
      requires forall sub :: sub in list ==> ValidName(sub)
      modifies cache
      ensures cache.Valid()
      ensures error.Some? <==> exists sub :: sub in list && TooDeep(driver.nodes, sub)
      ensures error.None? ==> cache.nameToNs == Gathered(old(cache.nameToNs), driver.nodes, Elements(list), ns)
      decreases Subtree(driver.nodes, name), 0
    {
      ghost var was := cache.nameToNs;
      GatheredNone(was, driver.nodes, ns);
      for i := 0 to |list|
        invariant cache.Valid()
        invariant forall sub :: sub in list[..i] ==> !TooDeep(driver.nodes, sub)
        invariant cache.nameToNs == Gathered(was, driver.nodes, Elements(list[..i]), ns)
      {
        assert list[i] in Elements(list);
        assert list[..i + 1] == list[..i] + [list[i]];
        SmallerSubtree(driver.nodes, name, list[i]);
        GatheredStep(was, driver.nodes, list, i, ns);
        error := Visit(list[i], ns);
        if error.Some? {
          return error;
        }
      }
      assert list[..|list|] == list;
      return None;
    }

    method ReadDoc(name: Path) returns (r: Result<Json, StoreError>)
      requires Valid() && ValidName(name)
      ensures r == if name in Seen().docs then Success(Seen().docs[name].doc) else Failure(DocumentMissing)
    {
      var ns := cache.GetNamespaceId(name);
      if ns.None? {
        return Failure(DocumentMissing);
      }
      var rName := Real(ns.value, name);
      assert rName in Files(driver.nodes);
      var doc := driver.ReadDoc(rName);
      return Lift(doc);
    }

    method CreateDoc(name: Path, ns: string, content: Json) returns (error: Option<StoreError>)
      requires Valid() && ValidOp(Create(name, ns, content))
      modifies driver, cache
      ensures Valid()
      ensures error == old(Refusal(Seen(), Create(name, ns, content)))
      ensures Seen() == old(Apply(Seen(), Create(name, ns, content)))
      ensures error.None? <==>
                && name !in old(Seen()).docs && |name| <= 8 && !HasDuplicateKeys(content)
                && forall w :: w in old(Seen()).docs && old(Seen()).docs[w].ns == ns ==> !(name < w) && !(w < name)
      ensures error.None? ==> Seen() == View(old(Seen()).docs[name := Entry(ns, content)], old(Seen()).internals)
      ensures error.Some? ==> Seen() == old(Seen())
    {
      CreateLaw(Seen(), name, ns, content);
      if cache.ExistsName(name) {
        return Some(DocumentExists);
      }
      error := Write(name, ns, content);
      if error.None? {
        var _ := cache.Add(name, ns);
      }
    }

    // virtualToRealName, which throws on a name too long, and the driver's createDoc.
    method Write(name: Path, ns: string, content: Json) returns (error: Option<StoreError>)
      requires Valid() && ValidName(name) && PlainPart(ns) && name !in cache.nameToNs
      modifies driver
      ensures error == old(CreateFailure(Seen().docs, name, ns, content))
      ensures IsTree(driver.nodes) && Clean(driver.nodes)
      ensures error.Some? ==> driver.nodes == old(driver.nodes)
      ensures error.None? ==> Linked(cache.nameToNs[name := ns], Files(driver.nodes))
      ensures error.None? ==> ViewOf(cache.nameToNs[name := ns], Files(driver.nodes)) ==
                              View(old(Seen()).docs[name := Entry(ns, content)], old(Seen()).internals)
    {
      if |name| > MAX_VIRTUAL_PARTS {
        return Some(Driver(NameTooLong));
      }
      ghost var t := driver.nodes;
      var rName := Real(ns, name);
      RealValid(ns, name);
      var e := driver.CreateDoc(rName, content);
      WriteLinks(cache.nameToNs, t, driver.nodes, ns, name, content, e);
      return LiftError(e);
    }

    method UpdateDoc(name: Path, content: Json) returns (error: Option<StoreError>)
      requires Valid() && ValidOp(Update(name, content))
      modifies driver
      ensures Valid()
      ensures error == old(Refusal(Seen(), Update(name, content)))
      ensures Seen() == old(Apply(Seen(), Update(name, content)))
      ensures error.None? <==> name in old(Seen()).docs && !HasDuplicateKeys(content)
      ensures error.None? ==>
                Seen() == View(old(Seen()).docs[name := Entry(old(Seen()).docs[name].ns, content)],
                               old(Seen()).internals)
      ensures error.Some? ==> Seen() == old(Seen())
    {
      UpdateLaw(Seen(), name, content);
      var ns := cache.GetNamespaceId(name);
      if ns.None? {
        return Some(DocumentMissing);
      }
      error := Rewrite(name, content);
    }

    // The driver's updateDoc on a document that is indexed.
    method Rewrite(name: Path, content: Json) returns (error: Option<StoreError>)
      requires Valid() && name in cache.nameToNs
      modifies driver
      ensures Valid()
      ensures error == if HasDuplicateKeys(content) then Some(Driver(DuplicateKeys)) else None
      ensures Seen() == if error.Some? then old(Seen())
                        else View(old(Seen()).docs[name := Entry(cache.nameToNs[name], content)], old(Seen()).internals)
    {
      ghost var t := driver.nodes;
      var rName := Real(cache.nameToNs[name], name);
      assert rName in Files(t);
      var e := driver.UpdateDoc(rName, content);
      RewriteLinks(cache.nameToNs, t, driver.nodes, name, content, e);
      return LiftError(e);
    }

    method UpsertDoc(name: Path, ns: string, content: Json) returns (error: Option<StoreError>)
      requires Valid() && ValidOp(Upsert(name, ns, content))
      modifies driver, cache
      ensures Valid()
      ensures error == old(Refusal(Seen(), Upsert(name, ns, content)))
      ensures Seen() == old(Apply(Seen(), Upsert(name, ns, content)))
      ensures name in old(Seen()).docs ==>
                (error.None? <==> old(Seen()).docs[name].ns == ns && !HasDuplicateKeys(content))
      ensures name !in old(Seen()).docs ==>
                (error.None? <==>
                   && |name| <= 8 && !HasDuplicateKeys(content)
                   && forall w :: w in old(Seen()).docs && old(Seen()).docs[w].ns == ns ==> !(name < w) && !(w < name))
      ensures error.None? ==> Seen() == View(old(Seen()).docs[name := Entry(ns, content)], old(Seen()).internals)
      ensures error.Some? ==> Seen() == old(Seen())
    {
      UpsertLaw(Seen(), name, ns, content);
      var cached := cache.GetNamespaceId(name);
      if cached.Some? && cached.value != ns {
        return Some(OtherNamespace);
      }
      ghost var index := cache.nameToNs[name := ns];
      assert cached.Some? ==> cache.nameToNs == index;
      error := DriverUpsert(name, ns, content);
      if error.Some? {
        return error;
      }
      if cached.None? {
        var _ := cache.Add(name, ns);
      }
      assert cache.nameToNs == index;
    }

    // The driver's upsertDoc: createDoc or updateDoc, as the file exists or not.
    method DriverUpsert(name: Path, ns: string, content: Json) returns (error: Option<StoreError>)
      requires Valid() && ValidName(name) && PlainPart(ns)
      requires name in cache.nameToNs ==> cache.nameToNs[name] == ns
      modifies driver
      ensures error == old(Refusal(Seen(), Upsert(name, ns, content)))
      ensures IsTree(driver.nodes) && Clean(driver.nodes)
      ensures error.Some? ==> driver.nodes == old(driver.nodes)
      ensures error.None? ==> Linked(cache.nameToNs[name := ns], Files(driver.nodes))
      ensures error.None? ==> ViewOf(cache.nameToNs[name := ns], Files(driver.nodes)) ==
                              View(old(Seen()).docs[name := Entry(ns, content)], old(Seen()).internals)
    {
      if |name| > MAX_VIRTUAL_PARTS {
        TooLongMissing(cache.nameToNs, Files(driver.nodes), name);
        return Some(Driver(NameTooLong));
      }
      ghost var t := driver.nodes;
      var rName := Real(ns, name);
      RealValid(ns, name);
      var e := driver.UpsertDoc(rName, content);
      UpsertLinks(cache.nameToNs, t, driver.nodes, ns, name, content, e);
      return LiftError(e);
    }

    method DeleteDoc(name: Path) returns (error: Option<StoreError>)
      requires Valid() && ValidOp(Delete(name))
      modifies driver, cache
      ensures Valid()
      ensures error == old(Refusal(Seen(), Delete(name)))
      ensures Seen() == old(Apply(Seen(), Delete(name)))
      ensures error.None? <==> name in old(Seen()).docs
      ensures Seen() == View(old(Seen()).docs - {name}, old(Seen()).internals)
    {
      DeleteLaw(Seen(), name);
      var ns := cache.GetNamespaceId(name);
      if ns.None? {
        return Some(DocumentMissing);
      }
      var rName := Real(ns.value, name);
      assert rName in Files(driver.nodes);
      EraseOne(cache.nameToNs, Files(driver.nodes), name);
      var e := driver.DeleteDoc(rName);
      if e.Some? {
        return LiftError(e);
      }
      cache.Del(name);
      return None;
    }

    method DeleteCol(name: Path, ns: string) returns (error: Option<StoreError>)
      requires Valid() && ValidOp(StoreView.DeleteCol(name, ns))
      modifies driver, cache
      ensures Valid()
      ensures error == old(Refusal(Seen(), StoreView.DeleteCol(name, ns)))
      ensures Seen() == old(Apply(Seen(), StoreView.DeleteCol(name, ns)))
      ensures error.None? <==> exists w :: w in old(Seen()).docs && old(Seen()).docs[w].ns == ns && name < w
      ensures Seen().internals == old(Seen()).internals
      ensures forall w :: w in Seen().docs <==>
                w in old(Seen()).docs && !(old(Seen()).docs[w].ns == ns && name < w)
      ensures forall w :: w in Seen().docs ==> Seen().docs[w] == old(Seen()).docs[w]
    {
      DeleteColLaw(Seen(), name, ns);
      var names := cache.FilterByPrefix(name, ns);
      FilterSeen(cache.nameToNs, Files(driver.nodes), name, ns, names);
      if names == [] {
        return Some(CollectionMissing);
      }
      error := EraseCol(name, ns);
    }

    // The driver's deleteCol and the index, for a collection that has documents.
    method EraseCol(name: Path, ns: string) returns (error: Option<StoreError>)
      requires Valid() && ValidOp(StoreView.DeleteCol(name, ns)) && HasBelow(Seen().docs, ns, name)
      modifies driver, cache
      ensures Valid() && error.None?
      ensures Seen() == old(Apply(Seen(), StoreView.DeleteCol(name, ns)))
    {
      error := DriverDeleteCol(name, ns);
      if error.Some? {
        return error;
      }
      cache.DelCol(name, ns);
    }

    // The driver's deleteCol on a collection that has indexed documents.
    method DriverDeleteCol(name: Path, ns: string) returns (error: Option<StoreError>)
      requires Valid() && ValidName(name) && PlainPart(ns) && HasBelow(Seen().docs, ns, name)
      modifies driver
      ensures error.None?
      ensures IsTree(driver.nodes) && Clean(driver.nodes)
      ensures var m := map n | n in cache.nameToNs && !(cache.nameToNs[n] == ns && Below(name, n)) :: cache.nameToNs[n];
              && Linked(m, Files(driver.nodes))
              && ViewOf(m, Files(driver.nodes)) ==
                 View(map n | n in m :: old(Seen()).docs[n], old(Seen()).internals)
    {
      var rName := Real(ns, name);
      CollectionSeen(cache.nameToNs, driver.nodes, ns, name);
      EraseCollection(cache.nameToNs, Files(driver.nodes), name, ns);
      BelowFits(cache.nameToNs, Files(driver.nodes), name, ns);
      var e := driver.DeleteCol(rName);
      return LiftError(e);
    }

    function GetNamespace(name: Path): (ns: Option<string>)
      requires Valid()
      reads this, driver, cache
      ensures ns == if name in Seen().docs then Some(Seen().docs[name].ns) else None
    {
      cache.GetNamespaceId(name)
    }

    predicate ExistsDoc(name: Path)
      requires Valid()
      reads this, driver, cache
      ensures ExistsDoc(name) <==> name in Seen().docs
    {
      cache.ExistsName(name)
    }

    method ExistsCol(name: Path, ns: string) returns (found: bool)
      requires Valid()
      ensures found <==> HasBelow(Seen().docs, ns, name)
    {
      var names := cache.FilterByPrefix(name, ns);
      FilterSeen(cache.nameToNs, Files(driver.nodes), name, ns, names);
      return names != [];
    }

    // Answered from the index alone, yet it is the listing of one directory of the tree.
    method ReadCol(name: Path, ns: string) returns (r: Result<seq<Path>, StoreError>)
      requires Valid() && ValidName(name) && PlainPart(ns)
      ensures r.Success? <==> IsDir(driver.nodes, Real(ns, name))
      ensures r.Success? <==> HasBelow(Seen().docs, ns, name)
      ensures r.Failure? ==> r.error == CollectionMissing
      ensures r.Success? ==> StrictlySorted(r.value)
      ensures r.Success? ==> forall n :: n in r.value <==> Real(ns, n) in Entries(driver.nodes, Real(ns, name))
      ensures r.Success? ==> forall q :: q in Entries(driver.nodes, Real(ns, name)) ==> q == Real(ns, q[2..])
    {
      var names := cache.FilterByPrefix(name, ns);
      FilterSeen(cache.nameToNs, Files(driver.nodes), name, ns, names);
      CollectionSeen(cache.nameToNs, driver.nodes, ns, name);
      if names == [] {
        return Failure(CollectionMissing);
      }
      var cut := CutName(names, |name|);
      forall n ensures n in Cuts(names, |name|) <==> Real(ns, n) in Entries(driver.nodes, Real(ns, name)) {
        CutIsEntry(cache.nameToNs, driver.nodes, name, ns, names, n);
      }
      forall q | q in Entries(driver.nodes, Real(ns, name)) ensures q == Real(ns, q[2..]) {
        BelowReal(ns, name, q);
      }
      return Success(cut);
    }

    method CreateInternalDoc(name: Path, content: Json) returns (error: Option<StoreError>)
      requires Valid() && ValidOp(CreateInternal(name, content))
      modifies driver
      ensures Valid()
      ensures error == old(Refusal(Seen(), CreateInternal(name, content)))
      ensures Seen() == old(Apply(Seen(), CreateInternal(name, content)))
      ensures error.None? <==>
                && name[0] != "namespaces" && !HasDuplicateKeys(content)
                && forall w :: w in old(Seen()).internals ==> !(name <= w) && !(w < name)
      ensures error.None? ==> Seen() == View(old(Seen()).docs, old(Seen()).internals[name := content])
      ensures error.Some? ==> Seen() == old(Seen())
    {
      CreateInternalLaw(Seen(), name, content);
      if name[0] == NAMESPACES {
        return Some(ReservedName);
      }
      ghost var t := driver.nodes;
      var e := driver.CreateDoc(name, content);
      CreateInternalLinks(cache.nameToNs, t, driver.nodes, name, content, e);
      return LiftError(e);
    }

    // Not restricted like the internal writes: a real name reads the document of a namespace.
    method ReadInternalDoc(name: Path) returns (r: Result<Json, StoreError>)
      requires Valid() && ValidName(name)
      ensures r.Success? && !Reserved(name) <==> name in Seen().internals
      ensures r.Success? && !Reserved(name) ==> r.value == Seen().internals[name]
      ensures forall ns, v :: name == Real(ns, v) ==>
                (r.Success? <==> v in Seen().docs && Seen().docs[v].ns == ns)
      ensures forall ns, v :: name == Real(ns, v) && r.Success? ==> r.value == Seen().docs[v].doc
    {
      var doc := driver.ReadDoc(name);
      assert name in Files(driver.nodes) <==> IsFile(driver.nodes, name);
      return Lift(doc);
    }

    method UpdateInternalDoc(name: Path, content: Json) returns (error: Option<StoreError>)
      requires Valid() && ValidOp(UpdateInternal(name, content))
      modifies driver
      ensures Valid()
      ensures error == old(Refusal(Seen(), UpdateInternal(name, content)))
      ensures Seen() == old(Apply(Seen(), UpdateInternal(name, content)))
      ensures error.None? <==>
                name[0] != "namespaces" && name in old(Seen()).internals && !HasDuplicateKeys(content)
      ensures error.None? ==> Seen() == View(old(Seen()).docs, old(Seen()).internals[name := content])
      ensures error.Some? ==> Seen() == old(Seen())
    {
      UpdateInternalLaw(Seen(), name, content);
      if name[0] == NAMESPACES {
        return Some(ReservedName);
      }
      ghost var t := driver.nodes;
      var e := driver.UpdateDoc(name, content);
      UpdateInternalLinks(cache.nameToNs, t, driver.nodes, name, content, e);
      return LiftError(e);
    }

    method UpsertInternalDoc(name: Path, content: Json) returns (error: Option<StoreError>)
      requires Valid() && ValidOp(UpsertInternal(name, content))
      modifies driver
      ensures Valid()
      ensures error == old(Refusal(Seen(), UpsertInternal(name, content)))
      ensures Seen() == old(Apply(Seen(), UpsertInternal(name, content)))
      ensures error.None? <==>
                && name[0] != "namespaces" && !HasDuplicateKeys(content)
                && (name in old(Seen()).internals ||
                    forall w :: w in old(Seen()).internals ==> !(name <= w) && !(w < name))
      ensures error.None? ==> Seen() == View(old(Seen()).docs, old(Seen()).internals[name := content])
      ensures error.Some? ==> Seen() == old(Seen())
    {
      UpsertInternalLaw(Seen(), name, content);
      if name[0] == NAMESPACES {
        return Some(ReservedName);
      }
      error := WriteInternal(name, content);
    }

    // The driver's updateDoc or createDoc, as the file exists or not.
    method WriteInternal(name: Path, content: Json) returns (error: Option<StoreError>)
      requires Valid() && ValidOp(UpsertInternal(name, content)) && name[0] != NAMESPACES
      modifies driver
      ensures Valid()
      ensures error == old(Refusal(Seen(), UpsertInternal(name, content)))
      ensures Seen() == old(Apply(Seen(), UpsertInternal(name, content)))
    {
      InternalSeen(cache.nameToNs, driver.nodes, name);
      if driver.ExistsDoc(name) {
        error := UpdateInternalDoc(name, content);
      } else {
        error := CreateInternalDoc(name, content);
      }
    }

    method DeleteInternalDoc(name: Path) returns (error: Option<StoreError>)
      requires Valid() && ValidOp(DeleteInternal(name))
      modifies driver
      ensures Valid()
      ensures error == old(Refusal(Seen(), DeleteInternal(name)))
      ensures Seen() == old(Apply(Seen(), DeleteInternal(name)))
      ensures error.None? <==> name[0] != "namespaces" && name in old(Seen()).internals
      ensures Seen() == if error.None? then View(old(Seen()).docs, old(Seen()).internals - {name}) else old(Seen())
    {
      DeleteInternalLaw(Seen(), name);
      if name[0] == NAMESPACES {
        return Some(ReservedName);
      }
      InternalSeen(cache.nameToNs, driver.nodes, name);
      LinkInternalErase(cache.nameToNs, Files(driver.nodes), name);
      var e := driver.DeleteDoc(name);
      return LiftError(e);
    }
  }

  // The names cut from the index are the entries of the directory.
  lemma CutIsEntry(index: map<Path, string>, t: Tree, name: Path, ns: string, names: seq<Path>, n: Path)
    requires IsTree(t) && Clean(t) && Linked(index, Files(t)) && name != []
    requires forall w :: w in names <==> w in index && index[w] == ns && Below(name, w)
    ensures n in Cuts(names, |name|) <==> Real(ns, n) in Entries(t, Real(ns, name))
  {
    RealWithin(ns, name, n);
    if n in Cuts(names, |name|) {
      var w :| w in names && |w| > |name| && w[..|name| + 1] == n;
      RealWithin(ns, n, w);
      assert Real(ns, w) in Files(t);
      assert n != w ==> Below(Real(ns, n), Real(ns, w));
    }
    if Real(ns, n) in Entries(t, Real(ns, name)) {
      var w := DocumentAt(index, t, ns, n);
      WithinTransitive(name, n, w);
      assert w in names && w[..|name| + 1] == n;
    }
  }

  // Whatever stands at a real name leads to a document of its namespace.
  lemma DocumentAt(index: map<Path, string>, t: Tree, ns: string, n: Path) returns (w: Path)
    requires IsTree(t) && Clean(t) && Linked(index, Files(t)) && n != []
    requires Real(ns, n) in t
    ensures w in index && index[w] == ns && Within(n, w)
  {
    if IsFile(t, Real(ns, n)) {
      assert Real(ns, n) in Files(t);
      w := n;
    } else {
      assert IsDir(t, Real(ns, n));
      var q :| IsFile(t, q) && Below(Real(ns, n), q);
      BelowReal(ns, n, q);
      assert Real(ns, q[2..]) in Files(t);
      w := q[2..];
    }
  }

  lemma LinkInternalWrite(index: map<Path, string>, files: map<Path, Json>, p: Path, doc: Json, f: map<Path, Json>)
    requires Linked(index, files) && ValidName(p) && !Reserved(p) && f == files[p := doc]
    ensures Linked(index, f)
    ensures ViewOf(index, f) == View(ViewOf(index, files).docs, ViewOf(index, files).internals[p := doc])
  {
    LinkInternal(index, files, f);
    InternalsWrite(files, p, doc, f);
  }

  lemma InternalsWrite(files: map<Path, Json>, p: Path, doc: Json, f: map<Path, Json>)
    requires !Reserved(p) && f == files[p := doc]
    ensures Internals(f) == Internals(files)[p := doc]
  {
  }

  lemma CreateInternalLinks(index: map<Path, string>, t: Tree, u: Tree, p: Path, doc: Json, e: Option<DriverError>)
    requires IsTree(t) && Clean(t) && Linked(index, Files(t)) && ValidOp(CreateInternal(p, doc)) && !Reserved(p)
    requires e == CreateError(t, p, doc)
    requires if e.None? then Files(u) == Files(t)[p := doc] else u == t
    ensures Linked(index, Files(u))
    ensures var view, op := ViewOf(index, Files(t)), CreateInternal(p, doc);
            LiftError(e) == Refusal(view, op) && ViewOf(index, Files(u)) == Apply(view, op)
  {
    InternalSeen(index, t, p);
    ghost var view := ViewOf(index, Files(t));
    assert (exists w :: w in view.internals && Within(p, w)) <==> p in t by {
      if w :| w in view.internals && Within(p, w) { assert w == p || Below(p, w); }
      if w :| w in view.internals && Below(p, w) { assert Within(p, w); }
      if p in view.internals { assert Within(p, p); }
    }
    assert LiftError(e) == Refusal(view, CreateInternal(p, doc));
    if e.None? { LinkInternalWrite(index, Files(t), p, doc, Files(u)); }
  }

  lemma UpdateInternalLinks(index: map<Path, string>, t: Tree, u: Tree, p: Path, doc: Json, e: Option<DriverError>)
    requires IsTree(t) && Clean(t) && Linked(index, Files(t)) && ValidOp(UpdateInternal(p, doc)) && !Reserved(p)
    requires e == UpdateError(t, p, doc)
    requires if e.None? then Files(u) == Files(t)[p := doc] else u == t
    ensures Linked(index, Files(u))
    ensures var view, op := ViewOf(index, Files(t)), UpdateInternal(p, doc);
            LiftError(e) == Refusal(view, op) && ViewOf(index, Files(u)) == Apply(view, op)
  {
    InternalSeen(index, t, p);
    assert LiftError(e) == Refusal(ViewOf(index, Files(t)), UpdateInternal(p, doc));
    if e.None? { LinkInternalWrite(index, Files(t), p, doc, Files(u)); }
  }

  lemma LinkInternalErase(index: map<Path, string>, files: map<Path, Json>, p: Path)
    requires Linked(index, files) && ValidName(p) && !Reserved(p)
    ensures Linked(index, files - {p})
    ensures ViewOf(index, files - {p}) == View(ViewOf(index, files).docs, ViewOf(index, files).internals - {p})
  {
    LinkInternal(index, files, files - {p});
    InternalsErase(files, p);
  }

  lemma InternalsErase(files: map<Path, Json>, p: Path)
    ensures Internals(files - {p}) == Internals(files) - {p}
  {
  }

  // What a client sees is what lies in the tree: a document of a namespace below "namespaces" and its name, and every
  // other document by its own name.
  lemma SeenIsTree(store: Store)
    requires store.Valid()
    ensures forall ns, v :: v in store.Seen().docs && store.Seen().docs[v].ns == ns <==>
              ["namespaces", ns] + v in store.driver.nodes && store.driver.nodes[["namespaces", ns] + v].File?
    ensures forall v :: v in store.Seen().docs ==>
              store.driver.nodes[["namespaces", store.Seen().docs[v].ns] + v] == File(store.Seen().docs[v].doc)
    ensures forall p :: p in store.Seen().internals <==>
              p in store.driver.nodes && store.driver.nodes[p].File? && p != [] && p[0] != "namespaces"
    ensures forall p :: p in store.Seen().internals ==> store.driver.nodes[p] == File(store.Seen().internals[p])
  {
    var files := Files(store.driver.nodes);
    forall ns, v
      ensures Real(ns, v) == ["namespaces", ns] + v
      ensures Real(ns, v) in files <==> IsFile(store.driver.nodes, Real(ns, v))
    {
    }
  }

  // A name with documents below it fits once it is real.
  lemma BelowFits(index: map<Path, string>, files: map<Path, Json>, name: Path, ns: string)
    requires Linked(index, files) && ValidName(name) && PlainPart(ns)
    requires HasBelow(ViewOf(index, files).docs, ns, name)
    ensures ValidName(Real(ns, name))
  {
    var w :| w in index && index[w] == ns && Below(name, w);
    assert ValidName(Real(ns, w));
    RealValid(ns, name);
  }

  lemma TooLongMissing(index: map<Path, string>, files: map<Path, Json>, name: Path)
    requires Linked(index, files) && |name| > MAX_VIRTUAL_PARTS
    ensures name !in index
  {
    assert name in index ==> Real(index[name], name) in files;
  }

  lemma WriteLinks(index: map<Path, string>, t: Tree, u: Tree, ns: string, name: Path, doc: Json,
                   e: Option<DriverError>)
    requires IsTree(t) && Clean(t) && Linked(index, Files(t)) && name !in index
    requires ValidName(name) && PlainPart(ns) && |name| <= MAX_VIRTUAL_PARTS
    requires e == CreateError(t, Real(ns, name), doc)
    requires if e.None? then Files(u) == Files(t)[Real(ns, name) := doc] else u == t
    ensures LiftError(e) == CreateFailure(ViewOf(index, Files(t)).docs, name, ns, doc)
    ensures var view := ViewOf(index, Files(t));
            e.None? ==>
              && Linked(index[name := ns], Files(u))
              && ViewOf(index[name := ns], Files(u)) == View(view.docs[name := Entry(ns, doc)], view.internals)
  {
    assert Real(ns, name) !in Files(t);
    CollectionSeen(index, t, ns, name);
    BlockSeen(index, t, ns, name);
    if e.None? {
      RealValid(ns, name);
      LinkWrite(index, Files(t), ns, name, doc);
    }
  }

  lemma UpsertLinks(index: map<Path, string>, t: Tree, u: Tree, ns: string, name: Path, doc: Json,
                    e: Option<DriverError>)
    requires IsTree(t) && Clean(t) && Linked(index, Files(t)) && (name in index ==> index[name] == ns)
    requires ValidName(name) && PlainPart(ns) && |name| <= MAX_VIRTUAL_PARTS
    requires e == if IsFile(t, Real(ns, name)) then UpdateError(t, Real(ns, name), doc)
                  else CreateError(t, Real(ns, name), doc)
    requires if e.None? then Files(u) == Files(t)[Real(ns, name) := doc] else u == t
    ensures LiftError(e) == Refusal(ViewOf(index, Files(t)), Upsert(name, ns, doc))
    ensures var view := ViewOf(index, Files(t));
            e.None? ==>
              && Linked(index[name := ns], Files(u))
              && ViewOf(index[name := ns], Files(u)) == View(view.docs[name := Entry(ns, doc)], view.internals)
  {
    assert Real(ns, name) in Files(t) <==> name in index;
    if name in index {
      RewriteLinks(index, t, u, name, doc, e);
      assert index[name := ns] == index;
    } else {
      WriteLinks(index, t, u, ns, name, doc, e);
    }
  }

  lemma RewriteLinks(index: map<Path, string>, t: Tree, u: Tree, name: Path, doc: Json, e: Option<DriverError>)
    requires Linked(index, Files(t)) && name in index
    requires e == UpdateError(t, Real(index[name], name), doc)
    requires if e.None? then Files(u) == Files(t)[Real(index[name], name) := doc] else u == t
    ensures Linked(index, Files(u))
    ensures LiftError(e) == if HasDuplicateKeys(doc) then Some(Driver(DuplicateKeys)) else None
    ensures var view := ViewOf(index, Files(t));
            ViewOf(index, Files(u)) ==
            if e.Some? then view else View(view.docs[name := Entry(index[name], doc)], view.internals)
  {
    assert Real(index[name], name) in Files(t);
    assert index[name := index[name]] == index;
    LinkWrite(index, Files(t), index[name], name, doc);
  }

  lemma EraseOne(index: map<Path, string>, files: map<Path, Json>, name: Path)
    requires Linked(index, files) && name in index
    ensures Linked(index - {name}, files - {Real(index[name], name)})
    ensures ViewOf(index - {name}, files - {Real(index[name], name)}) ==
            View(ViewOf(index, files).docs - {name}, ViewOf(index, files).internals)
  {
    var m, f := index - {name}, files - {Real(index[name], name)};
    forall ns, v | Real(ns, v) in files ensures Real(ns, v) in f <==> v in m {
      RealInjective(ns, v, index[name], name);
    }
    RealReserved(index[name], name);
    LinkErase(index, files, m, f);
  }

  lemma EraseCollection(index: map<Path, string>, files: map<Path, Json>, name: Path, ns: string)
    requires Linked(index, files)
    ensures var m := map n | n in index && !(index[n] == ns && Below(name, n)) :: index[n];
            var f := map q | q in files && !Below(Real(ns, name), q) :: files[q];
            && Linked(m, f)
            && ViewOf(m, f) == View(map n | n in m :: ViewOf(index, files).docs[n], ViewOf(index, files).internals)
  {
    var m := map n | n in index && !(index[n] == ns && Below(name, n)) :: index[n];
    var f := map q | q in files && !Below(Real(ns, name), q) :: files[q];
    forall ms, v | Real(ms, v) in files ensures Real(ms, v) in f <==> v in m {
      BelowOther(ns, name, ms, v);
    }
    forall p | Below(Real(ns, name), p) ensures Reserved(p) {
      assert p[0] == Real(ns, name)[0];
    }
    LinkErase(index, files, m, f);
  }

  lemma BelowOther(ns: string, name: Path, ms: string, v: Path)
    ensures Below(Real(ns, name), Real(ms, v)) <==> ns == ms && Below(name, v)
  {
    if Within(Real(ns, name), Real(ms, v)) {
      assert Real(ns, name)[1] == Real(ms, v)[1];
    }
    RealWithin(ns, name, v);
  }

  lemma FilterSeen(index: map<Path, string>, files: map<Path, Json>, name: Path, ns: string, names: seq<Path>)
    requires Linked(index, files)
    requires forall n :: multiset(names)[n] == if n in index && index[n] == ns && Below(name, n) then 1 else 0
    ensures names != [] <==> HasBelow(ViewOf(index, files).docs, ns, name)
    ensures forall n :: n in names <==> n in index && index[n] == ns && Below(name, n)
  {
    forall n ensures n in names <==> n in index && index[n] == ns && Below(name, n) {
      assert n in names <==> multiset(names)[n] > 0;
    }
    if names != [] { assert names[0] in names; }
  }

  lemma RealValid(ns: string, name: Path)
    requires ValidName(name) && PlainPart(ns) && |name| <= MAX_VIRTUAL_PARTS
    ensures ValidName(Real(ns, name))
  {
    assert PlainPart(NAMESPACES);
  }
}
