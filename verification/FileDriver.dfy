/** store/drivers/fileDriver: one document per file, one directory per collection. */
module FileDrivers {
  import opened Wrappers
  import opened Names
  import opened JsonModel
  import opened FileTree

  datatype DriverError =
    | DuplicateKeys
    | AlreadyExists
    | CannotCreateDirectory
    | NotFound
    | IsADirectory
    | NotADirectory
    | NameTooLong // thrown by base::Name

  function CreateError(t: Tree, name: Path, content: Json): Option<DriverError> {
    if HasDuplicateKeys(content) then Some(DuplicateKeys)
    else if name in t then Some(AlreadyExists)
    else if Blocked(t, name) then Some(CannotCreateDirectory)
    else None
  }

  function UpdateError(t: Tree, name: Path, content: Json): Option<DriverError> {
    if HasDuplicateKeys(content) then Some(DuplicateKeys)
    else if name !in t then Some(NotFound)
    else if t[name].Dir? then Some(IsADirectory)
    else None
  }

  class FileDriver {
    var nodes: Tree

    // FileDriver(path, create) on a path that did not exist before.
    constructor ()
      ensures IsTree(nodes) && Clean(nodes) && Files(nodes) == map[]
    {
      nodes := map[[] := Dir];
    }

    method CreateDoc(name: Path, content: Json) returns (error: Option<DriverError>)
      requires IsTree(nodes) && ValidName(name)
      modifies this
      ensures error == CreateError(old(nodes), name, content)
      ensures error.None? <==>
                && !HasDuplicateKeys(content) && name !in old(nodes)
                && forall q :: q in old(nodes) && old(nodes)[q].File? ==> !(q < name)
      ensures nodes == if error.None? then PutFile(old(nodes), name, content) else old(nodes)
      ensures error.None? ==> forall q :: q in nodes <==> q in old(nodes) || q <= name
      ensures error.None? ==> nodes[name] == File(content)
      ensures error.None? ==> forall q :: q in nodes && q != name ==>
                nodes[q] == if q in old(nodes) then old(nodes)[q] else Dir
      ensures IsTree(nodes) && (old(Clean(nodes)) ==> Clean(nodes))
      ensures error.None? ==> Files(nodes) == old(Files(nodes))[name := content]
    {
      var duplicate := CheckDuplicateKeys(content);
      if duplicate.Some? {
        return Some(DuplicateKeys);
      } else if name in nodes {
        return Some(AlreadyExists);
      }
      if Blocked(nodes, Parent(name)) || IsFile(nodes, Parent(name)) {
        assert Blocked(nodes, name) by {
          if IsFile(nodes, Parent(name)) {
            assert Below(Parent(name), name);
          } else {
            var q :| q in nodes && nodes[q].File? && Below(q, Parent(name));
            assert Below(q, name);
          }
        }
        return Some(CannotCreateDirectory);
      }
      assert !Blocked(nodes, name) by {
        forall q | IsFile(nodes, q) ensures !Below(q, name) { BelowParent(name, q); }
      }
      PutFileKeeps(nodes, name, content);
      PutFileLaw(nodes, name, content);
      nodes := MakeDirs(nodes, Parent(name));
      nodes := nodes[name := File(content)];
      return None;
    }

    method ReadDoc(name: Path) returns (r: Result<Json, DriverError>)
      requires ValidName(name)
      ensures r.Success? <==> name in Files(nodes)
      ensures r.Success? ==> r.value == Files(nodes)[name]
      ensures r.Failure? ==> r.error == if IsDir(nodes, name) then IsADirectory else NotFound
    {
      if name !in nodes {
        return Failure(NotFound);
      }
      if IsDir(nodes, name) {
        return Failure(IsADirectory);
      }
      return Success(nodes[name].doc);
    }

    method UpdateDoc(name: Path, content: Json) returns (error: Option<DriverError>)
      requires IsTree(nodes) && ValidName(name)
      modifies this
      ensures error == UpdateError(old(nodes), name, content)
      ensures error.None? <==> !HasDuplicateKeys(content) && name in old(nodes) && old(nodes)[name].File?
      ensures nodes == if error.None? then old(nodes)[name := File(content)] else old(nodes)
      ensures IsTree(nodes) && (old(Clean(nodes)) ==> Clean(nodes))
      ensures error.None? ==> Files(nodes) == old(Files(nodes))[name := content]
    {
      var duplicate := CheckDuplicateKeys(content);
      if duplicate.Some? {
        return Some(DuplicateKeys);
      }
      if name !in nodes {
        return Some(NotFound);
      }
      if IsDir(nodes, name) {
        return Some(IsADirectory);
      }
      RewriteKeeps(nodes, name, content);
      nodes := nodes[name := File(content)];
      return None;
    }

    method UpsertDoc(name: Path, content: Json) returns (error: Option<DriverError>)
      requires IsTree(nodes) && ValidName(name)
      modifies this
      ensures error == if old(IsFile(nodes, name)) then UpdateError(old(nodes), name, content)
                       else CreateError(old(nodes), name, content)
      ensures error.Some? ==> nodes == old(nodes)
      ensures error.None? ==> nodes == if old(IsFile(nodes, name)) then old(nodes)[name := File(content)]
                                       else PutFile(old(nodes), name, content)
      ensures IsTree(nodes) && (old(Clean(nodes)) ==> Clean(nodes))
      ensures error.None? ==> Files(nodes) == old(Files(nodes))[name := content]
    {
      if ExistsDoc(name) {
        error := UpdateDoc(name, content);
      } else {
        error := CreateDoc(name, content);
      }
    }

    // Removes the directories left empty above path, from its parent upwards, never the root.
    method RemoveEmptyParentDirs(path: Path)
      requires path != [] && IsTree(nodes) && IsDir(nodes, Parent(path))
      modifies this
      ensures nodes == Prune(old(nodes), Parent(path))
    {
      ghost var t, cur := nodes, Parent(path);
      var current := Parent(path);
      while current != [] && IsEmptyDir(nodes, current)
        invariant Within(current, cur)
        invariant forall q :: q in nodes <==> q in t && !(Within(q, cur) && Below(current, q))
        invariant forall q :: q in nodes ==> nodes[q] == t[q]
        invariant forall q :: q in t && Within(q, cur) && Below(current, q) ==> LeftEmpty(t, cur, q)
        decreases |current|
      {
        EmptyStep(t, nodes, cur, current);
        forall q | Within(q, cur) ensures Below(Parent(current), q) <==> q == current || Below(current, q) {
          PrefixesCompare(current, q, cur);
          PrefixesCompare(q, current, cur);
          assert Below(Parent(current), current);
        }
        nodes := nodes - {current};
        current := Parent(current);
      }
      PruneReached(t, nodes, cur, current);
    }

    // remove_all, and the directories left empty.
    method RemoveAll(path: Path)
      requires IsTree(nodes) && path in nodes && path != []
      modifies this
      ensures nodes == Erase(old(nodes), path)
    {
      SubtreeRemoved(nodes, path);
      nodes := nodes - Subtree(nodes, path);
      RemoveEmptyParentDirs(path);
    }

    method DeleteDoc(name: Path) returns (error: Option<DriverError>)
      requires IsTree(nodes) && ValidName(name)
      modifies this
      ensures error == if name in old(nodes) && old(nodes)[name].File? then None else Some(NotFound)
      ensures error.None? ==> forall q :: q in nodes <==>
                && q in old(nodes) && !(name <= q)
                && !(q != [] && q < name && forall r :: r in old(nodes) && q <= r ==> r <= name || name <= r)
      ensures forall q :: q in nodes ==> q in old(nodes) && nodes[q] == old(nodes)[q]
      ensures nodes == if error.None? then Erase(old(nodes), name) else old(nodes)
      ensures IsTree(nodes) && (old(Clean(nodes)) ==> Clean(nodes))
      ensures error.None? ==> Files(nodes) == old(Files(nodes)) - {name}
    {
      if !ExistsDoc(name) {
        return Some(NotFound);
      }
      EraseFile(nodes, name);
      EraseLaw(nodes, name);
      RemoveAll(name);
      return None;
    }

    method DeleteCol(name: Path) returns (error: Option<DriverError>)
      requires IsTree(nodes) && ValidName(name)
      modifies this
      ensures error == if name !in old(nodes) then Some(NotFound)
                       else if old(nodes)[name].File? then Some(NotADirectory) else None
      ensures error.None? ==> forall q :: q in nodes <==>
                && q in old(nodes) && !(name <= q)
                && !(q != [] && q < name && forall r :: r in old(nodes) && q <= r ==> r <= name || name <= r)
      ensures forall q :: q in nodes ==> q in old(nodes) && nodes[q] == old(nodes)[q]
      ensures nodes == if error.None? then Erase(old(nodes), name) else old(nodes)
      ensures IsTree(nodes) && (old(Clean(nodes)) ==> Clean(nodes))
      ensures error.None? ==>
                Files(nodes) == map q | q in old(Files(nodes)) && !Below(name, q) :: old(Files(nodes))[q]
    {
      if name !in nodes {
        return Some(NotFound);
      }
      if !IsDir(nodes, name) {
        return Some(NotADirectory);
      }
      EraseKeeps(nodes, name);
      EraseLaw(nodes, name);
      RemoveAll(name);
      return None;
    }

    // directory_iterator: every entry once, in no particular order.
    method ReadCol(name: Path) returns (r: Result<seq<Path>, DriverError>)
      requires ValidName(name)
      ensures r.Failure? <==> !IsDir(nodes, name) || (|name| == MAX_PARTS && !IsEmptyDir(nodes, name))
      ensures r.Failure? ==> r.error == if name !in nodes then NotFound
                                        else if nodes[name].File? then NotADirectory else NameTooLong
      ensures r.Success? ==> multiset(r.value) == multiset(Entries(nodes, name))
    {
      if name !in nodes {
        return Failure(NotFound);
      }
      if !IsDir(nodes, name) {
        return Failure(NotADirectory);
      }
      var names, rest := [], Entries(nodes, name);
      while rest != {}
        invariant multiset(names) + multiset(rest) == multiset(Entries(nodes, name))
        invariant rest <= Entries(nodes, name)
        invariant |name| == MAX_PARTS ==> names == []
      {
        var entry :| entry in rest;
        if |entry| > MAX_PARTS {
          assert entry in nodes && Within(name, entry) && |entry| == |name| + 1;
          return Failure(NameTooLong);
        }
        names, rest := names + [entry], rest - {entry};
      }
      if |name| == MAX_PARTS {
        assert multiset(names) == multiset(Entries(nodes, name));
        assert forall e :: e in Entries(nodes, name) ==> e in multiset(Entries(nodes, name));
        assert forall q :: q in nodes ==> q !in Entries(nodes, name);
      }
      return Success(names);
    }

    predicate ExistsDoc(name: Path)
      reads this
    {
      IsFile(nodes, name)
    }

    predicate ExistsCol(name: Path)
      reads this
    {
      IsDir(nodes, name)
    }
  }

  // The entries of one directory, as names.
  function Entries(t: Tree, name: Path): set<Path> {
    set q | q in t && Within(name, q) && |q| == |name| + 1
  }

  lemma RewriteKeeps(t: Tree, name: Path, content: Json)
    requires IsTree(t) && IsFile(t, name)
    ensures IsTree(t[name := File(content)]) && (Clean(t) ==> Clean(t[name := File(content)]))
    ensures Files(t[name := File(content)]) == Files(t)[name := content]
  {
    var u := t[name := File(content)];
    forall p, q | p in u && Below(q, p) ensures IsDir(u, q) { assert IsDir(t, q); }
    if Clean(t) {
      forall p | IsDir(u, p) && p != [] ensures exists q :: IsFile(u, q) && Below(p, q) {
        assert IsDir(t, p);
        var q :| IsFile(t, q) && Below(p, q);
        assert IsFile(u, q);
      }
    }
  }

  // A document has nothing below it.
  lemma OnlyItself(t: Tree, name: Path)
    requires IsTree(t) && IsFile(t, name)
    ensures forall q :: q in t && Within(name, q) ==> q == name
  {
    assert forall q :: q in t ==> !Below(name, q);
  }

  lemma EraseFile(t: Tree, name: Path)
    requires IsTree(t) && IsFile(t, name) && name != []
    ensures IsTree(Erase(t, name)) && (Clean(t) ==> Clean(Erase(t, name)))
    ensures Files(Erase(t, name)) == Files(t) - {name}
  {
    EraseKeeps(t, name);
    OnlyItself(t, name);
  }
}
