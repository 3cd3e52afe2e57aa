/** What the constructor of the store reads back from the tree. */
module StoreLoad {
  import opened Names
  import opened FileTree
  import opened FileDrivers
  import opened StoreView
  import opened StoreLink

  datatype OpenError = InvalidNamespace | InvalidDocument | LoadFailed(error: DriverError)

  // Part names that a directory can list.
  ghost predicate PlainTree(t: Tree) {
    forall p, i :: p in t && 0 <= i < |p| ==> PlainPart(p[i])
  }

  // Something below name has too many parts for a base::Name.
  ghost predicate TooDeep(t: Tree, name: Path) {
    exists p :: p in t && Within(name, p) && |p| > MAX_PARTS
  }

  ghost predicate Covers(roots: set<Path>, p: Path) {
    exists root :: root in roots && Within(root, p)
  }

  // The index after the names were added one by one under ns: a name already there keeps its namespace.
  ghost function Fill(index: map<Path, string>, names: set<Path>, ns: string): map<Path, string> {
    map v | v in index.Keys + names :: if v in index then index[v] else ns
  }

  // The index after the files below the roots were added under ns.
  ghost function Gathered(index: map<Path, string>, t: Tree, roots: set<Path>, ns: string): map<Path, string> {
    Fill(index, VirtualNames(t, roots, ns), ns)
  }

  lemma FillTwice(index: map<Path, string>, a: set<Path>, b: set<Path>, ns: string)
    ensures Fill(Fill(index, a, ns), b, ns) == Fill(index, a + b, ns)
  {
  }

  ghost function VirtualNames(t: Tree, roots: set<Path>, ns: string): set<Path> {
    set p | p in t && t[p].File? && |p| > 2 && p[0] == NAMESPACES && p[1] == ns && Covers(roots, p) :: p[2..]
  }

  function Elements(s: seq<Path>): set<Path> {
    set p | p in s
  }

  lemma VisitFile(index: map<Path, string>, t: Tree, name: Path, ns: string)
    requires IsTree(t) && IsFile(t, name)
    requires |name| > 2 && name[0] == NAMESPACES && name[1] == ns
    ensures VirtualNames(t, {name}, ns) == {name[2..]}
    ensures Gathered(index, t, {name}, ns) == if name[2..] in index then index else index[name[2..] := ns]
    ensures !TooDeep(t, name) <==> |name| <= MAX_PARTS
  {
    OnlyItself(t, name);
    assert Within(name, name);
    forall v ensures v in VirtualNames(t, {name}, ns) <==> v == name[2..] {
      assert Covers({name}, name);
    }
  }

  lemma VisitDepth(t: Tree, name: Path)
    requires IsTree(t) && IsDir(t, name) && |name| <= MAX_PARTS
    ensures |name| == MAX_PARTS && !IsEmptyDir(t, name) ==> TooDeep(t, name)
    ensures TooDeep(t, name) <==> exists q :: q in Entries(t, name) && TooDeep(t, q)
    ensures forall q :: q in Entries(t, name) && |q| > MAX_PARTS ==> TooDeep(t, q)
  {
    if TooDeep(t, name) {
      var p :| p in t && Within(name, p) && |p| > MAX_PARTS;
      var q := p[..|name| + 1];
      assert Within(q, p) && (q == p || Below(q, p));
      assert Within(name, q) && q in Entries(t, name);
      assert TooDeep(t, q);
    }
    if q :| q in Entries(t, name) && TooDeep(t, q) {
      var p :| p in t && Within(q, p) && |p| > MAX_PARTS;
      WithinTransitive(name, q, p);
    }
    forall q | q in Entries(t, name) && |q| > MAX_PARTS ensures TooDeep(t, q) {
      assert Within(q, q);
    }
    if |name| == MAX_PARTS && !IsEmptyDir(t, name) {
      var q :| q in t && Within(name, q) && |q| == |name| + 1;
    }
  }

  lemma ListsEntries(t: Tree, name: Path, listing: seq<Path>)
    requires multiset(listing) == multiset(Entries(t, name))
    ensures Elements(listing) == Entries(t, name)
  {
    forall q ensures q in listing <==> q in Entries(t, name) {
      assert q in listing <==> q in multiset(listing);
    }
  }

  lemma SmallerSubtree(t: Tree, name: Path, sub: Path)
    requires name in t && sub in Entries(t, name)
    ensures Subtree(t, sub) < Subtree(t, name)
  {
    forall q | Within(sub, q) ensures Within(name, q) { WithinTransitive(name, sub, q); }
    assert name in Subtree(t, name) && name !in Subtree(t, sub);
  }

  lemma GatheredStep(index: map<Path, string>, t: Tree, listing: seq<Path>, i: nat, ns: string)
    requires i < |listing|
    ensures Gathered(Gathered(index, t, Elements(listing[..i]), ns), t, {listing[i]}, ns) ==
            Gathered(index, t, Elements(listing[..i + 1]), ns)
  {
    assert listing[..i + 1] == listing[..i] + [listing[i]];
    var before, one := Elements(listing[..i]), {listing[i]};
    assert Elements(listing[..i + 1]) == before + one;
    CoversSplit(before, one);
    VirtualNamesSplit(t, before + one, before, one, ns);
    FillTwice(index, VirtualNames(t, before, ns), VirtualNames(t, one, ns), ns);
  }

  lemma CoversSplit(a: set<Path>, b: set<Path>)
    ensures forall p :: Covers(a + b, p) <==> Covers(a, p) || Covers(b, p)
  {
  }

  lemma VirtualNamesSplit(t: Tree, after: set<Path>, before: set<Path>, one: set<Path>, ns: string)
    requires forall p :: Covers(after, p) <==> Covers(before, p) || Covers(one, p)
    ensures VirtualNames(t, after, ns) == VirtualNames(t, before, ns) + VirtualNames(t, one, ns)
  {
  }

  lemma GatheredEntries(index: map<Path, string>, t: Tree, name: Path, ns: string)
    requires IsTree(t) && IsDir(t, name)
    ensures Gathered(index, t, Entries(t, name), ns) == Gathered(index, t, {name}, ns)
  {
    forall p | IsFile(t, p) ensures Covers(Entries(t, name), p) <==> Covers({name}, p) {
      if Covers({name}, p) {
        assert Within(name, p) && p != name;
        var q := p[..|name| + 1];
        assert Within(q, p) && (q == p || Below(q, p));
        assert Within(name, q) && q in Entries(t, name);
      }
      if Covers(Entries(t, name), p) {
        var q :| q in Entries(t, name) && Within(q, p);
        WithinTransitive(name, q, p);
        assert name in {name};
      }
    }
    assert VirtualNames(t, Entries(t, name), ns) == VirtualNames(t, {name}, ns);
  }

  lemma GatheredNone(index: map<Path, string>, t: Tree, ns: string)
    ensures Gathered(index, t, {}, ns) == index
    ensures Elements([]) == {}
  {
  }

  lemma EntriesValid(t: Tree, name: Path)
    requires PlainTree(t) && (|name| < MAX_PARTS || IsEmptyDir(t, name))
    ensures forall q :: q in Entries(t, name) ==> ValidName(q)
  {
  }

  // The namespaces collection holds a stray file or a name too long.
  ghost predicate Unloadable(t: Tree) {
    && IsDir(t, [NAMESPACES])
    && exists p :: p in t && Within([NAMESPACES], p) && ((|p| == 2 && t[p].File?) || |p| > MAX_PARTS)
  }

  // Every name is indexed under a namespace that holds its file, and every file has its name indexed.
  ghost predicate Loaded(index: map<Path, string>, t: Tree) {
    && (forall v :: v in index ==> v != [] && IsFile(t, Real(index[v], v)))
    && (forall ns, v :: v != [] && IsFile(t, Real(ns, v)) ==> v in index)
  }

  // Loaded, as far as the namespaces already visited go.
  ghost predicate LoadedFrom(index: map<Path, string>, t: Tree, visited: set<Path>) {
    && (forall v :: v in index ==> v != [] && IsFile(t, Real(index[v], v)))
    && (forall ns, v :: [NAMESPACES, ns] in visited && v != [] && IsFile(t, Real(ns, v)) ==> v in index)
  }

  lemma NamespaceFiles(t: Tree, ns: string, v: Path)
    ensures v in VirtualNames(t, {[NAMESPACES, ns]}, ns) <==> v != [] && IsFile(t, Real(ns, v))
  {
    var root := [NAMESPACES, ns];
    if v in VirtualNames(t, {root}, ns) {
      var p :| p in t && t[p].File? && |p| > 2 && p[0] == NAMESPACES && p[1] == ns && v == p[2..];
      assert p == Real(ns, v);
    }
    if v != [] && IsFile(t, Real(ns, v)) {
      var p := Real(ns, v);
      assert p[2..] == v && root in {root} && Within(root, p);
      assert Covers({root}, p);
    }
  }

  lemma LoadStep(index: map<Path, string>, t: Tree, visited: set<Path>, ns: string)
    requires LoadedFrom(index, t, visited)
    ensures LoadedFrom(Gathered(index, t, {[NAMESPACES, ns]}, ns), t, visited + {[NAMESPACES, ns]})
  {
    var after := Gathered(index, t, {[NAMESPACES, ns]}, ns);
    forall v | v in after ensures v != [] && IsFile(t, Real(after[v], v)) {
      NamespaceFiles(t, ns, v);
    }
    forall ms, v | [NAMESPACES, ms] in visited + {[NAMESPACES, ns]} && v != [] && IsFile(t, Real(ms, v))
      ensures v in after
    {
      NamespaceFiles(t, ns, v);
      if [NAMESPACES, ms] == [NAMESPACES, ns] {
        assert ms == [NAMESPACES, ms][1];
      }
    }
  }

  lemma LoadNext(index: map<Path, string>, t: Tree, list: seq<Path>, i: nat)
    requires i < |list| && |list[i]| == 2 && list[i] == [NAMESPACES, list[i][1]]
    requires LoadedFrom(index, t, Elements(list[..i]))
    ensures LoadedFrom(Gathered(index, t, {list[i]}, list[i][1]), t, Elements(list[..i + 1]))
  {
    LoadStep(index, t, Elements(list[..i]), list[i][1]);
    assert list[..i + 1] == list[..i] + [list[i]];
    assert Elements(list[..i + 1]) == Elements(list[..i]) + {list[i]};
  }

  lemma LoadDone(index: map<Path, string>, t: Tree)
    requires IsTree(t) && IsDir(t, [NAMESPACES]) && LoadedFrom(index, t, Entries(t, [NAMESPACES]))
    ensures Loaded(index, t)
  {
    forall ns, v | v != [] && IsFile(t, Real(ns, v)) ensures v in index {
      var root := [NAMESPACES, ns];
      assert Below(root, Real(ns, v));
      assert root in Entries(t, [NAMESPACES]);
    }
  }

  lemma NothingToLoad(t: Tree)
    requires IsTree(t) && !IsDir(t, [NAMESPACES])
    ensures Loaded(map[], t)
  {
    forall ns, v ensures !IsFile(t, Real(ns, v)) {
      assert Below([NAMESPACES], Real(ns, v));
    }
  }

  // A store over a tree it was linked to loads, and finds the same index.
  lemma LinkedLoads(index: map<Path, string>, t: Tree)
    requires IsTree(t) && Clean(t) && Linked(index, Files(t))
    ensures PlainTree(t) && !Unloadable(t)
    ensures forall m :: Loaded(m, t) ==> m == index
  {
    forall p | p in t && p != [] ensures ValidName(p) && (t[p].File? && |p| == 2 ==> p[0] != NAMESPACES) {
      if IsFile(t, p) {
        assert p in Files(t);
        if |p| == 2 { assert p == Real(p[1], []) || p[0] != NAMESPACES; }
      } else {
        assert IsDir(t, p);
        var q :| IsFile(t, q) && Below(p, q);
        assert q in Files(t) && p == q[..|p|];
      }
    }
    forall m | Loaded(m, t) ensures m == index {
      forall v | v in m ensures v in index && index[v] == m[v] {
        assert Real(m[v], v) in Files(t);
      }
      forall v | v in index ensures v in m {
        assert Real(index[v], v) in Files(t);
        assert IsFile(t, Real(index[v], v));
      }
    }
  }

  lemma NamespaceEntry(t: Tree, name: Path)
    requires IsTree(t) && PlainTree(t) && IsDir(t, [NAMESPACES]) && name in Entries(t, [NAMESPACES])
    ensures name == [NAMESPACES, name[1]] && ValidName(name) && PlainPart(name[1])
    ensures !IsDir(t, name) || TooDeep(t, name) ==> Unloadable(t)
  {
    assert name[0] == [NAMESPACES][0];
    if TooDeep(t, name) {
      var p :| p in t && Within(name, p) && |p| > MAX_PARTS;
      WithinTransitive([NAMESPACES], name, p);
    }
  }

  lemma Loadable(t: Tree, list: seq<Path>)
    requires IsTree(t) && Elements(list) == Entries(t, [NAMESPACES])
    requires forall k :: 0 <= k < |list| ==> IsDir(t, list[k]) && !TooDeep(t, list[k])
    ensures !Unloadable(t)
  {
    forall p | p in t && Within([NAMESPACES], p)
      ensures (|p| == 2 ==> t[p].Dir?) && |p| <= MAX_PARTS
    {
      if |p| >= 2 {
        var q := p[..2];
        assert Within(q, p) && (q == p || Below(q, p));
        assert Within([NAMESPACES], q) && q in Entries(t, [NAMESPACES]);
        assert q in Elements(list);
      }
    }
  }
}
