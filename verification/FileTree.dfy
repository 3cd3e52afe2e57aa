/** The directory tree under FileDriver::path_, as an ideal finite tree; the root is []. */
module FileTree {
  import opened Names
  import opened JsonModel

  datatype Node = Dir | File(doc: Json)

  type Tree = map<Path, Node>

  predicate IsFile(t: Tree, p: Path) { p in t && t[p].File? }

  predicate IsDir(t: Tree, p: Path) { p in t && t[p].Dir? }

  ghost predicate IsTree(t: Tree) {
    && IsDir(t, [])
    && forall p, q :: p in t && Below(q, p) ==> IsDir(t, q)
  }

  // Every directory other than the root has a document beneath it.
  ghost predicate Clean(t: Tree) {
    forall p :: IsDir(t, p) && p != [] ==> exists q :: IsFile(t, q) && Below(p, q)
  }

  // std::filesystem::is_empty on a directory.
  predicate IsEmptyDir(t: Tree, p: Path) {
    forall q | q in t :: !(Within(p, q) && |q| == |p| + 1)
  }

  // The documents of the tree, by real name.
  function Files(t: Tree): map<Path, Json> {
    map p | p in t && t[p].File? :: t[p].doc
  }

  // Paths under the same real name, p included.
  function Subtree(t: Tree, p: Path): set<Path> {
    set q | q in t && Within(p, q)
  }

  function Ancestry(p: Path): set<Path> {
    set i | 0 <= i <= |p| :: p[..i]
  }

  // A document stands where create_directories needs a directory.
  predicate Blocked(t: Tree, p: Path) {
    exists q | q in t :: t[q].File? && Below(q, p)
  }

  // std::filesystem::create_directories
  function MakeDirs(t: Tree, p: Path): Tree {
    t + map q | q in Ancestry(p) && q !in t :: Dir
  }

  function PutFile(t: Tree, p: Path, d: Json): Tree
    requires p != []
  {
    MakeDirs(t, Parent(p))[p := File(d)]
  }

  // q is a directory on the way from the root to cur with nothing beneath it but the rest of that way.
  ghost predicate LeftEmpty(t: Tree, cur: Path, q: Path) {
    && q != []
    && Within(q, cur)
    && forall r :: r in t && Within(q, r) ==> Within(r, cur)
  }

  // The tree without the chain of directories ending at cur that holds nothing else.
  ghost function Prune(t: Tree, cur: Path): Tree {
    map q | q in t && !LeftEmpty(t, cur, q) :: t[q]
  }

  // remove_all followed by the removal of the parents left empty.
  ghost function Erase(t: Tree, p: Path): Tree
    requires p != []
  {
    Prune(t - Subtree(t, p), Parent(p))
  }

  lemma InAncestry(p: Path, q: Path)
    ensures q in Ancestry(p) <==> Within(q, p)
  {
    if Within(q, p) {
      assert q == p[..|q|];
    }
  }

  lemma WithinTransitive(p: Path, q: Path, r: Path)
    requires Within(p, q) && Within(q, r)
    ensures Within(p, r)
  {
  }

  // Two prefixes of one path are comparable.
  lemma PrefixesCompare(p: Path, q: Path, r: Path)
    requires Within(p, r) && Within(q, r)
    ensures |p| <= |q| ==> Within(p, q)
  {
  }

  lemma BelowParent(p: Path, q: Path)
    requires p != []
    ensures Below(q, p) <==> Within(q, Parent(p))
  {
    if Below(q, p) {
      assert q == p[..|q|] && |q| < |p|;
    }
  }

  lemma PutFileKeeps(t: Tree, p: Path, d: Json)
    requires IsTree(t) && p != [] && !IsDir(t, p) && !Blocked(t, p)
    ensures IsTree(PutFile(t, p, d))
    ensures Files(PutFile(t, p, d)) == Files(t)[p := d]
    ensures forall q :: q in PutFile(t, p, d) <==> q in t || Within(q, p)
    ensures Clean(t) ==> Clean(PutFile(t, p, d))
  {
    var u := PutFile(t, p, d);
    forall q ensures q in u <==> q in t || Within(q, p)
    {
      InAncestry(Parent(p), q);
      BelowParent(p, q);
    }
    forall q | q in t && q != p ensures q in u && u[q] == t[q] {
    }
    forall q | Below(q, p) ensures IsDir(u, q) {
      InAncestry(Parent(p), q);
      BelowParent(p, q);
      if q in t { assert !IsFile(t, q); }
    }
    forall r, q | r in u && Below(q, r) ensures IsDir(u, q) {
      if r in t {
        assert IsDir(t, q);
      } else {
        WithinTransitive(q, r, p);
      }
    }
    assert [] in u && u[[]] == t[[]];
    forall q ensures q in Files(u) <==> q in Files(t)[p := d] {
      InAncestry(Parent(p), q);
    }
    if Clean(t) {
      forall q | IsDir(u, q) && q != [] ensures exists r :: IsFile(u, r) && Below(q, r) {
        if q in t && q != p {
          assert IsDir(t, q);
          var r :| IsFile(t, r) && Below(q, r);
          assert IsFile(u, r);
        } else {
          assert IsFile(u, p) && Below(q, p);
        }
      }
    }
  }

  // Only directories are ever removed as left empty.
  lemma LeftEmptyIsDir(t: Tree, cur: Path, q: Path)
    requires IsTree(t) && IsDir(t, cur) && LeftEmpty(t, cur, q)
    ensures IsDir(t, q)
  {
    if q != cur { assert Below(q, cur); }
  }

  lemma SubtreeRemoved(t: Tree, p: Path)
    requires IsTree(t) && p in t && p != []
    ensures IsTree(t - Subtree(t, p)) && IsDir(t - Subtree(t, p), Parent(p))
  {
    var u := t - Subtree(t, p);
    forall q | q in t && !Within(p, q) ensures q in u && u[q] == t[q] {
    }
    forall r, q | r in u && Below(q, r) ensures IsDir(u, q) {
      assert IsDir(t, q);
      if Within(p, q) { WithinTransitive(p, q, r); }
    }
    assert Below(Parent(p), p);
  }

  lemma LeftEmptyBelow(t: Tree, cur: Path, q: Path, r: Path)
    requires LeftEmpty(t, cur, q) && r in t && Within(q, r)
    ensures LeftEmpty(t, cur, r)
  {
    forall s | s in t && Within(r, s) ensures Within(s, cur) { WithinTransitive(q, r, s); }
  }

  lemma PruneKeepsTree(t: Tree, cur: Path)
    requires IsTree(t) && IsDir(t, cur)
    ensures IsTree(Prune(t, cur)) && Files(Prune(t, cur)) == Files(t)
  {
    var u := Prune(t, cur);
    forall r, q | r in u && Below(q, r) ensures IsDir(u, q) {
      assert IsDir(t, q);
      if LeftEmpty(t, cur, q) { LeftEmptyBelow(t, cur, q, r); }
    }
    forall q | IsFile(t, q) ensures q in u {
      if LeftEmpty(t, cur, q) { LeftEmptyIsDir(t, cur, q); }
    }
  }

  lemma EraseKeeps(t: Tree, p: Path)
    requires IsTree(t) && p in t && p != []
    ensures IsTree(Erase(t, p))
    ensures Files(Erase(t, p)) == map q | q in Files(t) && !Within(p, q) :: Files(t)[q]
    ensures Clean(t) ==> Clean(Erase(t, p))
  {
    var u, v := t - Subtree(t, p), Erase(t, p);
    SubtreeRemoved(t, p);
    PruneKeepsTree(u, Parent(p));
    if Clean(t) {
      forall q | IsDir(v, q) && q != [] ensures exists r :: IsFile(v, r) && Below(q, r) {
        assert IsDir(t, q);
        var r := DocumentOutside(t, p, q);
        assert r in Files(v);
      }
    }
  }

  // A directory that survives an erasure in a clean tree keeps some document.
  lemma DocumentOutside(t: Tree, p: Path, q: Path) returns (r: Path)
    requires IsTree(t) && Clean(t) && p in t && p != []
    requires IsDir(t, q) && q != [] && q in Erase(t, p)
    ensures IsFile(t, r) && Below(q, r) && !Within(p, r)
  {
    var u := t - Subtree(t, p);
    r :| IsFile(t, r) && Below(q, r);
    if Within(p, r) {
      PrefixesCompare(q, p, r);
      PrefixesCompare(p, q, r);
      BelowParent(p, q);
      var s :| s in u && Within(q, s) && !Within(s, Parent(p));
      if IsFile(t, s) {
        r := s;
      } else {
        assert IsDir(t, s) && s != [];
        r :| IsFile(t, r) && Below(s, r);
        WithinTransitive(q, s, r);
        if Within(p, r) {
          PrefixesCompare(s, p, r);
          PrefixesCompare(p, s, r);
          BelowParent(p, s);
          assert false;
        }
      }
    }
  }

  // What creating a document adds.
  lemma PutFileLaw(t: Tree, p: Path, d: Json)
    requires IsTree(t) && p != [] && p !in t && !Blocked(t, p)
    ensures var u := PutFile(t, p, d);
            && u[p] == File(d)
            && (forall q :: q in u <==> q in t || q <= p)
            && (forall q :: q in u && q != p ==> u[q] == if q in t then t[q] else Dir)
  {
    PutFileKeeps(t, p, d);
    forall q | q in PutFile(t, p, d) && q != p ensures PutFile(t, p, d)[q] == if q in t then t[q] else Dir {
      InAncestry(Parent(p), q);
    }
  }

  // What erasing removes: what lies at the path and below, and every directory above that held nothing else.
  lemma EraseLaw(t: Tree, p: Path)
    requires IsTree(t) && p in t && p != []
    ensures forall q :: q in Erase(t, p) <==>
              && q in t && !(p <= q)
              && !(q != [] && q < p && forall r :: r in t && q <= r ==> r <= p || p <= r)
    ensures forall q :: q in Erase(t, p) ==> Erase(t, p)[q] == t[q]
  {
    var u := t - Subtree(t, p);
    forall q | q in t && !(p <= q)
      ensures LeftEmpty(u, Parent(p), q) <==> q != [] && q < p && forall r :: r in t && q <= r ==> r <= p || p <= r
    {
      LeftEmptyLaw(t, p, q);
    }
  }

  lemma LeftEmptyLaw(t: Tree, p: Path, q: Path)
    requires p != [] && q in t && !(p <= q)
    ensures LeftEmpty(t - Subtree(t, p), Parent(p), q) <==>
            q != [] && q < p && forall r :: r in t && q <= r ==> r <= p || p <= r
  {
    var u := t - Subtree(t, p);
    BelowParent(p, q);
    forall r | r in t ensures r in u <==> !(p <= r) { }
    forall r | r in u ensures Within(r, Parent(p)) <==> r <= p { BelowParent(p, r); }
  }

  // A clean tree is determined by the documents in it.
  lemma CleanDetermined(t: Tree, u: Tree)
    requires IsTree(t) && IsTree(u) && Clean(t) && Clean(u)
    requires Files(t) == Files(u)
    ensures t == u
  {
    CleanIncluded(t, u);
    CleanIncluded(u, t);
    assert t.Keys == u.Keys;
  }

  lemma CleanIncluded(t: Tree, u: Tree)
    requires IsTree(t) && IsTree(u) && Clean(t)
    requires Files(t) == Files(u)
    ensures forall p :: p in t ==> p in u && u[p] == t[p]
  {
    forall p | p in t ensures p in u && u[p] == t[p] {
      if IsFile(t, p) {
        assert p in Files(t) && p in Files(u);
        assert Files(t)[p] == Files(u)[p];
      } else if p != [] {
        assert IsDir(t, p);
        var q :| IsFile(t, q) && Below(p, q);
        assert q in Files(t) && q in Files(u);
        assert IsDir(u, p);
      }
    }
  }

  // In a clean tree the directories are exactly the strict ancestors of the documents.
  lemma CleanDirs(t: Tree, p: Path)
    requires IsTree(t) && Clean(t) && p != []
    ensures IsDir(t, p) <==> exists q :: IsFile(t, q) && Below(p, q)
  {
  }

  // One turn of the removal loop: an empty directory whose lower chain is gone is left empty.
  lemma EmptyStep(t: Tree, nodes: Tree, cur: Path, current: Path)
    requires IsTree(t) && current != [] && Within(current, cur)
    requires forall q :: q in nodes <==> q in t && !(Within(q, cur) && Below(current, q))
    requires forall q :: q in t && Within(q, cur) && Below(current, q) ==> LeftEmpty(t, cur, q)
    requires IsEmptyDir(nodes, current)
    ensures LeftEmpty(t, cur, current)
  {
    forall r | r in t && Within(current, r) ensures Within(r, cur) {
      if r != current {
        var c := r[..|current| + 1];
        assert Within(c, r) && (c == r || Below(c, r));
        assert c in t;
        assert Within(current, c) && c !in nodes;
        assert LeftEmpty(t, cur, c);
      }
    }
  }

  // The removal loop stops exactly above the chain left empty.
  lemma PruneReached(t: Tree, nodes: Tree, cur: Path, current: Path)
    requires IsTree(t) && Within(current, cur)
    requires forall q :: q in nodes <==> q in t && !(Within(q, cur) && Below(current, q))
    requires forall q :: q in nodes ==> nodes[q] == t[q]
    requires forall q :: q in t && Within(q, cur) && Below(current, q) ==> LeftEmpty(t, cur, q)
    requires current == [] || !IsEmptyDir(nodes, current)
    ensures nodes == Prune(t, cur)
  {
    forall q | q in nodes ensures !LeftEmpty(t, cur, q) {
      if LeftEmpty(t, cur, q) {
        PrefixesCompare(q, current, cur);
        PrefixesCompare(current, q, cur);
        assert Within(q, current);
        var c :| c in nodes && Within(current, c) && |c| == |current| + 1;
        WithinTransitive(q, current, c);
        assert Below(current, c);
        assert false;
      }
    }
    forall q | q in Prune(t, cur) ensures q in nodes {
    }
    assert nodes.Keys == Prune(t, cur).Keys;
  }

  // Creating a document and deleting it again leaves no trace, not even a directory.
  lemma CreateThenErase(t: Tree, p: Path, d: Json)
    requires IsTree(t) && Clean(t) && p != [] && p !in t && !Blocked(t, p)
    ensures Erase(PutFile(t, p, d), p) == t
  {
    var u := PutFile(t, p, d);
    PutFileKeeps(t, p, d);
    EraseKeeps(u, p);
    forall q | q in Files(t) ensures !Within(p, q) {
      assert !Below(p, q);
    }
    assert Files(Erase(u, p)) == Files(t);
    CleanDetermined(Erase(u, p), t);
  }
}
