/** The link between the name index, the documents on disk and the client's view. */
module StoreLink {
  import opened Wrappers
  import opened Names
  import opened JsonModel
  import opened FileTree
  import opened FileDrivers
  import opened StoreView

  // Store::virtualToRealName, without the size limit of base::Name.
  function Real(ns: string, name: Path): Path {
    [NAMESPACES, ns] + name
  }

  // Store::realToVirtualName
  function RealToVirtual(rname: Path): Option<Path> {
    if |rname| < 3 then None
    else if rname[0] != NAMESPACES then None
    else if rname[1] == "" then None
    else Some(rname[2..])
  }

  lemma RealVirtualRoundTrip(rname: Path, name: Path)
    ensures RealToVirtual(rname) == Some(name) <==> name != [] && exists ns :: ns != "" && rname == Real(ns, name)
  {
    if RealToVirtual(rname) == Some(name) {
      assert rname == Real(rname[1], name);
    }
  }

  // A name is indexed under a namespace exactly when its file lies there, and every file is either
  // indexed or internal.
  ghost predicate Linked(index: map<Path, string>, files: map<Path, Json>) {
    && (forall v :: v in index ==> v != [] && Real(index[v], v) in files)
    && (forall ns, v :: Real(ns, v) in files ==> v != [] && v in index && index[v] == ns)
    && [NAMESPACES] !in files
    && (forall p :: p in files ==> ValidName(p))
  }

  predicate Reserved(p: Path) { p != [] && p[0] == NAMESPACES }

  function DocAt(files: map<Path, Json>, p: Path): Json {
    if p in files then files[p] else JNull
  }

  function Indexed(index: map<Path, string>, files: map<Path, Json>): map<Path, Entry> {
    map v | v in index :: Entry(index[v], DocAt(files, Real(index[v], v)))
  }

  function Internals(files: map<Path, Json>): map<Path, Json> {
    map p | p in files && !Reserved(p) :: files[p]
  }

  ghost function ViewOf(index: map<Path, string>, files: map<Path, Json>): View
    requires Linked(index, files)
  {
    View(Indexed(index, files), Internals(files))
  }

  lemma RealReserved(ns: string, v: Path)
    ensures Reserved(Real(ns, v))
  {
  }

  lemma LinkedUnique(m: map<Path, string>, n: map<Path, string>, files: map<Path, Json>)
    requires Linked(m, files) && Linked(n, files)
    ensures m == n
  {
    forall v | v in m ensures v in n && n[v] == m[v] { assert Real(m[v], v) in files; }
    forall v | v in n ensures v in m { assert Real(n[v], v) in files; }
  }

  lemma RealWithin(ns: string, v: Path, w: Path)
    ensures Within(Real(ns, v), Real(ns, w)) <==> Within(v, w)
    ensures Below(Real(ns, v), Real(ns, w)) <==> Below(v, w)
  {
    if Within(v, w) {
      assert w == v + w[|v|..];
      assert Real(ns, w) == Real(ns, v) + w[|v|..];
    }
    if Within(Real(ns, v), Real(ns, w)) {
      assert v == Real(ns, v)[2..] && w == Real(ns, w)[2..];
      assert v == w[..|v|] by {
        forall i | 0 <= i < |v| ensures v[i] == w[i] {
          assert Real(ns, v)[i + 2] == Real(ns, w)[i + 2];
        }
      }
    }
    if Real(ns, v) == Real(ns, w) {
      assert v == Real(ns, v)[2..] && w == Real(ns, w)[2..];
    }
  }

  lemma RealInjective(ns: string, v: Path, ms: string, w: Path)
    ensures Real(ns, v) == Real(ms, w) <==> ns == ms && v == w
  {
    assert Real(ns, v)[1] == ns && Real(ms, w)[1] == ms;
    assert v == Real(ns, v)[2..] && w == Real(ms, w)[2..];
  }

  // Files below a real name are real names of the same namespace.
  lemma BelowReal(ns: string, v: Path, p: Path)
    requires Within(Real(ns, v), p)
    ensures p == Real(ns, p[2..]) && Within(v, p[2..])
  {
    assert p == Real(ns, v) + p[|v| + 2..];
    assert p[0] == Real(ns, v)[0] && p[1] == Real(ns, v)[1];
    assert p == Real(ns, p[2..]);
    RealWithin(ns, v, p[2..]);
  }

  lemma LinkWriteKeeps(index: map<Path, string>, files: map<Path, Json>, ns: string, v: Path, doc: Json)
    requires Linked(index, files) && v != [] && ValidName(Real(ns, v))
    requires v in index ==> index[v] == ns
    ensures Linked(index[v := ns], files[Real(ns, v) := doc])
  {
    var m, r := index[v := ns], Real(ns, v);
    var f := files[r := doc];
    forall w | w in m ensures w != [] && Real(m[w], w) in f { }
    forall ms, w | Real(ms, w) in f ensures w != [] && w in m && m[w] == ms {
      RealInjective(ms, w, ns, v);
    }
    assert [NAMESPACES] != r;
  }

  lemma IndexedWrite(index: map<Path, string>, files: map<Path, Json>, v: Path, ns: string, r: Path, doc: Json)
    requires r == Real(ns, v) && forall w :: w in index && w != v ==> Real(index[w], w) != r
    ensures Indexed(index[v := ns], files[r := doc]) == Indexed(index, files)[v := Entry(ns, doc)]
  {
  }

  lemma LinkWrite(index: map<Path, string>, files: map<Path, Json>, ns: string, v: Path, doc: Json)
    requires Linked(index, files) && v != [] && ValidName(Real(ns, v))
    requires v in index ==> index[v] == ns
    ensures Linked(index[v := ns], files[Real(ns, v) := doc])
    ensures ViewOf(index[v := ns], files[Real(ns, v) := doc]) ==
            View(ViewOf(index, files).docs[v := Entry(ns, doc)], ViewOf(index, files).internals)
  {
    LinkWriteKeeps(index, files, ns, v, doc);
    forall w | w in index && w != v ensures Real(index[w], w) != Real(ns, v) {
      RealInjective(index[w], w, ns, v);
    }
    IndexedWrite(index, files, v, ns, Real(ns, v), doc);
    RealReserved(ns, v);
    assert Internals(files[Real(ns, v) := doc]) == Internals(files);
  }

  // Removing indexed names and their files, and nothing else.
  lemma LinkErase(index: map<Path, string>, files: map<Path, Json>, m: map<Path, string>, f: map<Path, Json>)
    requires Linked(index, files)
    requires forall v :: v in m ==> v in index && m[v] == index[v]
    requires forall p :: p in f ==> p in files && f[p] == files[p]
    requires forall ns, v :: Real(ns, v) in files ==> (Real(ns, v) in f <==> v in m)
    requires forall p :: p in files && !Reserved(p) ==> p in f
    ensures Linked(m, f)
    ensures ViewOf(m, f) == View(map v | v in m :: ViewOf(index, files).docs[v], ViewOf(index, files).internals)
  {
    assert Indexed(m, f) == map v | v in m :: Indexed(index, files)[v];
    assert Internals(f) == Internals(files);
  }

  // Files that are not reserved may come and go without the index.
  lemma LinkInternal(index: map<Path, string>, files: map<Path, Json>, f: map<Path, Json>)
    requires Linked(index, files)
    requires forall p :: Reserved(p) ==> (p in f <==> p in files) && (p in f ==> f[p] == files[p])
    requires forall p :: p in f ==> ValidName(p)
    ensures Linked(index, f)
    ensures ViewOf(index, f) == View(ViewOf(index, files).docs, Internals(f))
  {
    forall ns, v ensures Reserved(Real(ns, v)) { RealReserved(ns, v); }
    assert Reserved([NAMESPACES]);
    assert Indexed(index, f) == Indexed(index, files);
  }

  // A real name is a collection on disk exactly when the view has documents below it.
  lemma CollectionSeen(index: map<Path, string>, t: Tree, ns: string, v: Path)
    requires IsTree(t) && Clean(t) && Linked(index, Files(t)) && v != []
    ensures IsDir(t, Real(ns, v)) <==> HasBelow(ViewOf(index, Files(t)).docs, ns, v)
  {
    var docs := ViewOf(index, Files(t)).docs;
    CleanDirs(t, Real(ns, v));
    if IsDir(t, Real(ns, v)) {
      var q :| IsFile(t, q) && Below(Real(ns, v), q);
      BelowReal(ns, v, q);
      RealWithin(ns, v, q[2..]);
      assert Real(ns, q[2..]) in Files(t);
      assert q[2..] in docs && docs[q[2..]].ns == ns;
    }
    if w :| w in docs && docs[w].ns == ns && Below(v, w) {
      RealWithin(ns, v, w);
      assert Real(ns, w) in Files(t);
      assert IsFile(t, Real(ns, w)) && Below(Real(ns, v), Real(ns, w));
    }
  }

  // create_directories is blocked exactly when a prefix of the name is a document of the namespace.
  lemma BlockSeen(index: map<Path, string>, t: Tree, ns: string, v: Path)
    requires IsTree(t) && Linked(index, Files(t)) && v != []
    ensures Blocked(t, Real(ns, v)) <==> HasAbove(ViewOf(index, Files(t)).docs, ns, v)
  {
    var docs := ViewOf(index, Files(t)).docs;
    if Blocked(t, Real(ns, v)) {
      var q :| q in t && t[q].File? && Below(q, Real(ns, v));
      assert q in Files(t);
      assert q == Real(ns, v)[..|q|];
      assert Real(ns, v)[..1] == [NAMESPACES] && Real(ns, v)[..0] == [];
      assert |q| >= 2;
      assert q == Real(ns, v[..|q| - 2]);
      RealWithin(ns, v[..|q| - 2], v);
      assert v[..|q| - 2] in docs;
    }
    if w :| w in docs && docs[w].ns == ns && Below(w, v) {
      RealWithin(ns, w, v);
      assert Real(ns, w) in Files(t);
      assert IsFile(t, Real(ns, w)) && Below(Real(ns, w), Real(ns, v));
    }
  }

  lemma InternalSeen(index: map<Path, string>, t: Tree, p: Path)
    requires IsTree(t) && Clean(t) && Linked(index, Files(t))
    requires ValidName(p) && !Reserved(p)
    ensures var internals := ViewOf(index, Files(t)).internals;
            && (IsFile(t, p) <==> p in internals)
            && (IsDir(t, p) <==> exists w :: w in internals && Below(p, w))
            && (Blocked(t, p) <==> exists w :: w in internals && Below(w, p))
  {
    var internals := ViewOf(index, Files(t)).internals;
    CleanDirs(t, p);
    forall q | Below(p, q) || (q != [] && Below(q, p)) ensures q[0] == p[0] { }
    if IsDir(t, p) {
      var q :| IsFile(t, q) && Below(p, q);
      assert q in internals;
    }
    if w :| w in internals && Below(p, w) {
      assert IsFile(t, w);
    }
    if Blocked(t, p) {
      var q :| q in t && t[q].File? && Below(q, p);
      assert q in Files(t) && q in internals;
    }
    if w :| w in internals && Below(w, p) {
      assert IsFile(t, w);
    }
  }
}
