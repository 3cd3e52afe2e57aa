/** What a client of the store sees: a partial map from names to documents, each in one namespace. */
module StoreView {
  import opened Wrappers
  import opened Names
  import opened JsonModel
  import opened FileDrivers

  datatype Entry = Entry(ns: string, doc: Json)

  datatype View = View(docs: map<Path, Entry>, internals: map<Path, Json>)

  datatype StoreError =
    | DocumentExists
    | DocumentMissing
    | OtherNamespace
    | CollectionMissing
    | ReservedName
    | Driver(error: DriverError)

  datatype Op =
    | Create(name: Path, ns: string, doc: Json)
    | Update(name: Path, doc: Json)
    | Upsert(name: Path, ns: string, doc: Json)
    | Delete(name: Path)
    | DeleteCol(name: Path, ns: string)
    | CreateInternal(name: Path, doc: Json)
    | UpdateInternal(name: Path, doc: Json)
    | UpsertInternal(name: Path, doc: Json)
    | DeleteInternal(name: Path)

  const NAMESPACES := "namespaces"

  // "namespaces" and the namespace take two of the MAX_PARTS parts of a real name.
  const MAX_VIRTUAL_PARTS := MAX_PARTS - 2

  ghost predicate ValidOp(op: Op) {
    ValidName(op.name) && (op.Create? || op.Upsert? || op.DeleteCol? ==> PlainPart(op.ns))
  }

  // Some document of the namespace lies below the name.
  ghost predicate HasBelow(docs: map<Path, Entry>, ns: string, name: Path) {
    exists w :: w in docs && docs[w].ns == ns && Below(name, w)
  }

  // Some document of the namespace is a strict prefix of the name.
  ghost predicate HasAbove(docs: map<Path, Entry>, ns: string, name: Path) {
    exists w :: w in docs && docs[w].ns == ns && Below(w, name)
  }

  ghost function CreateFailure(docs: map<Path, Entry>, name: Path, ns: string, doc: Json): Option<StoreError> {
    if |name| > MAX_VIRTUAL_PARTS then Some(Driver(NameTooLong))
    else if HasDuplicateKeys(doc) then Some(Driver(DuplicateKeys))
    else if HasBelow(docs, ns, name) then Some(Driver(AlreadyExists))
    else if HasAbove(docs, ns, name) then Some(Driver(CannotCreateDirectory))
    else None
  }

  ghost function CreateInternalFailure(internals: map<Path, Json>, name: Path, doc: Json): Option<StoreError> {
    if HasDuplicateKeys(doc) then Some(Driver(DuplicateKeys))
    else if exists w :: w in internals && Within(name, w) then Some(Driver(AlreadyExists))
    else if exists w :: w in internals && Below(w, name) then Some(Driver(CannotCreateDirectory))
    else None
  }

  // Why an operation is refused, if it is.
  ghost function Refusal(view: View, op: Op): Option<StoreError>
    requires ValidOp(op)
  {
    var View(docs, internals) := view;
    match op
    case Create(name, ns, doc) =>
      if name in docs then Some(DocumentExists) else CreateFailure(docs, name, ns, doc)
    case Update(name, doc) =>
      if name !in docs then Some(DocumentMissing)
      else if HasDuplicateKeys(doc) then Some(Driver(DuplicateKeys)) else None
    case Upsert(name, ns, doc) =>
      if name !in docs then CreateFailure(docs, name, ns, doc)
      else if docs[name].ns != ns then Some(OtherNamespace)
      else if HasDuplicateKeys(doc) then Some(Driver(DuplicateKeys)) else None
    case Delete(name) =>
      if name !in docs then Some(DocumentMissing) else None
    case DeleteCol(name, ns) =>
      if HasBelow(docs, ns, name) then None else Some(CollectionMissing)
    case CreateInternal(name, doc) =>
      if name[0] == NAMESPACES then Some(ReservedName) else CreateInternalFailure(internals, name, doc)
    case UpdateInternal(name, doc) =>
      if name[0] == NAMESPACES then Some(ReservedName)
      else if HasDuplicateKeys(doc) then Some(Driver(DuplicateKeys))
      else if name in internals then None
      else if exists w :: w in internals && Below(name, w) then Some(Driver(IsADirectory))
      else Some(Driver(NotFound))
    case UpsertInternal(name, doc) =>
      if name[0] == NAMESPACES then Some(ReservedName)
      else if name !in internals then CreateInternalFailure(internals, name, doc)
      else if HasDuplicateKeys(doc) then Some(Driver(DuplicateKeys)) else None
    case DeleteInternal(name) =>
      if name[0] == NAMESPACES then Some(ReservedName)
      else if name in internals then None else Some(Driver(NotFound))
  }

  // The view after an operation; a refused one changes nothing.
  ghost function Apply(view: View, op: Op): View
    requires ValidOp(op)
  {
    if Refusal(view, op).Some? then view
    else
      match op
      case Create(name, ns, doc) => view.(docs := view.docs[name := Entry(ns, doc)])
      case Update(name, doc) => view.(docs := view.docs[name := Entry(view.docs[name].ns, doc)])
      case Upsert(name, ns, doc) => view.(docs := view.docs[name := Entry(ns, doc)])
      case Delete(name) => view.(docs := view.docs - {name})
      case DeleteCol(name, ns) =>
        view.(docs := map w | w in view.docs && !(view.docs[w].ns == ns && Below(name, w)) :: view.docs[w])
      case CreateInternal(name, doc) => view.(internals := view.internals[name := doc])
      case UpdateInternal(name, doc) => view.(internals := view.internals[name := doc])
      case UpsertInternal(name, doc) => view.(internals := view.internals[name := doc])
      case DeleteInternal(name) => view.(internals := view.internals - {name})
  }

  ghost predicate ValidRun(ops: seq<Op>) {
    forall i :: 0 <= i < |ops| ==> ValidOp(ops[i])
  }

  ghost function Run(view: View, ops: seq<Op>): View
    requires ValidRun(ops)
    decreases |ops|
  {
    if ops == [] then view else Run(Apply(view, ops[0]), ops[1..])
  }

  // No document is at once a document and a collection of its namespace.
  ghost predicate PrefixFree(view: View) {
    && (forall v, w :: v in view.docs && w in view.docs && view.docs[v].ns == view.docs[w].ns ==> !Below(v, w))
    && (forall v, w :: v in view.internals && w in view.internals ==> !Below(v, w))
  }

  // Every document kept is one the driver accepted under a name that fits.
  ghost predicate Accepted(view: View) {
    && (forall v :: v in view.docs ==> ValidName(v) && |v| <= MAX_VIRTUAL_PARTS && !HasDuplicateKeys(view.docs[v].doc))
    && (forall v :: v in view.internals ==>
          ValidName(v) && v[0] != NAMESPACES && !HasDuplicateKeys(view.internals[v]))
  }

  lemma PutDocKeeps(view: View, name: Path, ns: string, doc: Json)
    requires PrefixFree(view) && Accepted(view)
    requires ValidName(name) && |name| <= MAX_VIRTUAL_PARTS && !HasDuplicateKeys(doc)
    requires !HasBelow(view.docs, ns, name) && !HasAbove(view.docs, ns, name)
    ensures var u := view.(docs := view.docs[name := Entry(ns, doc)]); PrefixFree(u) && Accepted(u)
  {
  }

  lemma PutInternalKeeps(view: View, name: Path, doc: Json)
    requires PrefixFree(view) && Accepted(view)
    requires ValidName(name) && name[0] != NAMESPACES && !HasDuplicateKeys(doc)
    requires forall w :: w in view.internals ==> !Below(name, w) && !Below(w, name)
    ensures var u := view.(internals := view.internals[name := doc]); PrefixFree(u) && Accepted(u)
  {
  }

  lemma FewerKeeps(view: View, u: View)
    requires PrefixFree(view) && Accepted(view)
    requires forall v :: v in u.docs ==> v in view.docs && u.docs[v] == view.docs[v]
    requires forall v :: v in u.internals ==> v in view.internals && u.internals[v] == view.internals[v]
    ensures PrefixFree(u) && Accepted(u)
  {
  }

  // A document that is there has none above and none below.
  lemma Alone(view: View, name: Path)
    requires PrefixFree(view) && name in view.docs
    ensures !HasBelow(view.docs, view.docs[name].ns, name) && !HasAbove(view.docs, view.docs[name].ns, name)
  {
  }

  lemma DocOpKeeps(view: View, op: Op)
    requires ValidOp(op) && (op.Create? || op.Update? || op.Upsert?)
    requires PrefixFree(view) && Accepted(view) && Refusal(view, op).None?
    ensures PrefixFree(Apply(view, op)) && Accepted(Apply(view, op))
  {
    var ns := if op.Update? then view.docs[op.name].ns else op.ns;
    if op.name in view.docs { Alone(view, op.name); }
    PutDocKeeps(view, op.name, ns, op.doc);
  }

  lemma InternalOpKeeps(view: View, op: Op)
    requires ValidOp(op) && (op.CreateInternal? || op.UpdateInternal? || op.UpsertInternal?)
    requires PrefixFree(view) && Accepted(view) && Refusal(view, op).None?
    ensures PrefixFree(Apply(view, op)) && Accepted(Apply(view, op))
  {
    PutInternalKeeps(view, op.name, op.doc);
  }

  lemma ApplyKeeps(view: View, op: Op)
    requires ValidOp(op)
    requires PrefixFree(view) && Accepted(view)
    ensures PrefixFree(Apply(view, op)) && Accepted(Apply(view, op))
  {
    if Refusal(view, op).None? {
      if op.Create? || op.Update? || op.Upsert? {
        DocOpKeeps(view, op);
      } else if op.Delete? || op.DeleteCol? || op.DeleteInternal? {
        FewerKeeps(view, Apply(view, op));
      } else {
        InternalOpKeeps(view, op);
      }
    }
  }

  lemma {:induction false} RunKeeps(view: View, ops: seq<Op>)
    requires ValidRun(ops)
    requires PrefixFree(view) && Accepted(view)
    ensures PrefixFree(Run(view, ops)) && Accepted(Run(view, ops))
    decreases |ops|
  {
    if ops != [] {
      ApplyKeeps(view, ops[0]);
      RunKeeps(Apply(view, ops[0]), ops[1..]);
    }
  }

  // The operation succeeds and concerns the document v.
  ghost predicate Touches(view: View, op: Op, v: Path)
    requires ValidOp(op)
  {
    && Refusal(view, op).None?
    && match op
       case Create(name, _, _) => name == v
       case Update(name, _) => name == v
       case Upsert(name, _, _) => name == v
       case Delete(name) => name == v
       case DeleteCol(name, ns) => v in view.docs && view.docs[v].ns == ns && Below(name, v)
       case _ => false
  }

  ghost predicate Untouched(view: View, ops: seq<Op>, v: Path)
    requires ValidRun(ops)
    decreases |ops|
  {
    ops != [] ==> !Touches(view, ops[0], v) && Untouched(Apply(view, ops[0]), ops[1..], v)
  }

  lemma {:induction false} UntouchedStays(view: View, ops: seq<Op>, v: Path)
    requires ValidRun(ops) && Untouched(view, ops, v)
    ensures v in Run(view, ops).docs <==> v in view.docs
    ensures v in view.docs ==> Run(view, ops).docs[v] == view.docs[v]
    decreases |ops|
  {
    if ops != [] {
      UntouchedStays(Apply(view, ops[0]), ops[1..], v);
    }
  }

  lemma {:induction false} RunAppend(view: View, before: seq<Op>, after: seq<Op>)
    requires ValidRun(before) && ValidRun(after)
    ensures Run(view, before + after) == Run(Run(view, before), after)
    decreases |before|
  {
    if before == [] {
      assert before + after == after;
    } else {
      assert (before + after)[1..] == before[1..] + after;
      RunAppend(Apply(view, before[0]), before[1..], after);
    }
  }

  // Reading gives back the document of the last successful write, in the namespace it went to.
  lemma ReadsLastWrite(view: View, before: seq<Op>, op: Op, after: seq<Op>)
    requires ValidRun(before + [op] + after)
    requires ValidRun(before) && ValidRun(after) && ValidOp(op)
    requires op.Create? || op.Update? || op.Upsert?
    requires Refusal(Run(view, before), op).None?
    requires Untouched(Apply(Run(view, before), op), after, op.name)
    ensures op.name in Run(view, before + [op] + after).docs
    ensures Run(view, before + [op] + after).docs[op.name].doc == op.doc
    ensures Run(view, before + [op] + after).docs[op.name].ns ==
            if op.Update? then Run(view, before).docs[op.name].ns else op.ns
  {
    RunAppend(view, before + [op], after);
    RunAppend(view, before, [op]);
    assert Run(Run(view, before), [op]) == Apply(Run(view, before), op) by {
      assert [op][1..] == [];
    }
    UntouchedStays(Apply(Run(view, before), op), after, op.name);
  }

  // A document can be read exactly from its last creation to its deletion.
  lemma GoneAfterDelete(view: View, before: seq<Op>, op: Op, after: seq<Op>, v: Path)
    requires ValidRun(before + [op] + after)
    requires ValidRun(before) && ValidRun(after) && ValidOp(op)
    requires op.Delete? || op.DeleteCol?
    requires Touches(Run(view, before), op, v)
    requires Untouched(Apply(Run(view, before), op), after, v)
    ensures v !in Run(view, before + [op] + after).docs
  {
    RunAppend(view, before + [op], after);
    RunAppend(view, before, [op]);
    assert Run(Run(view, before), [op]) == Apply(Run(view, before), op) by {
      assert [op][1..] == [];
    }
    UntouchedStays(Apply(Run(view, before), op), after, v);
  }

  // Deleting what was just created gives back the view before.
  lemma CreateThenDelete(view: View, name: Path, ns: string, doc: Json)
    requires ValidOp(Create(name, ns, doc)) && ValidOp(Delete(name))
    requires Refusal(view, Create(name, ns, doc)).None?
    ensures Refusal(Apply(view, Create(name, ns, doc)), Delete(name)).None?
    ensures Apply(Apply(view, Create(name, ns, doc)), Delete(name)) == view
  {
    assert view.docs[name := Entry(ns, doc)] - {name} == view.docs;
  }

  // A name moves to another namespace only by way of a deletion.
  lemma {:induction false} NamespaceSticks(view: View, ops: seq<Op>, v: Path)
    requires ValidRun(ops) && v in view.docs
    requires forall i :: 0 <= i < |ops| ==> !(ops[i].Delete? && ops[i].name == v)
    requires forall i :: 0 <= i < |ops| ==> !(ops[i].DeleteCol? && Below(ops[i].name, v))
    ensures v in Run(view, ops).docs && Run(view, ops).docs[v].ns == view.docs[v].ns
    decreases |ops|
  {
    if ops != [] {
      NamespaceSticks(Apply(view, ops[0]), ops[1..], v);
    }
  }
}
