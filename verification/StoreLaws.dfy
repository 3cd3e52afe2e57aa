/** When each operation of a store succeeds and what it leaves, in terms of names and documents alone. */
module StoreLaws {
  import opened Wrappers
  import opened Names
  import opened JsonModel
  import opened FileDrivers
  import opened StoreView

  // Where a name may be created: no document of the namespace is a strict prefix of it or has it as a strict prefix.
  lemma CreateLaw(view: View, name: Path, ns: string, doc: Json)
    requires ValidOp(Create(name, ns, doc))
    ensures var op := Create(name, ns, doc);
            && (Refusal(view, op).None? <==>
                  && name !in view.docs && |name| <= 8 && !HasDuplicateKeys(doc)
                  && forall w :: w in view.docs && view.docs[w].ns == ns ==> !(name < w) && !(w < name))
            && (Refusal(view, op).None? ==> Apply(view, op) == View(view.docs[name := Entry(ns, doc)], view.internals))
            && (Refusal(view, op).Some? ==> Apply(view, op) == view)
            && (Refusal(view, op) == Some(DocumentExists) <==> name in view.docs)
  {
  }

  lemma UpdateLaw(view: View, name: Path, doc: Json)
    requires ValidOp(Update(name, doc))
    ensures var op := Update(name, doc);
            && (Refusal(view, op).None? <==> name in view.docs && !HasDuplicateKeys(doc))
            && (Refusal(view, op).None? ==>
                  Apply(view, op) == View(view.docs[name := Entry(view.docs[name].ns, doc)], view.internals))
            && (Refusal(view, op).Some? ==> Apply(view, op) == view)
            && (Refusal(view, op) == Some(DocumentMissing) <==> name !in view.docs)
  {
  }

  lemma UpsertLaw(view: View, name: Path, ns: string, doc: Json)
    requires ValidOp(Upsert(name, ns, doc))
    ensures var op := Upsert(name, ns, doc);
            && (name in view.docs ==>
                  (Refusal(view, op).None? <==> view.docs[name].ns == ns && !HasDuplicateKeys(doc)))
            && (name !in view.docs ==>
                  (Refusal(view, op).None? <==>
                     && |name| <= 8 && !HasDuplicateKeys(doc)
                     && forall w :: w in view.docs && view.docs[w].ns == ns ==> !(name < w) && !(w < name)))
            && (Refusal(view, op).None? ==> Apply(view, op) == View(view.docs[name := Entry(ns, doc)], view.internals))
            && (Refusal(view, op).Some? ==> Apply(view, op) == view)
            && (Refusal(view, op) == Some(OtherNamespace) <==> name in view.docs && view.docs[name].ns != ns)
  {
  }

  lemma DeleteLaw(view: View, name: Path)
    requires ValidOp(Delete(name))
    ensures var op := Delete(name);
            && Refusal(view, op) == (if name in view.docs then None else Some(DocumentMissing))
            && Apply(view, op).internals == view.internals
            && (forall w :: w in Apply(view, op).docs <==> w in view.docs && w != name)
            && (forall w :: w in Apply(view, op).docs ==> Apply(view, op).docs[w] == view.docs[w])
  {
  }

  lemma DeleteColLaw(view: View, name: Path, ns: string)
    requires ValidOp(DeleteCol(name, ns))
    ensures var op := DeleteCol(name, ns);
            && (Refusal(view, op).None? <==> exists w :: w in view.docs && view.docs[w].ns == ns && name < w)
            && (Refusal(view, op).Some? ==> Refusal(view, op) == Some(CollectionMissing))
            && Apply(view, op).internals == view.internals
            && (forall w :: w in Apply(view, op).docs <==> w in view.docs && !(view.docs[w].ns == ns && name < w))
            && (forall w :: w in Apply(view, op).docs ==> Apply(view, op).docs[w] == view.docs[w])
  {
  }

  lemma CreateInternalLaw(view: View, name: Path, doc: Json)
    requires ValidOp(CreateInternal(name, doc))
    ensures var op := CreateInternal(name, doc);
            && (Refusal(view, op).None? <==>
                  && name[0] != "namespaces" && !HasDuplicateKeys(doc)
                  && forall w :: w in view.internals ==> !(name <= w) && !(w < name))
            && (Refusal(view, op).None? ==> Apply(view, op) == View(view.docs, view.internals[name := doc]))
            && (Refusal(view, op).Some? ==> Apply(view, op) == view)
            && (Refusal(view, op) == Some(ReservedName) <==> name[0] == "namespaces")
  {
  }

  lemma UpdateInternalLaw(view: View, name: Path, doc: Json)
    requires ValidOp(UpdateInternal(name, doc))
    ensures var op := UpdateInternal(name, doc);
            && (Refusal(view, op).None? <==>
                  name[0] != "namespaces" && name in view.internals && !HasDuplicateKeys(doc))
            && (Refusal(view, op).None? ==> Apply(view, op) == View(view.docs, view.internals[name := doc]))
            && (Refusal(view, op).Some? ==> Apply(view, op) == view)
            && (Refusal(view, op) == Some(ReservedName) <==> name[0] == "namespaces")
  {
  }

  lemma UpsertInternalLaw(view: View, name: Path, doc: Json)
    requires ValidOp(UpsertInternal(name, doc))
    ensures var op := UpsertInternal(name, doc);
            && (Refusal(view, op).None? <==>
                  && name[0] != "namespaces" && !HasDuplicateKeys(doc)
                  && (name in view.internals || forall w :: w in view.internals ==> !(name <= w) && !(w < name)))
            && (Refusal(view, op).None? ==> Apply(view, op) == View(view.docs, view.internals[name := doc]))
            && (Refusal(view, op).Some? ==> Apply(view, op) == view)
            && (Refusal(view, op) == Some(ReservedName) <==> name[0] == "namespaces")
  {
  }

  lemma DeleteInternalLaw(view: View, name: Path)
    requires ValidOp(DeleteInternal(name))
    ensures var op := DeleteInternal(name);
            && (Refusal(view, op).None? <==> name[0] != "namespaces" && name in view.internals)
            && (Refusal(view, op) == Some(ReservedName) <==> name[0] == "namespaces")
            && Apply(view, op).docs == view.docs
            && (forall w :: w in Apply(view, op).internals <==>
                  w in view.internals && !(name[0] != "namespaces" && w == name))
            && (forall w :: w in Apply(view, op).internals ==> Apply(view, op).internals[w] == view.internals[w])
  {
  }

  // ----- runs -----

  // No operation of the run removes the name.
  predicate NoneRemoves(ops: seq<Op>, v: Path) {
    forall i | 0 <= i < |ops| ::
      !(ops[i].Delete? && ops[i].name == v) && !(ops[i].DeleteCol? && ops[i].name < v)
  }

  lemma {:induction false} StaysThere(view: View, ops: seq<Op>, v: Path)
    requires ValidRun(ops) && v in view.docs && NoneRemoves(ops, v)
    ensures v in Run(view, ops).docs
    decreases |ops|
  {
    if ops != [] {
      assert !(ops[0].Delete? && ops[0].name == v) && !(ops[0].DeleteCol? && ops[0].name < v);
      forall i | 0 <= i < |ops| - 1
        ensures !(ops[1..][i].Delete? && ops[1..][i].name == v) && !(ops[1..][i].DeleteCol? && ops[1..][i].name < v)
      {
        assert ops[1..][i] == ops[i + 1];
      }
      StaysThere(Apply(view, ops[0]), ops[1..], v);
    }
  }

  // After a creation that was accepted, and until a removal, every update without repeated keys is accepted and read.
  lemma UpdateAccepted(view: View, before: seq<Op>, op: Op, after: seq<Op>, doc: Json)
    requires ValidRun(before) && ValidRun(after) && ValidOp(op) && (op.Create? || op.Upsert?)
    requires Refusal(Run(view, before), op).None? && NoneRemoves(after, op.name)
    ensures ValidOp(Update(op.name, doc))
    ensures var there := Run(Apply(Run(view, before), op), after);
            && op.name in there.docs
            && (Refusal(there, Update(op.name, doc)).None? <==> !HasDuplicateKeys(doc))
            && (!HasDuplicateKeys(doc) ==>
                  Apply(there, Update(op.name, doc)).docs[op.name] == Entry(there.docs[op.name].ns, doc))
  {
    StaysThere(Apply(Run(view, before), op), after, op.name);
  }

  // The operation succeeds and concerns the internal document v.
  ghost predicate TouchesInternal(view: View, op: Op, v: Path)
    requires ValidOp(op)
  {
    && Refusal(view, op).None?
    && (op.CreateInternal? || op.UpdateInternal? || op.UpsertInternal? || op.DeleteInternal?)
    && op.name == v
  }

  ghost predicate UntouchedInternal(view: View, ops: seq<Op>, v: Path)
    requires ValidRun(ops)
    decreases |ops|
  {
    ops != [] ==> !TouchesInternal(view, ops[0], v) && UntouchedInternal(Apply(view, ops[0]), ops[1..], v)
  }

  lemma {:induction false} InternalStays(view: View, ops: seq<Op>, v: Path)
    requires ValidRun(ops) && UntouchedInternal(view, ops, v)
    ensures v in Run(view, ops).internals <==> v in view.internals
    ensures v in view.internals ==> Run(view, ops).internals[v] == view.internals[v]
    decreases |ops|
  {
    if ops != [] { InternalStays(Apply(view, ops[0]), ops[1..], v); }
  }

  // Reading an internal document gives back the last successful write, and none after a removal.
  lemma ReadsLastInternal(view: View, op: Op, after: seq<Op>)
    requires ValidRun(after) && ValidOp(op) && Refusal(view, op).None?
    requires op.CreateInternal? || op.UpdateInternal? || op.UpsertInternal? || op.DeleteInternal?
    requires UntouchedInternal(Apply(view, op), after, op.name)
    ensures var later := Run(Apply(view, op), after);
            if op.DeleteInternal? then op.name !in later.internals
            else op.name in later.internals && later.internals[op.name] == op.doc
  {
    InternalStays(Apply(view, op), after, op.name);
  }
}
