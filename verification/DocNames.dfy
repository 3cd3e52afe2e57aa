/** Store::DBDocNames: the two-way index between document names and namespaces. */
module DocNamesIndex {
  import opened Wrappers
  import opened Names

  // One element of the multimap nsToNames_.
  datatype Slot = Slot(ns: string, name: Path)

  // The multimap holds each pair of the map exactly once, and nothing else.
  ghost predicate Inverse(nameToNs: map<Path, string>, nsToNames: seq<Slot>) {
    forall ns, name ::
      multiset(nsToNames)[Slot(ns, name)] == if name in nameToNs && nameToNs[name] == ns then 1 else 0
  }

  predicate IsPrefix(prefix: Path, name: Path, strict: bool) {
    if strict && |prefix| >= |name| then false
    else if |prefix| > |name| then false
    else forall i | 0 <= i < |prefix| :: prefix[i] == name[i]
  }

  lemma IsPrefixMeaning(prefix: Path, name: Path, strict: bool)
    ensures IsPrefix(prefix, name, strict) <==> if strict then Below(prefix, name) else Within(prefix, name)
  {
  }

  lemma EraseSlot(s: seq<Slot>, k: nat)
    requires k < |s|
    ensures multiset(s[..k] + s[k + 1..]) == multiset(s) - multiset{s[k]}
  {
    assert s == s[..k] + [s[k]] + s[k + 1..];
  }

  lemma InverseMember(nameToNs: map<Path, string>, nsToNames: seq<Slot>, slot: Slot)
    requires Inverse(nameToNs, nsToNames)
    ensures slot in nsToNames <==> slot.name in nameToNs && nameToNs[slot.name] == slot.ns
  {
    assert multiset(nsToNames)[Slot(slot.ns, slot.name)] > 0 <==> slot in nsToNames;
  }

  class DocNames {
    var nameToNs: map<Path, string>
    var nsToNames: seq<Slot>

    ghost predicate Valid()
      reads this
    {
      Inverse(nameToNs, nsToNames)
    }

    constructor ()
      ensures Valid() && nameToNs == map[]
    {
      nameToNs, nsToNames := map[], [];
    }

    function GetNamespaceId(name: Path): Option<string>
      reads this
    {
      if name in nameToNs then Some(nameToNs[name]) else None
    }

    predicate ExistsName(name: Path)
      reads this
    {
      name in nameToNs
    }

    method FilterByPrefix(prefix: Path, ns: string) returns (names: seq<Path>)
      requires Valid()
      ensures forall n :: multiset(names)[n] == if n in nameToNs && nameToNs[n] == ns && Below(prefix, n) then 1 else 0
    {
      names := [];
      for i := 0 to |nsToNames|
        invariant forall n ::
            multiset(names)[n] == if Below(prefix, n) then multiset(nsToNames[..i])[Slot(ns, n)] else 0
      {
        IsPrefixMeaning(prefix, nsToNames[i].name, true);
        assert nsToNames[..i + 1] == nsToNames[..i] + [nsToNames[i]];
        if nsToNames[i].ns == ns && IsPrefix(prefix, nsToNames[i].name, true) {
          names := names + [nsToNames[i].name];
        }
      }
      assert nsToNames[..|nsToNames|] == nsToNames;
    }

    // An unordered_multimap fixes no position for a new element.
    method Insert(slot: Slot)
      modifies this`nsToNames
      ensures multiset(nsToNames) == multiset(old(nsToNames)) + multiset{slot}
    {
      var k :| 0 <= k <= |nsToNames|;
      assert nsToNames == nsToNames[..k] + nsToNames[k..];
      nsToNames := nsToNames[..k] + [slot] + nsToNames[k..];
    }

    method Add(name: Path, ns: string) returns (added: bool)
      requires Valid()
      modifies this
      ensures Valid()
      ensures added <==> name !in old(nameToNs)
      ensures nameToNs == if added then old(nameToNs)[name := ns] else old(nameToNs)
    {
      if name in nameToNs {
        return false;
      }
      nameToNs := nameToNs[name := ns];
      Insert(Slot(ns, name));
      return true;
    }

    method ChangeNamespaceId(name: Path, ns: string) returns (changed: bool)
      requires Valid()
      modifies this
      ensures Valid()
      ensures changed <==> name in old(nameToNs)
      ensures nameToNs == if changed then old(nameToNs)[name := ns] else old(nameToNs)
    {
      if name !in nameToNs {
        return false;
      }
      var oldNs := nameToNs[name];
      nameToNs := nameToNs[name := ns];
      EraseFirst(Slot(oldNs, name));
      Insert(Slot(ns, name));
      return true;
    }

    // The search through equal_range(slot.ns) for slot.name.
    method EraseFirst(slot: Slot)
      requires slot in nsToNames
      modifies this`nsToNames
      ensures multiset(nsToNames) == multiset(old(nsToNames)) - multiset{slot}
    {
      var it := 0;
      while it < |nsToNames| && !(nsToNames[it].ns == slot.ns && nsToNames[it].name == slot.name)
        invariant 0 <= it <= |nsToNames|
        invariant slot !in nsToNames[..it]
      {
        it := it + 1;
      }
      assert it < |nsToNames| by {
        assert nsToNames[..|nsToNames|] == nsToNames;
      }
      EraseSlot(nsToNames, it);
      nsToNames := nsToNames[..it] + nsToNames[it + 1..];
    }

    method Del(name: Path)
      requires Valid()
      modifies this
      ensures Valid() && nameToNs == old(nameToNs) - {name}
    {
      if name !in nameToNs {
        return;
      }
      InverseMember(nameToNs, nsToNames, Slot(nameToNs[name], name));
      EraseFirst(Slot(nameToNs[name], name));
      nameToNs := nameToNs - {name};
    }

    // nameToNs_.erase(it->second) and nsToNames_.erase(it), leaving the iterator on the next element.
    method EraseAt(it: nat)
      requires Valid() && it < |nsToNames|
      modifies this
      ensures Valid()
      ensures nameToNs == old(nameToNs) - {old(nsToNames[it]).name}
      ensures nsToNames == old(nsToNames[..it] + nsToNames[it + 1..])
      ensures old(nsToNames[it]).name in old(nameToNs)
      ensures old(nameToNs)[old(nsToNames[it]).name] == old(nsToNames[it]).ns
    {
      var slot := nsToNames[it];
      InverseMember(nameToNs, nsToNames, slot);
      EraseSlot(nsToNames, it);
      nameToNs := nameToNs - {slot.name};
      nsToNames := nsToNames[..it] + nsToNames[it + 1..];
    }

    // Erases while iterating over equal_range(ns).
    method DelCol(name: Path, ns: string)
      requires Valid()
      modifies this
      ensures Valid()
      ensures nameToNs == map n | n in old(nameToNs) && !(old(nameToNs)[n] == ns && Below(name, n)) :: old(nameToNs)[n]
    {
      var it := 0;
      while it < |nsToNames|
        invariant 0 <= it <= |nsToNames| && Valid()
        invariant forall n :: n in nameToNs ==> n in old(nameToNs) && nameToNs[n] == old(nameToNs)[n]
        invariant forall n :: n in old(nameToNs) && n !in nameToNs ==> old(nameToNs)[n] == ns && Below(name, n)
        invariant forall k :: 0 <= k < it ==> !(nsToNames[k].ns == ns && Below(name, nsToNames[k].name))
        decreases |nsToNames| - it
      {
        var slot := nsToNames[it];
        IsPrefixMeaning(name, slot.name, true);
        if slot.ns == ns && IsPrefix(name, slot.name, true) {
          EraseAt(it);
        } else {
          it := it + 1;
        }
      }
      forall n | n in nameToNs ensures !(nameToNs[n] == ns && Below(name, n)) {
        InverseMember(nameToNs, nsToNames, Slot(nameToNs[n], n));
      }
    }
  }
}
