/** The dump functions of geo/src/locator.cpp: a flattened MMDB entry written into a JSON document. */
module MmdbDump {
  import opened Wrappers
  import opened JsonModel
  import opened JsonPointer
  import opened HexText

  datatype Scalar =
    | Utf8(text: string)
    | Bytes(bytes: seq<Byte>)
    | Double(d: real)
    | Float(f: real)
    | Uint16(n: nat)
    | Uint32(n: nat)
    | Boolean(b: bool)
    | Uint64(n: nat)
    | Uint128(n: nat)
    | Int32(i: int)

  // One node of MMDB_entry_data_list_s; the list is the sequence of nodes along next.
  datatype Item = MapItem(size: nat) | ArrayItem(size: nat) | Data(scalar: Scalar) | Other

  datatype Fault =
    | InvalidData // thrown as std::runtime_error
    | InvalidPath // thrown by validatePointer
    | NullList    // a null list is read

  datatype Outcome = Outcome(rest: seq<Item>, doc: Json, fault: Option<Fault>)

  function ScalarJson(scalar: Scalar): Json {
    match scalar
    case Utf8(text) => JString(text)
    case Bytes(bytes) => JString(HexOf(bytes))
    case Double(d) => JReal(d)
    case Float(f) => JReal(f)
    case Uint16(n) => JNumber(n)
    case Uint32(n) => JNumber(n)
    case Boolean(b) => JBool(b)
    case Uint64(n) => JString(Decimal(n))
    case Uint128(n) => JString(Uint128ToHex(n))
    case Int32(i) => JNumber(i)
  }

  // The value holds the scalar: itself, or a text of digits that stand for it.
  predicate Holds(j: Json, scalar: Scalar) {
    match scalar
    case Utf8(text) => j.JString? && j.s == text
    case Bytes(bytes) =>
      && j.JString? && |j.s| == 2 * |bytes|
      && forall i | 0 <= i < |bytes| ::
           && j.s[2 * i] == "0123456789abcdef"[bytes[i] / 16] && j.s[2 * i + 1] == "0123456789abcdef"[bytes[i] % 16]
    case Double(d) => j.JReal? && j.r == d
    case Float(f) => j.JReal? && j.r == f
    case Uint16(n) => j.JNumber? && j.n == n
    case Uint32(n) => j.JNumber? && j.n == n
    case Boolean(b) => j.JBool? && j.b == b
    case Uint64(n) =>
      && j.JString? && j.s != "" && (forall i | 0 <= i < |j.s| :: IsDigit(j.s[i])) && ReadDecimal(j.s) == n
      && (j.s[0] == '0' ==> n == 0)
    case Uint128(n) =>
      && j.JString? && |j.s| == 34 && j.s[..2] == "0x" && (n < U64 * U64 ==> ReadHex(j.s[2..]) == n)
    case Int32(i) => j.JNumber? && j.n == i
  }

  // Every one of the ten kinds.
  lemma ScalarHeld(scalar: Scalar)
    ensures Holds(ScalarJson(scalar), scalar)
  {
    match scalar
    case Bytes(bytes) =>
      forall i | 0 <= i < |bytes|
        ensures HexOf(bytes)[2 * i] == "0123456789abcdef"[bytes[i] / 16]
        ensures HexOf(bytes)[2 * i + 1] == "0123456789abcdef"[bytes[i] % 16]
      {
        HexDigitsOfByte(bytes, i);
      }
    case Uint64(n) =>
      DecimalDigits(n);
      DecimalReads(n);
    case Uint128(n) =>
      Prefixed(n);
      if n < U64 * U64 { Uint128Read(n); }
    case _ =>
  }

  lemma Prefixed(n: nat)
    ensures |Uint128ToHex(n)| == 34 && Uint128ToHex(n)[..2] == "0x"
  {
  }

  // What the three dump functions do to a document, fault or not.
  function Dump(list: seq<Item>, doc: Json, path: string): (r: Outcome)
    ensures |r.rest| <= |list| && (r.fault.None? ==> |r.rest| < |list|)
    decreases |list|, 1
  {
    if list == [] then Outcome(list, doc, Some(NullList))
    else if list[0].Other? then Outcome(list, doc, Some(InvalidData))
    else if Parse(path).None? then Outcome(list, doc, Some(InvalidPath))
    else
      var tokens := Parse(path).value;
      match list[0]
      case MapItem(size) => DumpMembers(list[1..], size, SetAt(doc, tokens, JObject([])), path)
      case ArrayItem(size) => DumpElements(list[1..], size, 0, SetAt(doc, tokens, JArray([])), path)
      case Data(scalar) => Outcome(list[1..], SetAt(doc, tokens, ScalarJson(scalar)), None)
  }

  predicate IsKey(item: Item) { item.Data? && item.scalar.Utf8? }

  function DumpMembers(list: seq<Item>, size: nat, doc: Json, path: string): (r: Outcome)
    ensures |r.rest| <= |list|
    decreases |list|, 0
  {
    if size == 0 || list == [] then Outcome(list, doc, None)
    else if !IsKey(list[0]) then Outcome(list, doc, Some(InvalidData))
    else
      var r := Dump(list[1..], doc, path + "/" + list[0].scalar.text);
      if r.fault.Some? then r else DumpMembers(r.rest, size - 1, r.doc, path)
  }

  function DumpElements(list: seq<Item>, size: nat, index: nat, doc: Json, path: string): (r: Outcome)
    ensures |r.rest| <= |list|
    decreases |list|, 2
  {
    if size == 0 || list == [] then Outcome(list, doc, None)
    else
      var r := Dump(list, doc, ElementPath(path, index));
      if r.fault.Some? then r else DumpElements(r.rest, size - 1, index + 1, r.doc, path)
  }

  function ElementPath(path: string, index: nat): string {
    path + "/" + Decimal(index)
  }

  lemma MembersStep(list: seq<Item>, size: nat, doc: Json, path: string, r: Outcome)
    requires size > 0 && list != [] && IsKey(list[0]) && r == Dump(list[1..], doc, path + "/" + list[0].scalar.text)
    ensures DumpMembers(list, size, doc, path) ==
            if r.fault.Some? then r else DumpMembers(r.rest, size - 1, r.doc, path)
  {
  }

  lemma ElementsStep(list: seq<Item>, size: nat, index: nat, doc: Json, path: string)
    requires size > 0 && list != []
    ensures var r := Dump(list, doc, ElementPath(path, index));
            DumpElements(list, size, index, doc, path) ==
            if r.fault.Some? then r else DumpElements(r.rest, size - 1, index + 1, r.doc, path)
  {
  }

  // json::Json as the dump functions see it.
  class JsonDoc {
    var root: Json

    constructor (root: Json)
      ensures this.root == root
    {
      this.root := root;
    }

    method SetValue(path: string, value: Json) returns (fault: Option<Fault>)
      modifies this
      ensures fault == if Parse(path).None? then Some(InvalidPath) else None
      ensures root == if Parse(path).None? then old(root) else SetAt(old(root), Parse(path).value, value)
    {
      var tokens := Parse(path);
      if tokens.None? {
        return Some(InvalidPath);
      }
      root := SetAt(root, tokens.value, value);
      return None;
    }
  }

  method DumpMap(list: seq<Item>, doc: JsonDoc, path: string) returns (rest: seq<Item>, fault: Option<Fault>)
    modifies doc
    ensures list == [] || !list[0].MapItem? ==> fault == Some(InvalidData) && doc.root == old(doc.root)
    ensures list != [] && list[0].MapItem? ==> Outcome(rest, doc.root, fault) == Dump(list, old(doc.root), path)
    decreases |list|, 0
  {
    if list == [] || !list[0].MapItem? {
      return list, Some(InvalidData);
    }
    fault := doc.SetValue(path, JObject([]));
    if fault.Some? {
      return list, fault;
    }
    rest, fault := DumpMapLoop(list[1..], list[0].size, doc, path);
  }

  method DumpMapLoop(list: seq<Item>, n: nat, doc: JsonDoc, path: string)
    returns (rest: seq<Item>, fault: Option<Fault>)
    modifies doc
    ensures Outcome(rest, doc.root, fault) == DumpMembers(list, n, old(doc.root), path)
    decreases |list|, 2
  {
    ghost var all := DumpMembers(list, n, doc.root, path);
    var size := n;
    rest, fault := list, None;
    while size > 0 && rest != []
      invariant |rest| <= |list|
      invariant all == DumpMembers(rest, size, doc.root, path)
      invariant fault.None?
      decreases size
    {
      if !IsKey(rest[0]) {
        return rest, Some(InvalidData);
      }
      var fullKey := path + "/" + rest[0].scalar.text;
      rest, fault := DumpEntryDataList(rest[1..], doc, fullKey);
      if fault.Some? {
        return;
      }
      size := size - 1;
    }
  }

  method DumpArray(list: seq<Item>, doc: JsonDoc, path: string) returns (rest: seq<Item>, fault: Option<Fault>)
    modifies doc
    ensures list == [] || !list[0].ArrayItem? ==> fault == Some(InvalidData) && doc.root == old(doc.root)
    ensures list != [] && list[0].ArrayItem? ==> Outcome(rest, doc.root, fault) == Dump(list, old(doc.root), path)
    decreases |list|, 0
  {
    if list == [] || !list[0].ArrayItem? {
      return list, Some(InvalidData);
    }
    fault := doc.SetValue(path, JArray([]));
    if fault.Some? {
      return list, fault;
    }
    rest, fault := DumpArrayLoop(list[1..], list[0].size, doc, path);
  }

  method DumpArrayLoop(list: seq<Item>, n: nat, doc: JsonDoc, path: string)
    returns (rest: seq<Item>, fault: Option<Fault>)
    modifies doc
    ensures Outcome(rest, doc.root, fault) == DumpElements(list, n, 0, old(doc.root), path)
    decreases |list|, 2
  {
    ghost var all := DumpElements(list, n, 0, doc.root, path);
    var size, index: nat := n, 0;
    rest, fault := list, None;
    while size > 0 && rest != []
      invariant |rest| <= |list|
      invariant all == DumpElements(rest, size, index, doc.root, path)
      invariant fault.None?
      decreases size
    {
      ElementsStep(rest, size, index, doc.root, path);
      var fullKey := ElementPath(path, index);
      index := index + 1;
      rest, fault := DumpEntryDataList(rest, doc, fullKey);
      if fault.Some? {
        return;
      }
      size := size - 1;
    }
  }

  method DumpEntryDataList(list: seq<Item>, doc: JsonDoc, path: string) returns (rest: seq<Item>, fault: Option<Fault>)
    modifies doc
    ensures Outcome(rest, doc.root, fault) == Dump(list, old(doc.root), path)
    ensures list == [] ==> fault == Some(NullList) && doc.root == old(doc.root)
    ensures list != [] && list[0].Other? ==> fault == Some(InvalidData) && doc.root == old(doc.root)
    ensures list != [] && !list[0].Other? && Parse(path).None? ==>
              fault == Some(InvalidPath) && doc.root == old(doc.root)
    ensures list != [] && list[0].Data? && Parse(path).Some? ==>
              && fault.None? && rest == list[1..]
              && exists j :: Holds(j, list[0].scalar) && doc.root == SetAt(old(doc.root), Parse(path).value, j)
    decreases |list|, 1
  {
    if list != [] && list[0].Data? { ScalarHeld(list[0].scalar); }
    if list == [] {
      return list, Some(NullList);
    }
    match list[0] {
      case MapItem(_) =>
        rest, fault := DumpMap(list, doc, path);
      case ArrayItem(_) =>
        rest, fault := DumpArray(list, doc, path);
      case Other =>
        return list, Some(InvalidData);
      case Data(scalar) =>
        var value := ScalarJson(scalar);
        if scalar.Bytes? {
          var text := BytesToHexString(scalar.bytes);
          value := JString(text);
        }
        fault := doc.SetValue(path, value);
        rest := if fault.None? then list[1..] else list;
    }
  }
}
