/** JSON documents as RapidJSON holds them: objects are member lists, so a key may repeat. */
module JsonModel {
  import opened Wrappers

  datatype Member = Member(key: string, value: Json)

  datatype Json =
    | JNull
    | JBool(b: bool)
    | JNumber(n: int)
    | JReal(r: real)
    | JString(s: string)
    | JArray(items: seq<Json>)
    | JObject(members: seq<Member>)

  // A C string ends at the first NUL.
  function CStr(s: string): (r: string)
    ensures r <= s && '\0' !in r && (|r| < |s| ==> s[|r|] == '\0')
  {
    if s == "" || s[0] == '\0' then "" else [s[0]] + CStr(s[1..])
  }

  // The key is read as a C string; objects inside arrays are not looked at.
  predicate Repeats(j: Json, key: string) {
    && j.JObject?
    && (|| (exists a, b | 0 <= a < b < |j.members| :: CStr(j.members[a].key) == CStr(j.members[b].key) == key)
        || (exists a | 0 <= a < |j.members| :: Repeats(j.members[a].value, key)))
  }

  predicate HasDuplicateKeys(j: Json) {
    && j.JObject?
    && (|| (exists a, b | 0 <= a < b < |j.members| :: CStr(j.members[a].key) == CStr(j.members[b].key))
        || (exists a | 0 <= a < |j.members| :: HasDuplicateKeys(j.members[a].value)))
  }

  // Json::checkDuplicateKeys, with the key its message names.
  method CheckDuplicateKeys(v: Json) returns (error: Option<string>)
    ensures error.Some? <==> HasDuplicateKeys(v)
    ensures error.Some? ==> Repeats(v, error.value)
  {
    if !v.JObject? {
      return None;
    }
    var seen: set<string> := {};
    for it := 0 to |v.members|
      invariant forall key :: key in seen <==> exists a :: 0 <= a < it && CStr(v.members[a].key) == key
      invariant forall a, b :: 0 <= a < b < it ==> CStr(v.members[a].key) != CStr(v.members[b].key)
    {
      var key := CStr(v.members[it].key);
      if key in seen {
        return Some(key);
      }
      seen := seen + {key};
    }
    for it := 0 to |v.members|
      invariant forall a :: 0 <= a < it ==> !HasDuplicateKeys(v.members[a].value)
    {
      error := CheckDuplicateKeys(v.members[it].value);
      if error.Some? {
        return error;
      }
    }
    return None;
  }

  // The value reached by members alone, by their places.
  function MemberAt(j: Json, places: seq<nat>): Option<Json>
    decreases |places|
  {
    if places == [] then Some(j)
    else if !j.JObject? || places[0] >= |j.members| then None
    else MemberAt(j.members[places[0]].value, places[1..])
  }

  // Two members of the object that stands there have the same key.
  predicate RepeatsAt(j: Json, places: seq<nat>) {
    && MemberAt(j, places).Some? && MemberAt(j, places).value.JObject?
    && var ms := MemberAt(j, places).value.members;
       exists a, b | 0 <= a < b < |ms| :: CStr(ms[a].key) == CStr(ms[b].key)
  }

  // A document is refused exactly when an object reached through objects alone repeats a key.
  lemma DuplicatesExactly(j: Json)
    ensures HasDuplicateKeys(j) <==> exists places :: RepeatsAt(j, places)
  {
    if HasDuplicateKeys(j) { var places := WhereRepeated(j); }
    if places :| RepeatsAt(j, places) { RepeatedThere(j, places); }
  }

  lemma {:induction false} WhereRepeated(j: Json) returns (places: seq<nat>)
    requires HasDuplicateKeys(j)
    ensures RepeatsAt(j, places)
  {
    if a :| 0 <= a < |j.members| && HasDuplicateKeys(j.members[a].value) {
      var rest := WhereRepeated(j.members[a].value);
      places := [a] + rest;
      assert places[1..] == rest;
    } else {
      places := [];
    }
  }

  lemma {:induction false} RepeatedThere(j: Json, places: seq<nat>)
    requires RepeatsAt(j, places)
    ensures HasDuplicateKeys(j)
    decreases |places|
  {
    if places != [] { RepeatedThere(j.members[places[0]].value, places[1..]); }
  }
}
