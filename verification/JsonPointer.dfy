/** rapidjson::Pointer: section 3 of RFC 6901, and the Set and Get of the library over a document. */
module JsonPointer {
  import opened Wrappers
  import opened JsonModel

  // The part of s before the first '/'.
  function UpToSlash(s: string): (r: string)
    ensures |r| <= |s| && r == s[..|r|] && '/' !in r
    ensures |r| < |s| ==> s[|r|] == '/'
  {
    if s == "" || s[0] == '/' then "" else [s[0]] + UpToSlash(s[1..])
  }

  // "~0" and "~1" stand for '~' and '/'; any other '~' is an error.
  function Decode(s: string): (r: Option<string>)
    ensures r.Some? ==> |r.value| <= |s|
    ensures r == Some(s) <==> '~' !in s
  {
    if s == "" then Some("")
    else if s[0] == '~' then
      if |s| < 2 || (s[1] != '0' && s[1] != '1') then None
      else
        match Decode(s[2..])
        case None => None
        case Some(rest) => Some([if s[1] == '0' then '~' else '/'] + rest)
    else
      assert s == [s[0]] + s[1..];
      match Decode(s[1..])
      case None => None
      case Some(rest) => Some([s[0]] + rest)
  }

  function Tokens(s: string): Option<seq<string>> {
    if s == "" then Some([])
    else if s[0] != '/' then None
    else
      var raw := UpToSlash(s[1..]);
      Prepend(Decode(raw), Tokens(s[1 + |raw|..]))
  }

  function Prepend(token: Option<string>, rest: Option<seq<string>>): Option<seq<string>> {
    match (token, rest)
    case (Some(t), Some(ts)) => Some([t] + ts)
    case _ => None
  }

  function Both(a: Option<seq<string>>, b: Option<seq<string>>): Option<seq<string>> {
    match (a, b)
    case (Some(ts), Some(us)) => Some(ts + us)
    case _ => None
  }

  // The library is handed a C string.
  function Parse(path: string): Option<seq<string>> {
    Tokens(CStr(path))
  }

  predicate IsDigit(c: char) { '0' <= c <= '9' }

  // The 32-bit accumulation of the library, with its check for wrap-around.
  function Accumulate(digits: string): Option<nat>
    requires forall i :: 0 <= i < |digits| ==> IsDigit(digits[i])
  {
    if digits == "" then Some(0)
    else
      match Accumulate(digits[..|digits| - 1])
      case None => None
      case Some(n) =>
        var m := (n * 10 + digits[|digits| - 1] as int - '0' as int) % U32;
        if m < n then None else Some(m)
  }

  // A token that may index an array; the largest 32-bit number marks "no index".
  function Index(token: string): Option<nat> {
    if token == "" || (exists i | 0 <= i < |token| :: !IsDigit(token[i])) || (|token| > 1 && token[0] == '0') then None
    else if Accumulate(token) == Some(U32 - 1) then None
    else Accumulate(token)
  }

  function Decimal(n: nat): string {
    if n < 10 then ['0' + n as char] else Decimal(n / 10) + ['0' + (n % 10) as char]
  }

  lemma {:induction false} DecimalDigits(n: nat)
    ensures Decimal(n) != "" && forall i :: 0 <= i < |Decimal(n)| ==> IsDigit(Decimal(n)[i])
    ensures Decimal(n)[0] == '0' ==> n == 0
  {
    if n >= 10 { DecimalDigits(n / 10); }
  }

  lemma LastDigit(n: nat)
    requires n >= 10
    ensures var s := Decimal(n);
            s != "" && s[..|s| - 1] == Decimal(n / 10) && s[|s| - 1] as int - '0' as int == n % 10
  {
  }

  // The number that a text of decimal digits stands for.
  function ReadDecimal(s: string): nat {
    if s == "" then 0
    else ReadDecimal(s[..|s| - 1]) * 10 + if IsDigit(s[|s| - 1]) then s[|s| - 1] as int - '0' as int else 0
  }

  lemma {:induction false} DecimalReads(n: nat)
    ensures ReadDecimal(Decimal(n)) == n
  {
    DecimalDigits(n);
    if n < 10 {
      assert Decimal(n)[..0] == "";
    } else {
      DecimalReads(n / 10);
      LastDigit(n);
    }
  }

  lemma AccumulateDigit(s: string, p: nat, n: nat)
    requires s != "" && forall i :: 0 <= i < |s| ==> IsDigit(s[i])
    requires Accumulate(s[..|s| - 1]) == Some(p) && n == p * 10 + (s[|s| - 1] as int - '0' as int) < U32
    ensures Accumulate(s) == Some(n)
  {
    InWord(n);
  }

  lemma InWord(n: nat)
    requires n < U32
    ensures n % U32 == n
  {
  }

  lemma {:induction false} DecimalAccumulates(n: nat)
    requires n < U32
    ensures forall i :: 0 <= i < |Decimal(n)| ==> IsDigit(Decimal(n)[i])
    ensures Accumulate(Decimal(n)) == Some(n)
  {
    DecimalDigits(n);
    if n < 10 {
      assert Decimal(n)[..0] == "";
    } else {
      DecimalAccumulates(n / 10);
      LastDigit(n);
      AccumulateDigit(Decimal(n), n / 10, n);
    }
  }

  // std::to_string of an index is read back as that index.
  lemma IndexOfDecimal(n: nat)
    requires n < U32 - 1
    ensures Index(Decimal(n)) == Some(n)
  {
    DecimalDigits(n);
    DecimalAccumulates(n);
    if Decimal(n)[0] == '0' { assert n == 0 && |Decimal(n)| == 1; }
  }

  predicate PlainKey(key: string) {
    '/' !in key && '~' !in key && '\0' !in key
  }

  lemma {:induction false} CStrOf(s: string)
    ensures CStr(s) == s <==> '\0' !in s
    ensures |CStr(s)| <= |s| && CStr(s) == s[..|CStr(s)|]
  {
    if s != "" && s[0] != '\0' {
      CStrOf(s[1..]);
      assert s == [s[0]] + s[1..];
    }
  }

  lemma {:induction false} CStrAppend(p: string, s: string)
    requires '\0' !in p
    ensures CStr(p + s) == p + CStr(s)
  {
    if p == "" {
      assert p + s == s;
    } else {
      assert (p + s)[1..] == p[1..] + s;
      CStrAppend(p[1..], s);
    }
  }

  lemma {:induction false} UpToSlashAppend(p: string, s: string)
    ensures UpToSlash(p + "/" + s) == UpToSlash(p)
  {
    if p == "" || p[0] == '/' {
      assert p + "/" + s == if p == "" then ['/'] + s else ['/'] + (p[1..] + "/" + s);
    } else {
      assert p + "/" + s == [p[0]] + (p[1..] + "/" + s);
      UpToSlashAppend(p[1..], s);
    }
  }

  // Pointers concatenate.
  lemma {:induction false} TokensAppend(p: string, s: string)
    requires s == "" || s[0] == '/'
    ensures Tokens(p + s) == Both(Tokens(p), Tokens(s))
    decreases |p|
  {
    if s == "" {
      assert p + s == p;
      assert Tokens(p).Some? ==> Tokens(p).value + [] == Tokens(p).value;
    } else if p == "" {
      assert p + s == s;
      assert Tokens(s).Some? ==> [] + Tokens(s).value == Tokens(s).value;
    } else if p[0] == '/' {
      var raw := UpToSlash(p[1..]);
      assert (p + s)[1..] == p[1..] + "/" + s[1..];
      UpToSlashAppend(p[1..], s[1..]);
      assert (p + s)[1 + |raw|..] == p[1 + |raw|..] + s;
      TokensAppend(p[1 + |raw|..], s);
      PrependBoth(Decode(raw), Tokens(p[1 + |raw|..]), Tokens(s));
    }
  }

  lemma PrependBoth(token: Option<string>, a: Option<seq<string>>, b: Option<seq<string>>)
    ensures Prepend(token, Both(a, b)) == Both(Prepend(token, a), b)
  {
    if token.Some? && a.Some? && b.Some? {
      assert [token.value] + (a.value + b.value) == [token.value] + a.value + b.value;
    }
  }

  // "/" + key is one token, the key itself, exactly when the key is plain; otherwise its first token differs.
  lemma KeyTokens(key: string)
    ensures PlainKey(key) ==> Parse("/" + key) == Some([key])
    ensures Parse("/" + key).Some? ==> Parse("/" + key).value != []
    ensures Parse("/" + key).Some? && !PlainKey(key) ==> Parse("/" + key).value[0] != key
  {
    var s := CStr("/" + key);
    assert ("/" + key)[1..] == key;
    CStrOf(key);
    assert s[1..] == CStr(key);
    var raw := UpToSlash(CStr(key));
    if PlainKey(key) {
      NoSlash(key);
      assert raw == key && Decode(raw) == Some(key);
      assert s[1 + |raw|..] == "" && Tokens("") == Some([]);
      var none: seq<string> := [];
      assert [key] + none == [key];
      assert Tokens(s) == Prepend(Some(key), Some(none));
    } else if |raw| == |key| {
      assert raw == key;
    }
  }

  lemma {:induction false} NoSlash(s: string)
    requires '/' !in s
    ensures UpToSlash(s) == s
  {
    if s != "" {
      NoSlash(s[1..]);
      assert s == [s[0]] + s[1..];
    }
  }

  function FindMember(members: seq<Member>, key: string): (i: nat)
    ensures i <= |members|
    ensures i < |members| ==> members[i].key == key
    ensures forall k :: 0 <= k < i ==> members[k].key != key
  {
    if members == [] then 0 else if members[0].key == key then 0 else 1 + FindMember(members[1..], key)
  }

  // The member takes the value in its place, or comes last.
  function PutMember(members: seq<Member>, key: string, value: Json): seq<Member> {
    var i := FindMember(members, key);
    if i < |members| then members[i := Member(key, value)] else members + [Member(key, value)]
  }

  function Pad(items: seq<Json>, size: nat): (r: seq<Json>)
    ensures |r| == if |items| < size then size else |items|
    ensures forall i :: 0 <= i < |items| ==> r[i] == items[i]
    ensures forall i :: |items| <= i < |r| ==> r[i] == JNull
  {
    if |items| < size then items + seq(size - |items|, _ => JNull) else items
  }

  // The "-" token pushes a new element at every resolution.
  predicate Appends(j: Json, token: string) {
    j.JArray? && token == "-"
  }

  // The kind of value Pointer::Create makes of j before it steps into the token.
  function Coerce(j: Json, token: string): (r: Json)
    ensures r.JArray? || r.JObject?
    ensures r.JArray? ==> Index(token).Some?
  {
    if Index(token).None? then if j.JObject? then j else JObject([])
    else if j.JArray? || j.JObject? then j else JArray([])
  }

  // The value Create steps into: what is there, or a fresh null.
  function Child(j: Json, token: string): Json {
    var base := Coerce(j, token);
    if base.JArray? then
      var i := Index(token).value;
      if i < |base.items| then base.items[i] else JNull
    else
      var i := FindMember(base.members, token);
      if i < |base.members| then base.members[i].value else JNull
  }

  function Attach(j: Json, token: string, value: Json): Json {
    var base := Coerce(j, token);
    if base.JArray? then
      var i := Index(token).value;
      JArray(Pad(base.items, i + 1)[i := value])
    else JObject(PutMember(base.members, token, value))
  }

  // Pointer::Set
  function SetAt(j: Json, ts: seq<string>, value: Json): Json
    decreases |ts|
  {
    if ts == [] then value
    else if Appends(j, ts[0]) then JArray(j.items + [SetAt(JNull, ts[1..], value)])
    else Attach(j, ts[0], SetAt(Child(j, ts[0]), ts[1..], value))
  }

  // Pointer::Get
  function GetAt(j: Json, ts: seq<string>): Option<Json>
    decreases |ts|
  {
    if ts == [] then Some(j)
    else if j.JObject? then
      var i := FindMember(j.members, ts[0]);
      if i < |j.members| then GetAt(j.members[i].value, ts[1..]) else None
    else if j.JArray? then
      if Index(ts[0]).Some? && Index(ts[0]).value < |j.items| then GetAt(j.items[Index(ts[0]).value], ts[1..]) else None
    else None
  }

  // Resolving the pointer pushes no element, so that resolving it twice leads to the same place.
  predicate Steady(j: Json, ts: seq<string>)
    decreases |ts|
  {
    ts != [] ==> !Appends(j, ts[0]) && Steady(Child(j, ts[0]), ts[1..])
  }

  lemma FindFirst(members: seq<Member>, key: string, i: nat)
    requires i <= |members|
    requires i < |members| ==> members[i].key == key
    requires forall k :: 0 <= k < i ==> members[k].key != key
    ensures FindMember(members, key) == i
  {
  }

  lemma PutMemberTwice(members: seq<Member>, key: string, v: Json, w: Json)
    ensures var once := PutMember(members, key, v);
            var i := FindMember(once, key);
            && (i < |once| && once[i].value == v)
            && PutMember(once, key, w) == PutMember(members, key, w)
  {
    var i := FindMember(members, key);
    var once := PutMember(members, key, v);
    FindFirst(once, key, i);
  }

  lemma AttachTwice(j: Json, token: string, v: Json, w: Json)
    requires !Appends(j, token)
    ensures !Appends(Attach(j, token, v), token)
    ensures Child(Attach(j, token, v), token) == v
    ensures Attach(Attach(j, token, v), token, w) == Attach(j, token, w)
  {
    var base := Coerce(j, token);
    if base.JObject? {
      PutMemberTwice(base.members, token, v, w);
    } else {
      var i := Index(token).value;
      var once, twice := Pad(base.items, i + 1)[i := v], Pad(base.items, i + 1)[i := w];
      assert Pad(once, i + 1) == once && once[i := w] == twice;
    }
  }

  lemma SetStep(j: Json, ts: seq<string>, x: Json)
    requires ts != [] && !Appends(j, ts[0])
    ensures SetAt(j, ts, x) == Attach(j, ts[0], SetAt(Child(j, ts[0]), ts[1..], x))
  {
  }

  lemma TailAppend(p: seq<string>, q: seq<string>)
    requires p != []
    ensures (p + q)[0] == p[0] && (p + q)[1..] == p[1..] + q
  {
  }

  // Setting again through one token, once it was set.
  lemma SetAgain(j: Json, ts: seq<string>, d: Json, x: Json)
    requires ts != [] && !Appends(j, ts[0])
    ensures SetAt(Attach(j, ts[0], d), ts, x) == Attach(j, ts[0], SetAt(d, ts[1..], x))
  {
    AttachTwice(j, ts[0], d, SetAt(d, ts[1..], x));
    SetStep(Attach(j, ts[0], d), ts, x);
  }

  // Setting below a place just set is setting the place to the finished value.
  lemma {:induction false} SetBelow(j: Json, p: seq<string>, a: Json, q: seq<string>, x: Json)
    requires Steady(j, p)
    ensures SetAt(SetAt(j, p, a), p + q, x) == SetAt(j, p, SetAt(a, q, x))
    decreases |p|
  {
    if p == [] {
      assert p + q == q;
    } else {
      TailAppend(p, q);
      SetStep(j, p, a);
      SetStep(j, p, SetAt(a, q, x));
      SetAgain(j, p + q, SetAt(Child(j, p[0]), p[1..], a), x);
      SetBelow(Child(j, p[0]), p[1..], a, q, x);
    }
  }

  // What was set is what Get finds.
  lemma {:induction false} GetSet(j: Json, p: seq<string>, x: Json)
    requires Steady(j, p)
    ensures GetAt(SetAt(j, p, x), p) == Some(x)
    decreases |p|
  {
    if p != [] {
      var d := SetAt(Child(j, p[0]), p[1..], x);
      AttachTwice(j, p[0], d, d);
      GetSet(Child(j, p[0]), p[1..], x);
    }
  }

  // Neither of two pointers leads through the other.
  predicate Apart(p: seq<string>, q: seq<string>)
    decreases |p|
  {
    && p != [] && q != []
    && (if p[0] == q[0] then Apart(p[1..], q[1..])
        else Index(p[0]).Some? ==> Index(p[0]) != Index(q[0]))
  }

  lemma FindOther(members: seq<Member>, key: string, other: string, value: Json)
    requires key != other
    ensures var i, once := FindMember(members, other), PutMember(members, key, value);
            if i < |members| then FindMember(once, other) == i && once[i] == members[i]
            else FindMember(once, other) == |once|
  {
    var i, once := FindMember(members, other), PutMember(members, key, value);
    FindFirst(once, other, if i < |members| then i else |once|);
  }

  // How many elements the array has that Create makes of the value, when it makes one.
  function Elements(j: Json): nat {
    if j.JArray? then |j.items| else 0
  }

  // In a new document with x at ts, something is at q: a part of x, a value on the way to it, or one of the nulls that
  // an array was filled up with.
  predicate LeadsInto(ts: seq<string>, x: Json, q: seq<string>)
    decreases |ts|
  {
    if q == [] then true
    else if ts == [] then GetAt(x, q).Some?
    else if q[0] == ts[0] || (Index(ts[0]).Some? && Index(q[0]) == Index(ts[0])) then LeadsInto(ts[1..], x, q[1..])
    else |q| == 1 && Index(ts[0]).Some? && Index(q[0]).Some? && Index(q[0]).value < Index(ts[0]).value
  }

  lemma {:induction false} LeadsIntoNew(ts: seq<string>, x: Json, q: seq<string>)
    ensures GetAt(SetAt(JNull, ts, x), q).Some? <==> LeadsInto(ts, x, q)
    decreases |ts|
  {
    if ts != [] && q != [] {
      var d := SetAt(Child(JNull, ts[0]), ts[1..], x);
      SetStep(JNull, ts, x);
      LeadsIntoNew(ts[1..], x, q[1..]);
      NewChild(ts[0], d, q);
    }
  }

  // A new object with one member, or a new array with one element behind nulls.
  lemma NewChild(t: string, d: Json, q: seq<string>)
    requires q != []
    ensures Child(JNull, t) == JNull
    ensures GetAt(Attach(JNull, t, d), q) ==
            if Index(t).None? then (if q[0] == t then GetAt(d, q[1..]) else None)
            else if Index(q[0]) == Index(t) then GetAt(d, q[1..])
            else if Index(q[0]).Some? && Index(q[0]).value < Index(t).value then GetAt(JNull, q[1..]) else None
  {
    if Index(t).None? {
      assert Attach(JNull, t, d) == JObject([Member(t, d)]);
    }
  }

  // Setting p to x neither fills an array up past q with nulls, nor appends an element that q leads to, nor makes an
  // object of an array that q leads into.
  predicate Undisturbed(j: Json, p: seq<string>, x: Json, q: seq<string>)
    decreases |p|
  {
    && p != [] && q != []
    && if p[0] == q[0] then Appends(j, p[0]) || Undisturbed(Child(j, p[0]), p[1..], x, q[1..])
       else if j.JObject? then true
       else if Appends(j, p[0]) then
         Index(q[0]) == Some(|j.items|) ==> !LeadsInto(p[1..], x, q[1..])
       else if Index(p[0]).None? then GetAt(j, q).None?
       else !(|q| == 1 && Index(q[0]).Some? && Elements(j) <= Index(q[0]).value < Index(p[0]).value)
  }

  lemma GetChild(j: Json, q: seq<string>)
    requires |q| > 1 && !Appends(j, q[0])
    ensures GetAt(j, q) == GetAt(Child(j, q[0]), q[1..])
  {
  }

  lemma GetAttached(j: Json, q: seq<string>, d: Json)
    requires q != [] && !Appends(j, q[0])
    ensures GetAt(Attach(j, q[0], d), q) == GetAt(d, q[1..])
  {
    AttachTwice(j, q[0], d, d);
    var base := Coerce(j, q[0]);
    if base.JObject? { PutMemberTwice(base.members, q[0], d, d); }
  }

  // Beside the place that is set.
  lemma GetBeside(j: Json, t: string, d: Json, x: Json, q: seq<string>)
    requires q != [] && t != q[0] && !Appends(j, t) && (Index(t).Some? ==> Index(t) != Index(q[0]))
    ensures GetAt(Attach(j, t, d), q) == GetAt(j, q) <==> Undisturbed(j, [t], x, q)
  {
    if Coerce(j, t).JObject? { BesideMember(j, t, d, x, q); } else { BesideElement(j, t, d, x, q); }
  }

  lemma BesideMember(j: Json, t: string, d: Json, x: Json, q: seq<string>)
    requires q != [] && t != q[0] && !Appends(j, t) && Coerce(j, t).JObject?
    ensures GetAt(Attach(j, t, d), q) == GetAt(j, q) <==> Undisturbed(j, [t], x, q)
  {
    FindOther(Coerce(j, t).members, t, q[0], d);
  }

  lemma BesideElement(j: Json, t: string, d: Json, x: Json, q: seq<string>)
    requires q != [] && t != q[0] && !Appends(j, t) && Index(t) != Index(q[0]) && Coerce(j, t).JArray?
    ensures GetAt(Attach(j, t, d), q) == GetAt(j, q) <==> Undisturbed(j, [t], x, q)
  {
    if Index(q[0]).Some? && Elements(j) <= Index(q[0]).value < Index(t).value {
      assert GetAt(Attach(j, t, d), q) == GetAt(JNull, q[1..]);
    }
  }

  // Beside an element that is appended, or at it.
  lemma GetAppended(items: seq<Json>, d: Json, q: seq<string>)
    requires q != []
    ensures GetAt(JArray(items + [d]), q) == GetAt(JArray(items), q) <==>
            (Index(q[0]) == Some(|items|) ==> GetAt(d, q[1..]).None?)
  {
  }

  lemma AppendApart(j: Json, p: seq<string>, x: Json, q: seq<string>)
    requires p != [] && q != [] && Appends(j, p[0])
    ensures GetAt(SetAt(j, p, x), q) == GetAt(j, q) <==> Undisturbed(j, p, x, q)
  {
    GetAppended(j.items, SetAt(JNull, p[1..], x), q);
    LeadsIntoNew(p[1..], x, q[1..]);
    assert Index("-").None? by { assert !IsDigit("-"[0]); }
  }

  // Setting one place leaves a place apart from it as it was exactly when it does not disturb it.
  lemma {:induction false} SetApart(j: Json, p: seq<string>, x: Json, q: seq<string>)
    requires Apart(p, q)
    ensures GetAt(SetAt(j, p, x), q) == GetAt(j, q) <==> Undisturbed(j, p, x, q)
    decreases |p|
  {
    if Appends(j, p[0]) {
      AppendApart(j, p, x, q);
    } else {
      var d := SetAt(Child(j, p[0]), p[1..], x);
      SetStep(j, p, x);
      if p[0] == q[0] {
        SetApart(Child(j, p[0]), p[1..], x, q[1..]);
        GetAttached(j, q, d);
        GetChild(j, q);
      } else {
        GetBeside(j, p[0], d, x, q);
      }
    }
  }
}
