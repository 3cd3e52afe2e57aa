/** When formatJsonPath writes the same pointer as the parts of the dotted path do. */
module PathAgreement {
  import opened Wrappers
  import opened StringUtils
  import opened PathCodec

  // The text formatJsonPath writes for the rest of a path, character by character.
  function Written(s: string, prevCharWasSlash: bool): string {
    if s == "" then "" else WrittenChar(s[0], prevCharWasSlash) + Written(s[1..], s[0] == '\\')
  }

  function WrittenChar(c: char, prevCharWasSlash: bool): string {
    if c == '.' && !prevCharWasSlash then "/"
    else if c == '\\' && !prevCharWasSlash then ""
    else EscapeChar(c)
  }

  // The pointer text that the parts of the rest of a path stand for.
  function Meant(s: string): string
    decreases |s|
  {
    if s == "" then ""
    else if s[0] == '\\' && |s| > 1 && (s[1] == '\\' || s[1] == '.') then EscapeChar(s[1]) + Meant(s[2..])
    else if s[0] == '.' then "/" + Meant(s[1..])
    else EscapeChar(s[0]) + Meant(s[1..])
  }

  // Every run of backslashes is one before a '.', or two or three before something else or the end.
  predicate Regular(s: string)
    decreases |s|
  {
    if s == "" then true
    else if s[0] != '\\' then Regular(s[1..])
    else if |s| == 1 then false
    else if s[1] != '\\' then s[1] == '.' && Regular(s[2..])
    else if |s| == 2 then true
    else if s[2] != '\\' then s[2] != '.' && Regular(s[2..])
    else |s| == 3 || (s[3] != '\\' && s[3] != '.' && Regular(s[3..]))
  }

  lemma {:induction false} FormatWrites(s: string, prevCharWasSlash: bool)
    ensures FormatDots(EscapeToken(s), prevCharWasSlash) == Written(s, prevCharWasSlash)
  {
    if s != "" {
      var c, e, rest := s[0], EscapeChar(s[0]), EscapeToken(s[1..]);
      EscapeStep(s);
      FormatWrites(s[1..], c == '\\');
      if |e| == 1 {
        assert (e + rest)[1..] == rest;
      } else {
        FormatEscape(e, rest, prevCharWasSlash);
      }
    }
  }

  lemma FormatEscape(e: string, rest: string, prevCharWasSlash: bool)
    requires e == "~0" || e == "~1"
    ensures FormatDots(e + rest, prevCharWasSlash) == e + FormatDots(rest, false)
  {
    var tail := [e[1]] + rest;
    assert (e + rest)[1..] == tail && tail[1..] == rest;
    assert FormatDots(tail, false) == [e[1]] + FormatDots(rest, false);
    assert [e[0]] + ([e[1]] + FormatDots(rest, false)) == e + FormatDots(rest, false);
  }

  lemma PointerPrepend(c: char, parts: seq<string>, text: string)
    requires parts != [] && Pointer(parts) == "/" + text
    ensures Pointer(PrependChar(c, parts)) == "/" + (EscapeChar(c) + text)
  {
    var part, x := [c] + parts[0], EscapeChar(c);
    var e, rest := EscapeToken(parts[0]), Pointer(parts[1..]);
    EscapeStep(part);
    assert part[1..] == parts[0] && PrependChar(c, parts)[1..] == parts[1..];
    Regroup("", e, rest);
    Cancel("/", e + rest, text);
    Regroup(x, e, rest);
  }

  lemma Regroup(x: string, e: string, rest: string)
    ensures "/" + (x + e) + rest == "/" + (x + (e + rest))
    ensures "/" + e + rest == "/" + (e + rest)
  {
  }

  lemma {:induction false} PartsMean(s: string)
    ensures Pointer(Split(s, '.', '\\')) == "/" + Meant(s)
    decreases |s|
  {
    if s == "" {
      var none: seq<string> := [];
      assert [""][1..] == none && "/" + "" + "" == "/";
    } else if s[0] == '\\' && |s| > 1 && (s[1] == '\\' || s[1] == '.') {
      PartsMean(s[2..]);
      PointerPrepend(s[1], Split(s[2..], '.', '\\'), Meant(s[2..]));
    } else {
      PartsMean(s[1..]);
      var parts := Split(s[1..], '.', '\\');
      if s[0] == '.' {
        assert ([""] + parts)[1..] == parts;
        assert "/" + "" + Pointer(parts) == "/" + Pointer(parts);
      } else {
        PointerPrepend(s[0], parts, Meant(s[1..]));
      }
    }
  }

  // The number of backslashes a text begins with.
  function Lead(s: string): nat {
    if s == "" || s[0] != '\\' then 0 else 1 + Lead(s[1..])
  }

  lemma {:induction false} LeadWritten(s: string)
    ensures Lead(Written(s, true)) == Lead(s)
  {
    if s != "" {
      var w := Written(s, true);
      if s[0] == '\\' {
        assert w == "\\" + Written(s[1..], true) && w[1..] == Written(s[1..], true);
        LeadWritten(s[1..]);
      }
    }
  }

  lemma {:induction false} LeadMeant(s: string)
    ensures Lead(Meant(s)) <= Lead(s)
    decreases |s|
  {
    if s != "" && s[0] == '\\' {
      if |s| > 1 && s[1] == '\\' {
        assert Meant(s) == "\\" + Meant(s[2..]) && Meant(s)[1..] == Meant(s[2..]);
        LeadMeant(s[2..]);
        assert s[1..][1..] == s[2..];
      } else if |s| > 1 && s[1] == '.' {
        assert Meant(s)[0] == '.';
      } else {
        assert Meant(s) == "\\" + Meant(s[1..]) && Meant(s)[1..] == Meant(s[1..]);
        LeadMeant(s[1..]);
      }
    }
  }

  lemma Cancel(x: string, a: string, b: string)
    ensures x + a == x + b <==> a == b
  {
    if x + a == x + b {
      assert a == (x + a)[|x|..] && b == (x + b)[|x|..];
    }
  }

  // From a place that no backslash stands before, the two texts agree exactly where the rest is regular.
  lemma {:induction false} AgreeExactly(s: string)
    ensures Written(s, false) == Meant(s) <==> Regular(s)
    decreases |s|, 3
  {
    if s != "" {
      if s[0] != '\\' {
        AgreeExactly(s[1..]);
        Cancel(WrittenChar(s[0], false), Written(s[1..], false), Meant(s[1..]));
      } else {
        assert Written(s, false) == Written(s[1..], true);
        OneBackslash(s);
      }
    }
  }

  lemma OneBackslash(s: string)
    requires s != "" && s[0] == '\\'
    ensures Written(s[1..], true) == Meant(s) <==> Regular(s)
    decreases |s|, 2
  {
    if |s| == 1 {
      assert Meant(s)[0] == '\\';
    } else {
      assert s[1..][1..] == s[2..];
      if s[1] == '.' {
        AgreeExactly(s[2..]);
        Cancel(".", Written(s[2..], false), Meant(s[2..]));
      } else if s[1] != '\\' {
        assert Written(s[1..], true)[0] == EscapeChar(s[1])[0] && Meant(s)[0] == '\\';
      } else {
        TwoBackslashes(s);
        Cancel("\\", Written(s[2..], true), Meant(s[2..]));
      }
    }
  }

  lemma TwoBackslashes(s: string)
    requires |s| >= 2 && s[0] == '\\' && s[1] == '\\'
    ensures Written(s[2..], true) == Meant(s[2..]) <==> Regular(s)
    decreases |s|, 1
  {
    if |s| > 2 {
      var t := s[2..];
      assert t[1..] == s[3..];
      if t[0] == '.' {
        assert Written(t, true)[0] == '.' && Meant(t)[0] == '/';
      } else if t[0] != '\\' {
        AgreeExactly(t[1..]);
        Cancel(EscapeChar(t[0]), Written(t[1..], false), Meant(t[1..]));
      } else {
        ThreeBackslashes(s);
      }
    }
  }

  lemma ThreeBackslashes(s: string)
    requires |s| >= 3 && s[..3] == "\\\\\\"
    ensures Written(s[2..], true) == Meant(s[2..]) <==> Regular(s)
    decreases |s|, 0
  {
    assert s[0] == s[..3][0] && s[1] == s[..3][1] && s[2] == s[..3][2];
    var t, u := s[2..], s[3..];
    assert t[1..] == u && Written(t, true) == "\\" + Written(u, true);
    if u == "" {
    } else if u[0] == '.' {
      assert t[1] == '.' && Written(t, true)[0] == '\\' && Meant(t)[0] == '.';
    } else if u[0] != '\\' {
      assert t[1] == u[0] && Meant(t) == "\\" + Meant(u);
      AgreeExactly(u[1..]);
      Cancel("\\", Written(u, true), Meant(u));
      Cancel(EscapeChar(u[0]), Written(u[1..], false), Meant(u[1..]));
    } else {
      assert t[2..] == u[1..] && Meant(t) == "\\" + Meant(u[1..]);
      Cancel("\\", Written(u, true), Meant(u[1..]));
      LeadWritten(u);
      LeadMeant(u[1..]);
    }
  }

  // The formatted path is the pointer of the parts exactly when the path is not empty and its backslashes are regular.
  lemma FormatAgrees(s: string)
    requires DotParts(s).Some?
    ensures Format(s, false) == Some(Pointer(DotParts(s).value)) <==> s != "" && Regular(s)
  {
    if s != "" && s != "." {
      var str := Stripped(s);
      FormatWrites(s, false);
      PartsMean(str);
      AgreeExactly(str);
      if s[0] == '.' {
        Cancel("/", Written(str, false), Meant(str));
      } else {
        NoSlashFirst(s);
        SomethingMeant(s);
        Cancel("/", Written(s, false), Meant(s));
      }
    } else if s == "." {
      var none: string := "";
      assert "."[1..] == none;
    }
  }

  lemma NoSlashFirst(s: string)
    requires s != "" && s[0] != '.'
    ensures Written(s, false) == "" || Written(s, false)[0] != '/'
  {
    if s[0] == '\\' && |s| > 1 {
      assert Written(s, false) == Written(s[1..], true);
      assert Written(s[1..], true) == EscapeChar(s[1]) + Written(s[1..][1..], s[1] == '\\');
    }
  }

  lemma SomethingMeant(s: string)
    requires s != ""
    ensures Meant(s) != ""
  {
  }

  // The simpler rule: a backslash only ever stands right before a '.'.
  lemma {:induction false} SingleEscapesRegular(s: string)
    requires forall i :: 0 <= i < |s| && s[i] == '\\' ==> i + 1 < |s| && s[i + 1] == '.'
    ensures Regular(s)
    decreases |s|
  {
    if s != "" {
      SingleEscapesRegular(if s[0] == '\\' then s[2..] else s[1..]);
    }
  }
}
