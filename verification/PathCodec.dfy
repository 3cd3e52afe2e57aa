/** DotPath::parse and JsonDOM::formatJsonPath: dotted paths and the JSON pointers made of them. */
module PathCodec {
  import opened Wrappers
  import opened JsonPointer
  import opened StringUtils

  // The escape of section 3 of RFC 6901.
  function EscapeToken(s: string): string {
    MapChar(MapChar(s, '~', "~0"), '/', "~1")
  }

  // '/' and the escaped token, for every token.
  function Pointer(parts: seq<string>): string {
    if parts == [] then "" else "/" + EscapeToken(parts[0]) + Pointer(parts[1..])
  }

  function EscapeChar(c: char): string {
    if c == '~' then "~0" else if c == '/' then "~1" else [c]
  }

  lemma EscapeStep(s: string)
    requires s != ""
    ensures EscapeToken(s) == EscapeChar(s[0]) + EscapeToken(s[1..])
  {
    var once := MapChar(s[1..], '~', "~0");
    var head := if s[0] == '~' then "~0" else [s[0]];
    assert MapChar(s, '~', "~0") == head + once;
    MapCharAppend(head, once, '/', "~1");
    assert MapChar(head, '/', "~1") == EscapeChar(s[0]) by {
      assert head[1..] == if s[0] == '~' then "0" else "";
      assert "0"[1..] == "";
    }
  }

  lemma {:induction false} DecodeEscaped(s: string)
    ensures '/' !in EscapeToken(s) && Decode(EscapeToken(s)) == Some(s)
  {
    if s != "" {
      EscapeStep(s);
      DecodeEscaped(s[1..]);
      var e, rest := EscapeToken(s), EscapeToken(s[1..]);
      assert e[|EscapeChar(s[0])|..] == rest;
      assert s == [s[0]] + s[1..];
    }
  }

  // A pointer made of any tokens is read back as those tokens.
  lemma {:induction false} PointerReadsBack(parts: seq<string>)
    ensures Tokens(Pointer(parts)) == Some(parts)
  {
    if parts != [] {
      PointerReadsBack(parts[1..]);
      OneToken(parts[0]);
      ConsTokens("/" + EscapeToken(parts[0]), Pointer(parts[1..]), parts);
    }
  }

  lemma ConsTokens(head: string, rest: string, parts: seq<string>)
    requires parts != [] && (rest == "" || rest[0] == '/')
    requires Tokens(head) == Some([parts[0]]) && Tokens(rest) == Some(parts[1..])
    ensures Tokens(head + rest) == Some(parts)
  {
    TokensAppend(head, rest);
    assert [parts[0]] + parts[1..] == parts;
  }

  lemma OneToken(part: string)
    ensures Tokens("/" + EscapeToken(part)) == Some([part])
  {
    var e := EscapeToken(part);
    var s := "/" + e;
    DecodeEscaped(part);
    NoSlash(e);
    var none: seq<string> := [];
    assert s[1..] == e && s[1 + |e|..] == "" && [part] + none == [part];
    assert Tokens(s) == Prepend(Some(part), Some(none));
  }

  // ----- DotPath -----

  function Stripped(s: string): string {
    if s != "" && s[0] == '.' then s[1..] else s
  }

  // The parts of a dotted path, or None where the constructor throws.
  function DotParts(s: string): Option<seq<string>> {
    var str := Stripped(s);
    if str == "" then Some([])
    else
      var parts := Split(str, '.', '\\');
      if "" in parts && str != "." then None else Some(parts)
  }

  // The number of backslashes right before a place.
  function Run(s: string, i: nat): nat
    requires i <= |s|
  {
    if i == 0 || s[i - 1] != '\\' then 0 else 1 + Run(s, i - 1)
  }

  // A dot that no backslash escapes: the backslashes before it escape each other.
  predicate Cut(s: string, i: nat)
    requires i < |s|
  {
    s[i] == '.' && Run(s, i) % 2 == 0
  }

  // Nothing stands between the place behind a cut and the next dot or the end.
  predicate CutEmpty(s: string, i: nat)
    requires i < |s|
  {
    Cut(s, i) && (i == |s| - 1 || s[i + 1] == '.')
  }

  lemma {:induction false} RunShift(s: string, k: nat, i: nat)
    requires k <= i <= |s|
    ensures Run(s[k..], i - k) <= i - k
    ensures Run(s, i) == Run(s[k..], i - k) + if Run(s[k..], i - k) == i - k then Run(s, k) else 0
  {
    if i > k { RunShift(s, k, i - 1); }
  }

  lemma SameParity(a: nat, b: nat)
    requires b % 2 == 0
    ensures (a + b) % 2 == a % 2
  {
  }

  lemma EvenRunShift(s: string, k: nat, i: nat)
    requires k <= i <= |s| && Run(s, k) % 2 == 0
    ensures Run(s, i) % 2 == Run(s[k..], i - k) % 2
  {
    RunShift(s, k, i);
    SameParity(Run(s[k..], i - k), Run(s, k));
  }

  lemma FreshRunShift(s: string, k: nat, i: nat)
    requires k < i <= |s| && s[k] != '\\'
    ensures Run(s, i) == Run(s[k..], i - k)
  {
    RunShift(s, k, i);
    InsideRun(s[k..], i - k);
  }

  // Reading the text in order, one character or one escaped character at a time, meets the same cuts.
  lemma CutShift(s: string, k: nat, i: nat)
    requires k <= i < |s| && (Run(s, k) % 2 == 0 || (s[k] != '.' && s[k] != '\\'))
    ensures CutEmpty(s, i) <==> CutEmpty(s[k..], i - k)
  {
    var rest := s[k..];
    assert rest[i - k] == s[i];
    if Run(s, k) % 2 == 0 { EvenRunShift(s, k, i); } else if i > k { FreshRunShift(s, k, i); }
    assert Cut(s, i) <==> Cut(rest, i - k);
    if i + 1 < |s| { assert rest[i - k + 1] == s[i + 1]; }
  }

  lemma {:induction false} InsideRun(s: string, i: nat)
    requires 0 < i <= |s|
    ensures Run(s, i) == i ==> s[0] == '\\'
  {
    if i > 1 { InsideRun(s, i - 1); }
  }

  // An empty part behind the first one is an empty place behind a cut.
  lemma {:induction false} EmptyLater(s: string)
    ensures var parts := Split(s, '.', '\\');
            && (parts[0] == "" <==> s == "" || s[0] == '.')
            && ("" in parts[1..] <==> exists i | 0 <= i < |s| :: CutEmpty(s, i))
    decreases |s|
  {
    if s != "" {
      var k := if s[0] == '\\' && |s| > 1 && (s[1] == '\\' || s[1] == '.') then 2 else 1;
      assert Run(s, 1) == if s[0] == '\\' then 1 else 0;
      EmptyLater(s[k..]);
      forall i | k <= i < |s| ensures CutEmpty(s, i) <==> CutEmpty(s[k..], i - k) { CutShift(s, k, i); }
      LaterCuts(s, k);
      var parts, rest := Split(s, '.', '\\'), Split(s[k..], '.', '\\');
      assert !CutEmpty(s, k - 1) || (k == 1 && s[0] == '.');
      if s[0] == '.' {
        assert parts[1..] == rest && rest == [rest[0]] + rest[1..];
        assert CutEmpty(s, 0) <==> s[1..] == "" || s[1] == '.';
      } else {
        assert parts[1..] == rest[1..];
      }
    }
  }

  lemma LaterCuts(s: string, k: nat)
    requires 1 <= k <= |s|
    requires forall i | k <= i < |s| :: CutEmpty(s, i) <==> CutEmpty(s[k..], i - k)
    ensures (exists i | k <= i < |s| :: CutEmpty(s, i)) <==> exists i | 0 <= i < |s[k..]| :: CutEmpty(s[k..], i)
  {
    if i :| 0 <= i < |s[k..]| && CutEmpty(s[k..], i) { assert CutEmpty(s, k + i); }
  }

  // A path is refused when, a leading dot apart, an unescaped dot begins it, ends it or follows another one; a single
  // dot is accepted all the same.
  lemma DotPathRefused(s: string)
    ensures var str := if s != "" && s[0] == '.' then s[1..] else s;
            DotParts(s).None? <==>
            && str != "" && str != "."
            && (str[0] == '.' || exists i | 0 <= i < |str| :: CutEmpty(str, i))
  {
    var str := if s != "" && s[0] == '.' then s[1..] else s;
    EmptyLater(str);
    var parts := Split(str, '.', '\\');
    assert parts == [parts[0]] + parts[1..];
  }

  // Escaped parts, none of them empty, are read back, with a dot in front or without one.
  lemma DotPathReadsBack(parts: seq<string>)
    requires parts != [] && "" !in parts
    ensures var s := JoinWith(EscapeAll(parts, '.', '\\'), ".");
            DotParts(s) == Some(parts) && DotParts("." + s) == Some(parts)
  {
    var s := JoinWith(EscapeAll(parts, '.', '\\'), ".");
    SplitInvertsJoin(parts, '.', '\\');
    assert parts[0] != "";
    assert s != "" && s[0] != '.';
    assert ("." + s)[1..] == s;
  }

  class DotPath {
    var str: string
    var parts: seq<string>

    constructor (str: string)
      ensures this.str == str && this.parts == []
    {
      this.str := str;
      this.parts := [];
    }

    // The constructor of the source calls this and lets the exception through.
    method Parse() returns (ok: bool)
      modifies this
      ensures str == Stripped(old(str))
      ensures ok <==> DotParts(old(str)).Some?
      ensures ok ==> parts == DotParts(old(str)).value
    {
      parts := [];
      if |str| >= 1 && str[..1] == "." {
        str := str[1..];
      }
      if str == "" {
        return true;
      }
      parts := SplitEscaped(str, '.', '\\');
      for i := 0 to |parts|
        invariant str != "." ==> "" !in parts[..i]
      {
        if parts[i] == "" && str != "." {
          return false;
        }
      }
      assert parts[..|parts|] == parts;
      return true;
    }
  }

  // ----- formatJsonPath -----

  // The third pass: '.' becomes '/', unless a backslash stands before it; a backslash not after another one goes.
  function FormatDots(s: string, prevCharWasSlash: bool): string {
    if s == "" then ""
    else
      DotChar(s[0], prevCharWasSlash) + FormatDots(s[1..], s[0] == '\\')
  }

  function DotChar(c: char, prevCharWasSlash: bool): string {
    if c == '.' && !prevCharWasSlash then "/"
    else if c != '\\' || prevCharWasSlash then [c]
    else ""
  }

  // None: front() of an empty string is asked for, which has no meaning.
  function Format(dotPath: string, skipDot: bool): Option<string> {
    if dotPath == "." then Some("")
    else
      var ptr := if skipDot then EscapeToken(dotPath) else FormatDots(EscapeToken(dotPath), false);
      if ptr == "" then None else Some(if ptr[0] != '/' then "/" + ptr else ptr)
  }

  // With the dots kept, the whole text is one token; only the empty text has no pointer.
  lemma FormatOneToken(s: string)
    ensures Format(s, true).None? <==> s == ""
    ensures Format(".", true) == Some("")
    ensures s != "" && s != "." ==> Format(s, true).Some? && Tokens(Format(s, true).value) == Some([s])
  {
    if s != "" {
      DecodeEscaped(s);
      OneToken(s);
      EscapeStep(s);
    }
  }

  // The third pass goes character by character; all it knows of what came before is whether a backslash came last.
  lemma {:induction false} FormatDotsConcat(a: string, b: string, prevCharWasSlash: bool)
    ensures FormatDots(a + b, prevCharWasSlash) ==
            FormatDots(a, prevCharWasSlash) +
            FormatDots(b, if a == "" then prevCharWasSlash else a[|a| - 1] == '\\')
  {
    if a == "" {
      assert a + b == b;
    } else {
      assert (a + b)[1..] == a[1..] + b;
      FormatDotsConcat(a[1..], b, a[0] == '\\');
    }
  }

  lemma FormatDotsOne(c: char)
    ensures FormatDots([c], true) == [c]
    ensures FormatDots([c], false) == if c == '.' then "/" else if c == '\\' then "" else [c]
  {
    assert [c][1..] == "";
  }

  // A rewriting pass over the text in place: every c is replaced, and the search goes on behind the two new characters.
  method RewriteChar(s: string, c: char, text: string) returns (ptrPath: string)
    requires |text| == 2
    ensures ptrPath == MapChar(s, c, text)
  {
    ptrPath := s;
    var pos: nat := FindChar(ptrPath, c, 0);
    ghost var done: nat := pos;
    MapCharAbsent(s[..done], c, text);
    while pos < |ptrPath|
      invariant pos <= |ptrPath| && (pos < |ptrPath| ==> ptrPath[pos] == c)
      invariant Tracks(s, c, text, done, ptrPath, pos)
      decreases |s| - done
    {
      CharReplaced(s, c, text, done, ptrPath, pos);
      var next := ptrPath[..pos] + text + ptrPath[pos + 1..];
      assert next == MapChar(s[..done + 1], c, text) + s[done + 1..];
      var nextPos: nat := FindChar(next, c, pos + 2);
      done := Advance(s, c, text, done + 1, next, pos + 2, nextPos);
      ptrPath, pos := next, nextPos;
    }
    var all := MapChar(s[..done], c, text);
    assert |ptrPath| == |all| + |s[done..]|;
    assert s[..done] == s;
  }

  function FindChar(s: string, c: char, pos: nat): (r: nat)
    requires pos <= |s|
    ensures pos <= r <= |s| && c !in s[pos..r] && (r < |s| ==> s[r] == c)
    decreases |s| - pos
  {
    if pos == |s| || s[pos] == c then pos
    else
      var r := FindChar(s, c, pos + 1);
      assert s[pos..r] == [s[pos]] + s[pos + 1..r];
      r
  }

  lemma Advance(s: string, c: char, text: string, done: nat, next: string, from: nat, nextPos: nat)
    returns (done': nat)
    requires done <= |s| && next == MapChar(s[..done], c, text) + s[done..] && from == |MapChar(s[..done], c, text)|
    requires from <= nextPos <= |next| && c !in next[from..nextPos]
    ensures done <= done' && Tracks(s, c, text, done', next, nextPos)
  {
    done' := done + (nextPos - from);
    SliceBehind(MapChar(s[..done], c, text), s, done, done');
    KeepGap(s, c, text, done, done');
  }

  lemma SliceBehind(head: string, s: string, i: nat, j: nat)
    requires i <= j <= |s|
    ensures (head + s[i..])[|head|..|head| + (j - i)] == s[i..j]
  {
    var whole, gap := head + s[i..], s[i..j];
    assert forall k :: 0 <= k < j - i ==> whole[|head| + k] == gap[k];
  }

  method RewriteDots(ptrPath: string) returns (result: string)
    ensures result == FormatDots(ptrPath, false)
  {
    result := "";
    var prevCharWasSlash := false;
    assert ptrPath[0..] == ptrPath;
    for i := 0 to |ptrPath|
      invariant result + FormatDots(ptrPath[i..], prevCharWasSlash) == FormatDots(ptrPath, false)
    {
      var c := ptrPath[i];
      assert ptrPath[i..][1..] == ptrPath[i + 1..];
      ghost var head, rest := DotChar(c, prevCharWasSlash), FormatDots(ptrPath[i + 1..], c == '\\');
      assert result + (head + rest) == (result + head) + rest;
      ghost var next := result + head;
      if c == '.' && !prevCharWasSlash {
        result := result + "/";
      } else if c != '\\' || ((c == '.' || c == '\\') && prevCharWasSlash) {
        result := result + [c];
      }
      assert result == next;
      prevCharWasSlash := c == '\\';
    }
  }

  method FormatJsonPath(dotPath: string, skipDot: bool) returns (r: Option<string>)
    ensures r == Format(dotPath, skipDot)
  {
    if dotPath == "." {
      return Some("");
    }
    var ptrPath := RewriteChar(dotPath, '~', "~0");
    ptrPath := RewriteChar(ptrPath, '/', "~1");
    if !skipDot {
      ptrPath := RewriteDots(ptrPath);
    }
    if ptrPath == "" {
      return None;
    }
    return Some(if ptrPath[0] != '/' then "/" + ptrPath else ptrPath);
  }
}
