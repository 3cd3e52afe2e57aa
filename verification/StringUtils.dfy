/** base/src/utils/stringUtils.cpp: splitting, joining, unescaping and replacing. */
module StringUtils {

  function PrependChar(c: char, parts: seq<string>): (r: seq<string>)
    requires parts != []
    ensures r != []
  {
    [[c] + parts[0]] + parts[1..]
  }

  // An escape before an escape or a separator stands for that character; any other escape stands for itself.
  function Split(s: string, sep: char, esc: char): (r: seq<string>)
    ensures r != []
    decreases |s|
  {
    if s == "" then [""]
    else if s[0] == esc && |s| > 1 && (s[1] == esc || s[1] == sep) then PrependChar(s[1], Split(s[2..], sep, esc))
    else if s[0] == sep && !(s[0] == esc && |s| > 1) then [""] + Split(s[1..], sep, esc)
    else PrependChar(s[0], Split(s[1..], sep, esc))
  }

  // The parts of a text whose beginning and end were split separately.
  function Glue(a: seq<string>, b: seq<string>): seq<string>
    requires a != [] && b != []
  {
    a[..|a| - 1] + [a[|a| - 1] + b[0]] + b[1..]
  }

  lemma GlueChar(a: seq<string>, c: char, b: seq<string>)
    requires a != [] && b != []
    ensures Glue(a, PrependChar(c, b)) == Glue(AddChar(a, c), b)
  {
    assert a[|a| - 1] + ([c] + b[0]) == a[|a| - 1] + [c] + b[0];
  }

  lemma GlueNew(a: seq<string>, b: seq<string>)
    requires a != [] && b != []
    ensures Glue(a, [""] + b) == Glue(a + [""], b)
  {
    assert a[|a| - 1] + "" == a[|a| - 1] && "" + b[0] == b[0];
    assert a == a[..|a| - 1] + [a[|a| - 1]];
    assert b == [b[0]] + b[1..];
  }

  // The rules of Split at a position of a longer text.
  lemma SplitFrom(s: string, i: nat, sep: char, esc: char)
    requires i < |s|
    ensures var special := s[i] == esc && i + 1 < |s|;
            && (special && (s[i + 1] == esc || s[i + 1] == sep) ==>
                  Split(s[i..], sep, esc) == PrependChar(s[i + 1], Split(s[i + 2..], sep, esc)))
            && (if special then
                  !(s[i + 1] == esc || s[i + 1] == sep) ==>
                    Split(s[i..], sep, esc) == PrependChar(s[i], Split(s[i + 1..], sep, esc))
                else if s[i] == sep then Split(s[i..], sep, esc) == [""] + Split(s[i + 1..], sep, esc)
                else Split(s[i..], sep, esc) == PrependChar(s[i], Split(s[i + 1..], sep, esc)))
  {
    assert s[i..][1..] == s[i + 1..];
    if i + 1 < |s| { assert s[i..][2..] == s[i + 2..]; }
  }

  function AddChar(parts: seq<string>, c: char): seq<string>
    requires parts != []
  {
    parts[|parts| - 1 := parts[|parts| - 1] + [c]]
  }

  method SplitEscaped(input: string, splitChar: char, escape: char) returns (ret: seq<string>)
    ensures ret == Split(input, splitChar, escape)
  {
    ret := [""];
    var i := 0;
    ghost var all := Split(input, splitChar, escape);
    assert input[0..] == input && "" + all[0] == all[0] && all == [all[0]] + all[1..];
    while i < |input|
      invariant 0 <= i <= |input| && ret != []
      invariant Glue(ret, Split(input[i..], splitChar, escape)) == all
    {
      var thisChar := input[i];
      SplitFrom(input, i, splitChar, escape);
      if thisChar == escape && i + 1 < |input| {
        var nextChar := input[i + 1];
        if nextChar == escape || nextChar == splitChar {
          GlueChar(ret, nextChar, Split(input[i + 2..], splitChar, escape));
          ret := AddChar(ret, nextChar);
          i := i + 1;
        } else {
          GlueChar(ret, thisChar, Split(input[i + 1..], splitChar, escape));
          ret := AddChar(ret, thisChar);
        }
      } else if thisChar == splitChar {
        GlueNew(ret, Split(input[i + 1..], splitChar, escape));
        ret := ret + [""];
      } else {
        GlueChar(ret, thisChar, Split(input[i + 1..], splitChar, escape));
        ret := AddChar(ret, thisChar);
      }
      i := i + 1;
    }
    GlueEnd(ret);
    assert input[i..] == "";
  }

  lemma GlueEnd(a: seq<string>)
    requires a != []
    ensures Glue(a, [""]) == a
  {
    assert a[|a| - 1] + "" == a[|a| - 1] && a == a[..|a| - 1] + [a[|a| - 1]];
  }

  function JoinWith(parts: seq<string>, sep: string): string {
    if parts == [] then "" else if |parts| == 1 then parts[0] else parts[0] + sep + JoinWith(parts[1..], sep)
  }

  // join, with or without a separator in front.
  method Join(strVec: seq<string>, separator: string, startsWithSeparator: bool) returns (res: string)
    ensures res == (if startsWithSeparator && strVec != [] then separator else "") + JoinWith(strVec, separator)
  {
    res := "";
    for i := 0 to |strVec|
      invariant res == (if startsWithSeparator && i > 0 then separator else "") + JoinWith(strVec[..i], separator)
    {
      assert strVec[..i + 1] == strVec[..i] + [strVec[i]];
      JoinAppend(strVec[..i], strVec[i], separator);
      res := res + (if !startsWithSeparator && i == 0 then "" else separator) + strVec[i];
    }
    assert strVec[..|strVec|] == strVec;
  }

  lemma {:induction false} JoinAppend(parts: seq<string>, last: string, sep: string)
    ensures JoinWith(parts + [last], sep) == if parts == [] then last else JoinWith(parts, sep) + sep + last
  {
    if |parts| > 1 {
      assert (parts + [last])[1..] == parts[1..] + [last];
      JoinAppend(parts[1..], last, sep);
    }
  }

  // Joining in pieces.
  lemma {:induction false} JoinConcat(a: seq<string>, b: seq<string>, sep: string)
    ensures JoinWith([], sep) == ""
    ensures a != [] && b != [] ==> JoinWith(a + b, sep) == JoinWith(a, sep) + sep + JoinWith(b, sep)
  {
    if a != [] && b != [] {
      assert (a + b)[1..] == a[1..] + b;
      if |a| == 1 {
        assert a[1..] + b == b;
      } else {
        JoinConcat(a[1..], b, sep);
        var x, rest, more := a[0], JoinWith(a[1..], sep), JoinWith(b, sep);
        assert x + sep + (rest + sep + more) == x + sep + rest + sep + more;
      }
    }
  }

  function Unescape(s: string, esc: char, escaped: string): string
    decreases |s|
  {
    if s == "" then ""
    else if s[0] != esc || |s| == 1 then [s[0]] + Unescape(s[1..], esc, escaped)
    else if s[1] == esc || s[1] in escaped then [s[1]] + Unescape(s[2..], esc, escaped)
    else [s[0]] + Unescape(s[1..], esc, escaped)
  }

  // The rules of Unescape at a position of a longer text.
  lemma UnescapeFrom(s: string, i: nat, esc: char, escaped: string)
    requires i < |s|
    ensures var pair := s[i] == esc && i + 1 < |s| && (s[i + 1] == esc || s[i + 1] in escaped);
            Unescape(s[i..], esc, escaped) ==
            if pair then [s[i + 1]] + Unescape(s[i + 2..], esc, escaped)
            else [s[i]] + Unescape(s[i + 1..], esc, escaped)
  {
    assert s[i..][1..] == s[i + 1..];
    if i + 1 < |s| { assert s[i..][2..] == s[i + 2..]; }
  }

  lemma MoveChar(res: string, c: char, rest: string)
    ensures (res + [c]) + rest == res + ([c] + rest)
  {
  }

  // strictMode is taken and never looked at.
  method UnescapeString(str: string, escapeChar: char, escapedChars: string, strictMode: bool) returns (res: string)
    ensures res == Unescape(str, escapeChar, escapedChars)
  {
    res := "";
    var i := 0;
    assert str[0..] == str;
    while i < |str|
      invariant 0 <= i <= |str|
      invariant res + Unescape(str[i..], escapeChar, escapedChars) == Unescape(str, escapeChar, escapedChars)
    {
      var currChar := str[i];
      UnescapeFrom(str, i, escapeChar, escapedChars);
      if currChar != escapeChar || i + 1 == |str| {
        MoveChar(res, currChar, Unescape(str[i + 1..], escapeChar, escapedChars));
        res := res + [currChar];
        i := i + 1;
        continue;
      }
      var nextChar := str[i + 1];
      if nextChar == escapeChar || nextChar in escapedChars {
        MoveChar(res, nextChar, Unescape(str[i + 2..], escapeChar, escapedChars));
        res := res + [nextChar];
        i := i + 1;
      } else {
        MoveChar(res, currChar, Unescape(str[i + 1..], escapeChar, escapedChars));
        res := res + [currChar];
      }
      i := i + 1;
    }
  }

  // An escape before every escape and every character that may be escaped.
  function EscapeText(s: string, esc: char, escaped: string): string {
    if s == "" then ""
    else (if s[0] == esc || s[0] in escaped then [esc, s[0]] else [s[0]]) + EscapeText(s[1..], esc, escaped)
  }

  // Unescaping takes the escapes back, whatever the characters.
  lemma {:induction false} UnescapeInverts(s: string, esc: char, escaped: string)
    ensures Unescape(EscapeText(s, esc, escaped), esc, escaped) == s
  {
    if s != "" {
      UnescapeInverts(s[1..], esc, escaped);
      var e, rest := EscapeText(s, esc, escaped), EscapeText(s[1..], esc, escaped);
      UnescapeFrom(e, 0, esc, escaped);
      assert e[0..] == e && e[|e| - |rest|..] == rest;
      assert s == [s[0]] + s[1..];
    }
  }

  // Escapes before other characters, and one at the end, stand for themselves.
  lemma {:induction false} UnescapeKeeps(s: string, esc: char, escaped: string)
    requires forall i :: 0 <= i < |s| - 1 && s[i] == esc ==> s[i + 1] != esc && s[i + 1] !in escaped
    ensures Unescape(s, esc, escaped) == s
  {
    if s != "" {
      UnescapeKeeps(s[1..], esc, escaped);
      assert s == [s[0]] + s[1..];
    }
  }

  lemma JoinPrepend(c: char, parts: seq<string>, sep: string)
    requires parts != []
    ensures JoinWith(PrependChar(c, parts), sep) == [c] + JoinWith(parts, sep)
  {
    if |parts| > 1 {
      assert PrependChar(c, parts)[1..] == parts[1..];
      assert [c] + parts[0] + sep + JoinWith(parts[1..], sep) == [c] + (parts[0] + sep + JoinWith(parts[1..], sep));
    }
  }

  // Unescaping is splitting and joining again.
  lemma {:induction false} UnescapeIsSplitJoin(s: string, sep: char, esc: char)
    ensures Unescape(s, esc, [sep]) == JoinWith(Split(s, sep, esc), [sep])
    decreases |s|
  {
    if s != "" {
      if s[0] == esc && |s| > 1 && (s[1] == esc || s[1] == sep) {
        UnescapeIsSplitJoin(s[2..], sep, esc);
        JoinPrepend(s[1], Split(s[2..], sep, esc), [sep]);
      } else {
        UnescapeIsSplitJoin(s[1..], sep, esc);
        var rest := Split(s[1..], sep, esc);
        if s[0] == sep && !(s[0] == esc && |s| > 1) {
          assert ([""] + rest)[1..] == rest;
        } else {
          JoinPrepend(s[0], rest, [sep]);
        }
      }
    }
  }

  // An escape before every escape and every separator.
  function EscapePart(part: string, sep: char, esc: char): string {
    if part == "" then ""
    else (if part[0] == esc || part[0] == sep then [esc, part[0]] else [part[0]]) + EscapePart(part[1..], sep, esc)
  }

  function EscapeAll(parts: seq<string>, sep: char, esc: char): seq<string> {
    seq(|parts|, i requires 0 <= i < |parts| => EscapePart(parts[i], sep, esc))
  }

  // The text in front of the first part.
  function PrependText(part: string, parts: seq<string>): seq<string>
    requires parts != []
  {
    [part + parts[0]] + parts[1..]
  }

  lemma PrependMore(c: char, part: string, parts: seq<string>)
    requires parts != []
    ensures PrependChar(c, PrependText(part, parts)) == PrependText([c] + part, parts)
  {
    assert [c] + (part + parts[0]) == [c] + part + parts[0];
  }

  lemma SplitStep(c: char, t: string, sep: char, esc: char)
    requires sep != esc
    ensures c == esc || c == sep ==> Split([esc, c] + t, sep, esc) == PrependChar(c, Split(t, sep, esc))
    ensures c != esc && c != sep ==> Split([c] + t, sep, esc) == PrependChar(c, Split(t, sep, esc))
    ensures Split([sep] + t, sep, esc) == [""] + Split(t, sep, esc)
  {
    assert ([esc, c] + t)[2..] == t && ([c] + t)[1..] == t && ([sep] + t)[1..] == t;
  }

  lemma Assoc(a: string, b: string, c: string)
    ensures a + b + c == a + (b + c)
  {
  }

  lemma {:induction false} SplitOfPart(part: string, rest: string, sep: char, esc: char)
    requires sep != esc
    ensures Split(EscapePart(part, sep, esc) + rest, sep, esc) == PrependText(part, Split(rest, sep, esc))
  {
    var tail := Split(rest, sep, esc);
    if part == "" {
      assert "" + rest == rest && "" + tail[0] == tail[0] && tail == [tail[0]] + tail[1..];
    } else {
      var c, later := part[0], EscapePart(part[1..], sep, esc);
      SplitOfPart(part[1..], rest, sep, esc);
      SplitStep(c, later + rest, sep, esc);
      PrependMore(c, part[1..], tail);
      assert [c] + part[1..] == part;
      Assoc(if c == esc || c == sep then [esc, c] else [c], later, rest);
    }
  }

  // Splitting takes escaped parts apart exactly as they were.
  lemma {:induction false} SplitInvertsJoin(parts: seq<string>, sep: char, esc: char)
    requires sep != esc && parts != []
    ensures Split(JoinWith(EscapeAll(parts, sep, esc), [sep]), sep, esc) == parts
  {
    var escaped, first := EscapeAll(parts, sep, esc), EscapePart(parts[0], sep, esc);
    if |parts| == 1 {
      SplitOfPart(parts[0], "", sep, esc);
      assert first + "" == first && parts[0] + "" == parts[0];
      assert Split("", sep, esc) == [""] && parts == [parts[0]];
    } else {
      SplitInvertsJoin(parts[1..], sep, esc);
      assert escaped[1..] == EscapeAll(parts[1..], sep, esc);
      var joined := JoinWith(escaped[1..], [sep]);
      SplitOfPart(parts[0], [sep] + joined, sep, esc);
      SplitStep(sep, joined, sep, esc);
      assert first + [sep] + joined == first + ([sep] + joined);
      FirstPart(parts);
    }
  }

  lemma FirstPart(parts: seq<string>)
    requires parts != []
    ensures PrependText(parts[0], [""] + parts[1..]) == parts
  {
    assert parts[0] + "" == parts[0] && ([""] + parts[1..])[1..] == parts[1..];
    assert parts == [parts[0]] + parts[1..];
  }

  predicate MatchAt(s: string, t: string, k: nat) {
    k + |t| <= |s| && s[k..k + |t|] == t
  }

  predicate Contains(s: string, t: string) {
    exists k | 0 <= k <= |s| :: MatchAt(s, t, k)
  }

  // s.find(t, pos), with |s| for npos.
  function Find(s: string, t: string, pos: nat): (r: nat)
    requires pos <= |s| && t != ""
    ensures pos <= r <= |s|
    ensures r < |s| ==> MatchAt(s, t, r)
    ensures forall k :: pos <= k < r ==> !MatchAt(s, t, k)
    decreases |s| - pos
  {
    if pos == |s| then |s|
    else if MatchAt(s, t, pos) then pos
    else Find(s, t, pos + 1)
  }

  // Every occurrence of the character gives way to the text.
  function MapChar(s: string, c: char, text: string): string {
    if s == "" then "" else (if s[0] == c then text else [s[0]]) + MapChar(s[1..], c, text)
  }

  lemma {:induction false} MapCharAppend(a: string, b: string, c: char, text: string)
    ensures MapChar(a + b, c, text) == MapChar(a, c, text) + MapChar(b, c, text)
  {
    if a == "" {
      assert a + b == b;
    } else {
      assert (a + b)[1..] == a[1..] + b;
      MapCharAppend(a[1..], b, c, text);
    }
  }

  lemma {:induction false} MapCharAbsent(s: string, c: char, text: string)
    requires c !in s
    ensures MapChar(s, c, text) == s
  {
    if s != "" {
      MapCharAbsent(s[1..], c, text);
      assert s == [s[0]] + s[1..];
    }
  }

  // The text with the match at pos replaced.
  function ReplacedOnce(s: string, t: string, text: string, pos: nat): string
    requires pos + |t| <= |s|
  {
    s[..pos] + text + s[pos + |t|..]
  }

  // Each replacement leaves less text behind the next match, although the text may grow.
  lemma LessBehind(s: string, t: string, text: string, pos: nat)
    requires t != "" && !Contains(text, t) && pos < |s| && MatchAt(s, t, pos)
    ensures var next := ReplacedOnce(s, t, text, pos);
            pos <= |next| && |next| - Find(next, t, pos) < |s| - pos
  {
    var next := ReplacedOnce(s, t, text, pos);
    var nextPos := Find(next, t, pos);
    if nextPos < |next| { NotInside(s[..pos], text, s[pos + |t|..], t, nextPos); }
  }

  // The search goes on where the replacement begins.
  function Replaced(s: string, t: string, text: string, pos: nat): string
    requires t != "" && !Contains(text, t) && pos <= |s| && (pos < |s| ==> MatchAt(s, t, pos))
    decreases |s| - pos
  {
    if pos == |s| then s
    else
      LessBehind(s, t, text, pos);
      var next := ReplacedOnce(s, t, text, pos);
      Replaced(next, t, text, Find(next, t, pos))
  }

  method ReplaceAll(data: string, toSearch: string, toReplace: string) returns (changed: bool, result: string)
    ensures changed <==> toSearch != "" && !Contains(toReplace, toSearch) && Contains(data, toSearch)
    ensures result == if changed then AllReplaced(data, toSearch, toReplace) else data
    ensures changed && !Completes(toSearch, toReplace) ==> !Contains(result, toSearch)
  {
    if toSearch == "" || toSearch == toReplace || Contains(toReplace, toSearch) {
      assert toSearch == toReplace ==> MatchAt(toReplace, toSearch, 0);
      return false, data;
    }
    var pos: nat := Find(data, toSearch, 0);
    if pos == |data| {
      assert !MatchAt(data, toSearch, |data|);
      return false, data;
    }
    result := data;
    while pos < |result|
      invariant pos <= |result|
      invariant pos < |result| ==> MatchAt(result, toSearch, pos)
      invariant Replaced(result, toSearch, toReplace, pos) == AllReplaced(data, toSearch, toReplace)
      decreases |result| - pos
    {
      LessBehind(result, toSearch, toReplace, pos);
      result := ReplacedOnce(result, toSearch, toReplace, pos);
      pos := Find(result, toSearch, pos);
    }
    ReplacesAllExactly(toSearch, toReplace);
    return true, result;
  }

  // For a single character it is the replacement of every occurrence.
  lemma ReplacedChar(data: string, t: string, text: string)
    requires |t| == 1 && !Contains(text, t)
    ensures AllReplaced(data, t, text) == MapChar(data, t[0], text)
  {
    CharStart(data, t, text, Find(data, t, 0));
    CharRest(data, t, text, Find(data, t, 0), data, Find(data, t, 0));
  }

  lemma {:induction false} CharRest(data: string, t: string, text: string, done: nat, result: string, pos: nat)
    requires |t| == 1 && !Contains(text, t) && Tracks(data, t[0], text, done, result, pos)
    requires pos <= |result| && (pos < |result| ==> MatchAt(result, t, pos))
    ensures Replaced(result, t, text, pos) == MapChar(data, t[0], text)
    decreases |result| - pos
  {
    if pos == |result| {
      var all := MapChar(data[..done], t[0], text);
      assert |result| == |all| + |data[done..]|;
      assert data[..done] == data;
    } else {
      LessBehind(result, t, text, pos);
      var next := ReplacedOnce(result, t, text, pos);
      var done' := CharStep(data, t, text, done, result, pos, next, Find(next, t, pos));
      CharRest(data, t, text, done', next, Find(next, t, pos));
    }
  }

  // Everything replaceAll does to a text, once its guard let it through.
  function AllReplaced(s: string, t: string, text: string): string
    requires t != "" && !Contains(text, t)
  {
    Replaced(s, t, text, Find(s, t, 0))
  }

  // A text without an occurrence stays as it is.
  lemma NothingReplaced(s: string, t: string, text: string)
    requires t != "" && !Contains(text, t) && !Contains(s, t)
    ensures AllReplaced(s, t, text) == s
  {
  }

  // The first occurrence gives way to the text, and everything from the text on is replaced in the same way.
  lemma FirstReplaced(before: string, after: string, t: string, text: string)
    requires t != "" && !Contains(text, t)
    requires forall k :: 0 <= k < |before| ==> !MatchAt(before + t + after, t, k)
    ensures AllReplaced(before + t + after, t, text) == before + AllReplaced(text + after, t, text)
  {
    var s, pos := before + t + after, |before|;
    assert s[pos..pos + |t|] == t;
    var next, rest := before + (text + after), text + after;
    assert next == ReplacedOnce(s, t, text, pos) by {
      assert s[..pos] == before && s[pos + |t|..] == after;
      assert before + text + after == before + (text + after);
    }
    var nextPos := Find(next, t, pos);
    FirstStep(s, t, text, pos, next, nextPos);
    AllBehind(before, rest, t, text, next, nextPos, AllReplaced(s, t, text));
  }

  lemma AllBehind(head: string, s: string, t: string, text: string, whole: string, at: nat, r: string)
    requires t != "" && !Contains(text, t) && whole == head + s && at == Find(whole, t, |head|)
    requires r == Replaced(whole, t, text, at)
    ensures r == head + AllReplaced(s, t, text)
  {
    FindBehind(head, s, t, 0);
    ReplacedBehind(head, s, t, text, Find(s, t, 0), whole, at, AllReplaced(s, t, text), r);
  }

  lemma FirstStep(s: string, t: string, text: string, pos: nat, next: string, nextPos: nat)
    requires t != "" && !Contains(text, t) && MatchAt(s, t, pos) && ClearBefore(s, t, pos)
    requires next == ReplacedOnce(s, t, text, pos) && pos <= |next| && nextPos == Find(next, t, pos)
    ensures AllReplaced(s, t, text) == Replaced(next, t, text, nextPos)
  {
    FindAt(s, t, 0, pos);
    ReplacedStep(s, t, text, pos, next, nextPos);
  }

  lemma {:induction false} FindAt(s: string, t: string, from: nat, pos: nat)
    requires t != "" && from <= pos && MatchAt(s, t, pos) && forall k :: from <= k < pos ==> !MatchAt(s, t, k)
    ensures Find(s, t, from) == pos
  {
    var r := Find(s, t, from);
    assert pos < |s|;
  }

  lemma FindNone(s: string, t: string, from: nat)
    requires t != "" && from <= |s| && forall k :: from <= k < |s| ==> !MatchAt(s, t, k)
    ensures Find(s, t, from) == |s|
  {
  }

  // Nothing before the place of the search matters.
  lemma FindBehind(head: string, s: string, t: string, pos: nat)
    requires t != "" && pos <= |s|
    ensures Find(head + s, t, |head| + pos) == |head| + Find(s, t, pos)
  {
    var whole, r := head + s, Find(s, t, pos);
    assert whole[|head|..|head| + |s|] == s;
    forall k | 0 <= k <= |s| ensures MatchAt(s, t, k) <==> MatchAt(whole, t, |head| + k) {
      if k + |t| <= |s| { MatchInside(whole, |head|, s, t, k); }
    }
    forall k | |head| + pos <= k < |head| + r ensures !MatchAt(whole, t, k) {
      assert MatchAt(s, t, k - |head|) <==> MatchAt(whole, t, |head| + (k - |head|));
    }
    if r < |s| { FindAt(whole, t, |head| + pos, |head| + r); } else { FindNone(whole, t, |head| + pos); }
  }

  lemma ReplacedStep(s: string, t: string, text: string, pos: nat, next: string, nextPos: nat)
    requires t != "" && !Contains(text, t) && pos < |s| && MatchAt(s, t, pos)
    requires next == ReplacedOnce(s, t, text, pos) && pos <= |next| && nextPos == Find(next, t, pos)
    ensures Replaced(s, t, text, pos) == Replaced(next, t, text, nextPos)
  {
  }

  lemma OnceBehind(head: string, s: string, t: string, text: string, pos: nat)
    requires pos + |t| <= |s|
    ensures ReplacedOnce(head + s, t, text, |head| + pos) == head + ReplacedOnce(s, t, text, pos)
  {
    var whole := head + s;
    assert whole[..|head| + pos] == head + s[..pos] && whole[|head| + pos + |t|..] == s[pos + |t|..];
    assert head + s[..pos] + text + s[pos + |t|..] == head + (s[..pos] + text + s[pos + |t|..]);
  }

  lemma StepBehind(head: string, s: string, t: string, text: string, pos: nat, whole: string, at: nat, next: string,
                   nextPos: nat, more: string, far: nat)
    requires t != "" && !Contains(text, t) && pos < |s| && MatchAt(s, t, pos)
    requires whole == head + s && at == |head| + pos && MatchAt(whole, t, at)
    requires next == ReplacedOnce(s, t, text, pos) && pos <= |next| && nextPos == Find(next, t, pos)
    requires more == head + next && far == |head| + nextPos
    ensures far <= |more| && (far < |more| ==> MatchAt(more, t, far))
    ensures Replaced(whole, t, text, at) == Replaced(more, t, text, far)
  {
    OnceBehind(head, s, t, text, pos);
    FindBehind(head, next, t, pos);
    ReplacedStep(whole, t, text, at, more, far);
  }

  lemma {:induction false} ReplacedBehind(head: string, s: string, t: string, text: string, pos: nat, whole: string,
                                          at: nat, q: string, r: string)
    requires t != "" && !Contains(text, t) && pos <= |s| && (pos < |s| ==> MatchAt(s, t, pos))
    requires whole == head + s && at == |head| + pos && (at < |whole| ==> MatchAt(whole, t, at))
    requires q == Replaced(s, t, text, pos) && r == Replaced(whole, t, text, at)
    ensures r == head + q
    decreases |s| - pos
  {
    if pos < |s| {
      var next := ReplacedOnce(s, t, text, pos);
      LessBehind(s, t, text, pos);
      var nextPos := Find(next, t, pos);
      var more, far := head + next, |head| + nextPos;
      StepBehind(head, s, t, text, pos, whole, at, next, nextPos, more, far);
      ReplacedStep(s, t, text, pos, next, nextPos);
      ReplacedBehind(head, next, t, text, nextPos, more, far, q, r);
    }
  }

  // One text begins with the other.
  predicate Comparable(a: string, b: string) { a <= b || b <= a }

  // A replacement can complete a new occurrence with the p characters before it, which belong to no occurrence.
  predicate CompletesAt(t: string, text: string, p: nat) {
    && 0 < p < |t|
    && Comparable(text, t[p..])
    && forall j | 0 <= j < p :: !MatchAt(t[..p] + t, t, j)
  }

  predicate Completes(t: string, text: string) {
    exists p | 0 <= p < |t| :: CompletesAt(t, text, p)
  }

  // Nothing matches before the place.
  predicate ClearBefore(s: string, t: string, pos: nat) {
    forall k | 0 <= k < pos :: !MatchAt(s, t, k)
  }

  // replaceAll leaves no occurrence in any text exactly when no replacement can complete one.
  lemma ReplacesAllExactly(t: string, text: string)
    requires t != "" && !Contains(text, t)
    ensures (forall s :: !Contains(AllReplaced(s, t, text), t)) <==> !Completes(t, text)
  {
    if Completes(t, text) {
      var p :| 0 <= p < |t| && CompletesAt(t, text, p);
      OccurrenceLeft(t, text, p);
    } else {
      forall s ensures !Contains(AllReplaced(s, t, text), t) { NoneLeft(s, t, text, Find(s, t, 0)); }
    }
  }

  lemma {:induction false} NoneLeft(s: string, t: string, text: string, pos: nat)
    requires t != "" && !Contains(text, t) && !Completes(t, text)
    requires pos <= |s| && (pos < |s| ==> MatchAt(s, t, pos)) && ClearBefore(s, t, pos)
    ensures !Contains(Replaced(s, t, text, pos), t)
    decreases |s| - pos
  {
    if pos == |s| {
      assert !MatchAt(s, t, pos);
    } else {
      LessBehind(s, t, text, pos);
      var next := ReplacedOnce(s, t, text, pos);
      forall k | 0 <= k < pos ensures !MatchAt(next, t, k) {
        if MatchAt(next, t, k) { CompletedAt(s, t, text, pos, k); }
      }
      NoneLeft(next, t, text, Find(next, t, pos));
    }
  }

  // An occurrence that a replacement makes before itself is one it completes.
  lemma CompletedAt(s: string, t: string, text: string, pos: nat, k: nat)
    requires t != "" && k < pos && MatchAt(s, t, pos) && ClearBefore(s, t, pos)
    requires MatchAt(ReplacedOnce(s, t, text, pos), t, k)
    ensures Completes(t, text)
  {
    var next, p := ReplacedOnce(s, t, text, pos), pos - k;
    assert next[..pos] == s[..pos];
    if p >= |t| { MatchInside(next, 0, s[..pos], t, k); MatchInside(s, 0, s[..pos], t, k); }
    Overlaps(next, s[..pos], text, s[pos + |t|..], t, k);
    assert t[..p] == s[k..pos];
    assert s[k..pos + |t|] == t[..p] + t;
    forall j | 0 <= j < p ensures !MatchAt(t[..p] + t, t, j) {
      assert !MatchAt(s, t, k + j);
      MatchInside(s, k, t[..p] + t, t, j);
    }
    assert CompletesAt(t, text, p);
  }

  // A match within a part of a text is one of the text.
  lemma MatchInside(s: string, from: nat, part: string, t: string, j: nat)
    requires from + |part| <= |s| && s[from..from + |part|] == part && j + |t| <= |part|
    ensures MatchAt(part, t, j) <==> MatchAt(s, t, from + j)
  {
    forall i | 0 <= i < |part| ensures part[i] == s[from + i] {
      assert s[from..from + |part|][i] == s[from + i];
    }
    assert part[j..j + |t|] == s[from + j..from + j + |t|];
  }

  // A match that begins before the middle and reaches it shares a beginning with it.
  lemma Overlaps(whole: string, before: string, middle: string, after: string, t: string, k: nat)
    requires whole == before + middle + after && k < |before| < k + |t| && MatchAt(whole, t, k)
    ensures t[..|before| - k] == before[k..] && Comparable(middle, t[|before| - k..])
  {
    var p := |before| - k;
    assert forall i :: 0 <= i < |t| ==> t[i] == whole[k + i];
    if |middle| <= |t| - p {
      assert middle == t[p..][..|middle|];
    } else {
      assert t[p..] == middle[..|t| - p];
    }
  }

  // A text that keeps an occurrence.
  function Witness(t: string, text: string, p: nat): string
    requires p < |t|
  {
    t[..p] + t + if |text| < |t| - p then t[p + |text|..] else ""
  }

  lemma OccurrenceLeft(t: string, text: string, p: nat)
    requires t != "" && !Contains(text, t) && CompletesAt(t, text, p)
    ensures Contains(AllReplaced(Witness(t, text, p), t, text), t)
  {
    var s, rest := Witness(t, text, p), if |text| < |t| - p then t[p + |text|..] else "";
    WitnessMatches(t, text, p);
    var next := ReplacedOnce(s, t, text, p);
    assert s[..p] == t[..p] && s[p + |t|..] == rest;
    LessBehind(s, t, text, p);
    NothingBehind(t, text, p, rest, next);
    assert Replaced(next, t, text, |next|) == next;
  }

  // Its first occurrence begins after p characters.
  lemma WitnessMatches(t: string, text: string, p: nat)
    requires t != "" && CompletesAt(t, text, p)
    ensures var s := Witness(t, text, p); MatchAt(s, t, p) && Find(s, t, 0) == p
  {
    var s := Witness(t, text, p);
    var both := t[..p] + t;
    assert s[0..|both|] == both;
    forall j | 0 <= j < p ensures !MatchAt(s, t, j) {
      assert !MatchAt(both, t, j);
      MatchInside(s, 0, both, t, j);
    }
    assert s[p..p + |t|] == t && MatchAt(s, t, p);
    var r := Find(s, t, 0);
    assert r <= p;
  }

  // After the first replacement the text begins with an occurrence, and the search finds none behind it.
  lemma NothingBehind(t: string, text: string, p: nat, rest: string, next: string)
    requires t != "" && !Contains(text, t) && 0 < p < |t| && Comparable(text, t[p..])
    requires rest == (if |text| < |t| - p then t[p + |text|..] else "") && next == t[..p] + text + rest
    ensures MatchAt(next, t, 0) && Find(next, t, p) == |next|
  {
    if |text| < |t| - p {
      assert text == t[p..][..|text|];
      assert next == t;
    } else {
      assert t[p..] == text[..|t| - p];
      assert next[0..|t|] == t[..p] + t[p..] == t;
      forall k | p <= k < |next| ensures !MatchAt(next, t, k) {
        if MatchAt(next, t, k) { NotInside(t[..p], text, rest, t, k); }
      }
    }
  }

  // The least example: "ab" gives way to "b" in "aab".
  lemma OccurrenceLeftInAab()
    ensures !Contains("b", "ab") && CompletesAt("ab", "b", 1) && Witness("ab", "b", 1) == "aab"
    ensures Contains(AllReplaced("aab", "ab", "b"), "ab")
  {
    assert "ab"[1..] == "b" && "ab"[..1] == "a";
    assert "a" + "ab" == "aab" && "aab"[0..2] == "aa" && "aa"[1] != "ab"[1];
    assert !MatchAt("aab", "ab", 0);
    OccurrenceLeft("ab", "b", 1);
  }

  // The text up to done is replaced, up to pos in the result; the rest is as it was.
  ghost predicate Tracks(data: string, c: char, text: string, done: nat, result: string, pos: nat) {
    && done <= |data|
    && result == MapChar(data[..done], c, text) + data[done..]
    && pos == |MapChar(data[..done], c, text)|
  }

  lemma CharStart(data: string, t: string, text: string, pos: nat)
    requires |t| == 1 && pos == Find(data, t, 0)
    ensures Tracks(data, t[0], text, pos, data, pos)
  {
    forall k | 0 <= k < pos ensures data[k] != t[0] { assert !MatchAt(data, t, k); }
    MapCharAbsent(data[..pos], t[0], text);
  }

  lemma CharStep(data: string, t: string, text: string, done: nat, result: string, pos: nat, next: string, nextPos: nat)
    returns (done': nat)
    requires |t| == 1 && !Contains(text, t) && Tracks(data, t[0], text, done, result, pos)
    requires pos < |result| && MatchAt(result, t, pos)
    requires next == result[..pos] + text + result[pos + 1..] && nextPos == Find(next, t, pos)
    ensures Tracks(data, t[0], text, done', next, nextPos)
  {
    CharReplaced(data, t[0], text, done, result, pos);
    assert result[pos..pos + 1] == t;
    if nextPos < |next| { NotInside(result[..pos], text, result[pos + 1..], t, nextPos); }
    var mapped := MapChar(data[..done + 1], t[0], text);
    done' := done + 1 + (nextPos - |mapped|);
    CharSkipped(data, t, text, done + 1, next, |mapped|, nextPos, done');
  }

  lemma CharReplaced(data: string, c: char, text: string, done: nat, result: string, pos: nat)
    requires Tracks(data, c, text, done, result, pos) && pos < |result| && result[pos] == c
    ensures done < |data| && result[pos + 1..] == data[done + 1..]
    ensures MapChar(data[..done + 1], c, text) == result[..pos] + text
  {
    assert result[pos] == data[done];
    assert data[..done + 1] == data[..done] + [c];
    MapCharAppend(data[..done], [c], c, text);
    assert MapChar([c], c, text) == text + MapChar("", c, text);
  }

  lemma NoMatchNoChar(s: string, t: string, from: nat, to: nat)
    requires |t| == 1 && to <= |s| && forall k :: from <= k < to ==> !MatchAt(s, t, k)
    ensures forall k :: from <= k < to ==> s[k] != t[0]
  {
    forall k | from <= k < to ensures s[k] != t[0] {
      assert !MatchAt(s, t, k) && s[k..k + 1] == [s[k]];
    }
  }

  lemma CharSkipped(data: string, t: string, text: string, done: nat, next: string, from: nat, nextPos: nat, done': nat)
    requires |t| == 1 && done <= done' <= |data| && done' - done == nextPos - from
    requires next == MapChar(data[..done], t[0], text) + data[done..] && from == |MapChar(data[..done], t[0], text)|
    requires forall k :: from <= k < nextPos ==> !MatchAt(next, t, k)
    ensures Tracks(data, t[0], text, done', next, nextPos)
  {
    var gap := data[done..done'];
    NoMatchNoChar(next, t, from, nextPos);
    assert forall k :: 0 <= k < |gap| ==> gap[k] == next[from + k];
    KeepGap(data, t[0], text, done, done');
  }

  lemma KeepGap(data: string, c: char, text: string, done: nat, done': nat)
    requires done <= done' <= |data| && c !in data[done..done']
    ensures MapChar(data[..done'], c, text) == MapChar(data[..done], c, text) + data[done..done']
    ensures data[done..] == data[done..done'] + data[done'..]
  {
    MapCharAbsent(data[done..done'], c, text);
    assert data[..done'] == data[..done] + data[done..done'];
    MapCharAppend(data[..done], data[done..done'], c, text);
  }

  // A match behind the start of the replacement reaches past its end, or lies in it.
  lemma NotInside(before: string, middle: string, after: string, t: string, k: nat)
    requires |before| <= k && MatchAt(before + middle + after, t, k)
    ensures k + |t| > |before| + |middle| || Contains(middle, t)
  {
    if k + |t| <= |before| + |middle| {
      var j := k - |before|;
      assert middle[j..j + |t|] == (before + middle + after)[k..k + |t|];
      assert MatchAt(middle, t, j);
    }
  }
}
