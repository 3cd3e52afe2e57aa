/** base::Name as text (base/name.hpp): split at '/' and joined again. */
module NameText {
  import opened Names
  import opened Wrappers
  import opened StringUtils
  import opened PathCodec

  // base::utils::string::split after its first delimiter is taken off: no last part when the text ends there.
  function Pieces(s: string, delim: char): seq<string>
    decreases |s|
  {
    var pos := FindChar(s, delim, 0);
    if pos == |s| then if s == "" then [] else [s] else [s[..pos]] + Pieces(s[pos + 1..], delim)
  }

  function Trimmed(s: string, delim: char): string {
    if s != "" && s[0] == delim then s[1..] else s
  }

  // A delimiter that ends the text.
  function Ending(s: string, delim: char): string {
    if s != "" && s[|s| - 1] == delim then [delim] else ""
  }

  // The pieces hold no delimiter, and joined again they are the text, up to a delimiter that ends it.
  lemma {:induction false} PiecesLaw(s: string, delim: char)
    ensures Pieces(s, delim) == [] <==> s == ""
    ensures forall i :: 0 <= i < |Pieces(s, delim)| ==> delim !in Pieces(s, delim)[i]
    ensures s == JoinWith(Pieces(s, delim), [delim]) + Ending(s, delim)
    decreases |s|
  {
    var pos := FindChar(s, delim, 0);
    if pos == |s| {
      assert s[0..pos] == s;
    } else {
      var head, rest := s[..pos], s[pos + 1..];
      assert s[0..pos] == head;
      PiecesLaw(rest, delim);
      assert s == head + [delim] + rest && Pieces(s, delim) == [head] + Pieces(rest, delim);
      if rest != "" { JoinFirst(head, rest, Pieces(rest, delim), delim); }
    }
  }

  lemma JoinFirst(head: string, rest: string, more: seq<string>, delim: char)
    requires more != [] && rest != "" && rest == JoinWith(more, [delim]) + Ending(rest, delim)
    ensures var s := head + [delim] + rest; s == JoinWith([head] + more, [delim]) + Ending(s, delim)
  {
    SameEnding(head + [delim], rest, delim);
    JoinCons(head, more, [delim]);
    Longer(head + [delim], JoinWith(more, [delim]), Ending(rest, delim));
  }

  lemma SameEnding(head: string, rest: string, delim: char)
    requires rest != ""
    ensures Ending(head + rest, delim) == Ending(rest, delim)
  {
  }

  lemma JoinCons(head: string, more: seq<string>, sep: string)
    requires more != []
    ensures JoinWith([head] + more, sep) == head + sep + JoinWith(more, sep)
  {
    assert ([head] + more)[1..] == more;
  }

  lemma Longer(a: string, b: string, c: string)
    ensures a + (b + c) == a + b + c
  {
  }

  method SplitText(text: string, delim: char) returns (ret: seq<string>)
    ensures ret == Pieces(Trimmed(text, delim), delim)
    ensures ret == [] <==> text == "" || text == [delim]
    ensures forall i :: 0 <= i < |ret| ==> delim !in ret[i]
    ensures var str := if text != "" && text[0] == delim then text[1..] else text;
            str == JoinWith(ret, [delim]) + if str != "" && str[|str| - 1] == delim then [delim] else ""
  {
    PiecesLaw(Trimmed(text, delim), delim);
    ret := [];
    var str := text;
    if str != "" && str[0] == delim {
      str := str[1..];
    }
    ghost var all := Pieces(str, delim);
    var pos: nat := FindChar(str, delim, 0);
    while pos != |str|
      invariant pos == FindChar(str, delim, 0)
      invariant ret + Pieces(str, delim) == all
      decreases |str|
    {
      PiecesStep(ret, str, delim, pos);
      ret := ret + [str[..pos]];
      str := str[pos + 1..];
      pos := FindChar(str, delim, 0);
    }
    if str != "" {
      ret := ret + [str];
    }
  }

  lemma PiecesStep(ret: seq<string>, str: string, delim: char, pos: nat)
    requires pos == FindChar(str, delim, 0) && pos < |str|
    ensures ret + Pieces(str, delim) == ret + [str[..pos]] + Pieces(str[pos + 1..], delim)
  {
    Assoc(ret, [str[..pos]], Pieces(str[pos + 1..], delim));
  }

  lemma Assoc(a: seq<string>, b: seq<string>, c: seq<string>)
    ensures a + (b + c) == a + b + c
  {
  }

  // What Name::assertSize asks of the parts.
  predicate Accepted(parts: seq<string>) {
    1 <= |parts| <= MAX_PARTS && "" !in parts
  }

  // None: the constructor throws.
  function ParseName(text: string): Option<seq<string>> {
    var parts := Pieces(Trimmed(text, '/'), '/');
    if Accepted(parts) then Some(parts) else None
  }

  function ToStr(parts: seq<string>): string {
    JoinWith(parts, "/")
  }

  predicate SlashFree(parts: seq<string>) {
    forall i :: 0 <= i < |parts| ==> '/' !in parts[i]
  }

  lemma PiecesOne(p: string)
    requires p != "" && '/' !in p
    ensures Pieces(p, '/') == [p] && Pieces(p + "/", '/') == [p]
  {
    FirstSlash(p, "");
    assert p + "/" + "" == p + "/";
    assert (p + "/")[|p| + 1..] == "";
    NoneFound(p);
    assert (p + "/")[..|p|] == p && Pieces("", '/') == [];
  }

  lemma FirstSlash(p: string, rest: string)
    requires '/' !in p
    ensures FindChar(p + "/" + rest, '/', 0) == |p|
  {
    var s := p + "/" + rest;
    var r := FindChar(s, '/', 0);
    assert s[|p|] == '/' && s[0..r] == s[..r];
    assert forall k :: 0 <= k < |p| ==> s[k] == p[k];
  }

  lemma NoneFound(p: string)
    requires '/' !in p
    ensures FindChar(p, '/', 0) == |p|
  {
  }

  lemma PiecesMore(p: string, rest: string)
    requires '/' !in p
    ensures Pieces(p + "/" + rest, '/') == [p] + Pieces(rest, '/')
  {
    FirstSlash(p, rest);
    var s := p + "/" + rest;
    assert s[..|p|] == p && s[|p| + 1..] == rest;
  }

  lemma {:induction false} PiecesOfText(parts: seq<string>)
    requires parts != [] && "" !in parts && SlashFree(parts)
    ensures Pieces(ToStr(parts), '/') == parts && Pieces(ToStr(parts) + "/", '/') == parts
  {
    if |parts| == 1 {
      PiecesOne(parts[0]);
    } else {
      PiecesOfText(parts[1..]);
      var rest := ToStr(parts[1..]);
      PiecesMore(parts[0], rest);
      PiecesMore(parts[0], rest + "/");
      assert ToStr(parts) + "/" == parts[0] + "/" + (rest + "/");
      assert parts == [parts[0]] + parts[1..];
    }
  }

  lemma {:induction false} TextOfPieces(s: string)
    requires var parts := Pieces(s, '/'); parts != [] && "" !in parts
    ensures var parts := Pieces(s, '/');
            SlashFree(parts) && (s == ToStr(parts) || s == ToStr(parts) + "/")
    decreases |s|
  {
    var parts, pos := Pieces(s, '/'), FindChar(s, '/', 0);
    assert s[0..pos] == s[..pos];
    if pos < |s| {
      var rest := s[pos + 1..];
      assert s == s[..pos] + "/" + rest;
      assert parts[1..] == Pieces(rest, '/');
      if rest != "" {
        TextOfPieces(rest);
      }
    }
  }

  // The joined text, with or without one more '/' at either end.
  predicate Spells(text: string, name: seq<string>) {
    var t := ToStr(name);
    text == t || text == "/" + t || text == t + "/" || text == "/" + t + "/"
  }

  lemma ParsedSpells(text: string, name: seq<string>)
    requires ParseName(text) == Some(name)
    ensures Accepted(name) && SlashFree(name) && Spells(text, name)
  {
    var body := Trimmed(text, '/');
    TextOfPieces(body);
    assert text == body || text == "/" + body;
    assert "/" + (ToStr(name) + "/") == "/" + ToStr(name) + "/";
  }

  lemma SpelledParses(text: string, name: seq<string>)
    requires Accepted(name) && SlashFree(name) && Spells(text, name)
    ensures ParseName(text) == Some(name)
  {
    PiecesOfText(name);
    var t := ToStr(name);
    TextStarts(name);
    assert Trimmed(t, '/') == t && Trimmed("/" + t, '/') == t;
    assert Trimmed(t + "/", '/') == t + "/" && Trimmed("/" + t + "/", '/') == t + "/";
  }

  // A text stands for a name exactly when it is the name joined by '/', with or without one more '/' at either end.
  lemma ParseExactly(text: string, name: seq<string>)
    ensures ParseName(text) == Some(name) <==> Accepted(name) && SlashFree(name) && Spells(text, name)
  {
    if ParseName(text) == Some(name) { ParsedSpells(text, name); }
    if Accepted(name) && SlashFree(name) && Spells(text, name) { SpelledParses(text, name); }
  }

  lemma TextStarts(parts: seq<string>)
    requires Accepted(parts) && SlashFree(parts)
    ensures ToStr(parts) != "" && ToStr(parts)[0] != '/'
  {
    assert parts[0] in parts;
    assert parts[0][0] in parts[0];
  }
}
