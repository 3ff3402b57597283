/** How the generator turns C# names into script identifiers and string literals:
    `HandleSpecialCharacters` (drop generic arity markers, replace punctuation)
    and `ToEscapedString` (backslash escapes for a single-quoted literal). */
module Identifiers {

  // ---------------------------------------------------------------------------
  // HandleSpecialCharacters

  /** The regular expression class `\d`, read as the ASCII digits. */
  predicate IsDigit(c: char) {
    '0' <= c <= '9'
  }

  /** `Regex.Replace(s, "`\d", "")`: matches are found left to right and do not
      overlap, and the text left after a removal is not searched again. */
  function RemoveArity(s: string): (r: string)
    ensures |r| <= |s|
  {
    if |s| >= 2 && s[0] == '`' && IsDigit(s[1]) then RemoveArity(s[2..])
    else if s == [] then []
    else [s[0]] + RemoveArity(s[1..])
  }

  /** `s.Replace(c, d)` for one-character strings. */
  function ReplaceChar(s: string, c: char, d: char): (r: string)
    ensures |r| == |s|
    ensures forall i :: 0 <= i < |s| ==> r[i] == if s[i] == c then d else s[i]
  {
    if s == [] then [] else [if s[0] == c then d else s[0]] + ReplaceChar(s[1..], c, d)
  }

  /** The four `Replace` calls, in the order the generator makes them. */
  function ReplaceSpecial(t: string): string {
    ReplaceChar(ReplaceChar(ReplaceChar(ReplaceChar(t, '<', '_'), '>', '_'), ',', '_'), '-', '_')
  }

  function HandleSpecialCharacters(s: string): string {
    ReplaceSpecial(RemoveArity(s))
  }

  /** The characters the replacements turn into `_`. */
  predicate Special(c: char) {
    c == '<' || c == '>' || c == ',' || c == '-'
  }

  /** The four replacements together map each character on its own: the punctuation
      becomes `_`, everything else is kept, and nothing moves. */
  lemma HandleSpecialCharactersPointwise(s: string)
    ensures var t, r := RemoveArity(s), HandleSpecialCharacters(s);
      |r| == |t| && forall i :: 0 <= i < |t| ==> r[i] == if Special(t[i]) then '_' else t[i]
  {
  }

  /** The result never contains `<`, `>`, `,` or `-`, and is never longer than the input. */
  lemma HandleSpecialCharactersClean(s: string)
    ensures var r := HandleSpecialCharacters(s);
      |r| <= |s| && forall i :: 0 <= i < |r| ==> !Special(r[i])
  {
    HandleSpecialCharactersPointwise(s);
  }

  /** Position `i` holds an arity marker: a backtick followed by a digit. */
  predicate MarkerAt(s: string, i: int) {
    0 <= i < |s| - 1 && s[i] == '`' && IsDigit(s[i + 1])
  }

  /** Text without an arity marker is kept as it is, lone backticks included. */
  lemma {:induction false} RemoveArityNoMarker(s: string)
    requires forall i :: 0 <= i < |s| - 1 ==> !(s[i] == '`' && IsDigit(s[i + 1]))
    ensures RemoveArity(s) == s
  {
    if s != [] {
      assert !MarkerAt(s, 0);
      forall i | 0 <= i < |s[1..]| - 1
        ensures !(s[1..][i] == '`' && IsDigit(s[1..][i + 1]))
      {
        assert s[1..][i] == s[i + 1] && s[1..][i + 1] == s[i + 2];
      }
      RemoveArityNoMarker(s[1..]);
      assert s == [s[0]] + s[1..];
    }
  }

  /** Text with an arity marker always loses characters. */
  lemma {:induction false} RemoveArityShrinks(s: string, i: int)
    requires MarkerAt(s, i)
    ensures |RemoveArity(s)| < |s|
    decreases |s|
  {
    if !(|s| >= 2 && s[0] == '`' && IsDigit(s[1])) {
      assert i >= 1;
      assert s[1..][i - 1] == s[i] && s[1..][i] == s[i + 1];
      RemoveArityShrinks(s[1..], i - 1);
    }
  }

  /** The text is unchanged exactly when it holds no arity marker. */
  lemma RemoveArityUnchanged(s: string)
    ensures RemoveArity(s) == s <==> forall i :: 0 <= i < |s| - 1 ==> !(s[i] == '`' && IsDigit(s[i + 1]))
  {
    if forall i :: 0 <= i < |s| - 1 ==> !(s[i] == '`' && IsDigit(s[i + 1])) {
      RemoveArityNoMarker(s);
    } else {
      var i :| 0 <= i < |s| - 1 && s[i] == '`' && IsDigit(s[i + 1]);
      RemoveArityShrinks(s, i);
    }
  }

  /** A backtick that is not followed by a digit is kept. */
  lemma RemoveArityLoneTick(a: string, b: string)
    requires forall i :: 0 <= i < |a| ==> a[i] != '`'
    requires forall i :: 0 <= i < |b| ==> b[i] != '`' && !IsDigit(b[i])
    ensures RemoveArity(a + "`" + b) == a + "`" + b
  {
    var s := a + "`" + b;
    forall i | 0 <= i < |s| - 1
      ensures !(s[i] == '`' && IsDigit(s[i + 1]))
    {
      if i == |a| {
        assert s[i + 1] == b[0];
      } else if i < |a| {
        assert s[i] == a[i];
      } else {
        assert s[i] == b[i - |a| - 1];
      }
    }
    RemoveArityNoMarker(s);
  }

  /** Removal works piece by piece when the first piece does not end in a backtick
      (which could pair with a digit at the start of the second). */
  lemma {:induction false} RemoveArityConcat(s: string, t: string)
    requires s == [] || s[|s| - 1] != '`'
    ensures RemoveArity(s + t) == RemoveArity(s) + RemoveArity(t)
    decreases |s|, 1
  {
    if s == [] {
      assert s + t == t;
    } else if |s| >= 2 && s[0] == '`' && IsDigit(s[1]) {
      RemoveArityConcatMarker(s, t);
    } else {
      RemoveArityConcatPlain(s, t);
    }
  }

  /** The step of `RemoveArityConcat` where `s` starts with a marker. */
  lemma {:induction false} RemoveArityConcatMarker(s: string, t: string)
    requires |s| >= 2 && s[0] == '`' && IsDigit(s[1]) && s[|s| - 1] != '`'
    ensures RemoveArity(s + t) == RemoveArity(s) + RemoveArity(t)
    decreases |s|, 0
  {
    var u, s' := s + t, s[2..];
    assert u[0] == s[0] && u[1] == s[1];
    assert u[2..] == s' + t;
    assert s' == [] || s'[|s'| - 1] == s[|s| - 1];
    RemoveArityConcat(s', t);
  }

  /** The step of `RemoveArityConcat` where `s` starts with a kept character. */
  lemma {:induction false} RemoveArityConcatPlain(s: string, t: string)
    requires s != [] && !(|s| >= 2 && s[0] == '`' && IsDigit(s[1])) && s[|s| - 1] != '`'
    ensures RemoveArity(s + t) == RemoveArity(s) + RemoveArity(t)
    decreases |s|, 0
  {
    var u, s' := s + t, s[1..];
    assert !(|u| >= 2 && u[0] == '`' && IsDigit(u[1])) by {
      assert u[0] == s[0];
      if |s| >= 2 {
        assert u[1] == s[1];
      } else {
        assert s[0] == s[|s| - 1];
      }
    }
    assert RemoveArity(u) == [u[0]] + RemoveArity(u[1..]);
    assert RemoveArity(s) == [s[0]] + RemoveArity(s');
    assert u[1..] == s' + t;
    assert s' == [] || s'[|s'| - 1] == s[|s| - 1];
    RemoveArityConcat(s', t);
    Associative([s[0]], RemoveArity(s'), RemoveArity(t));
  }

  lemma Associative(a: string, b: string, c: string)
    ensures a + b + c == a + (b + c)
  {
  }

  /** One marker is removed; the marker exposed by the removal is not. */
  lemma RemoveArityOnce()
    ensures RemoveArity("``11") == "`1"
  {
    assert "``11"[1..] == "`11";
    assert "`11"[2..] == "1";
    assert "1"[1..] == "";
  }

  /** A single marker between two texts without backticks is exactly what is removed. */
  lemma RemoveArityMarker(a: string, d: char, c: string)
    requires forall i :: 0 <= i < |a| ==> a[i] != '`'
    requires forall i :: 0 <= i < |c| ==> c[i] != '`'
    requires IsDigit(d)
    ensures RemoveArity(a + ['`', d] + c) == a + c
  {
    var b := ['`', d] + c;
    assert a + ['`', d] + c == a + b;
    RemoveArityNoMarker(a);
    assert RemoveArity(b) == c by {
      assert b[2..] == c;
      RemoveArityNoMarker(c);
    }
    RemoveArityConcat(a, b);
  }

  lemma RemoveArityExample(s: string)
    requires s == "List`1<T>"
    ensures RemoveArity(s) == "List" + "<T>"
  {
    assert s == "List" + ['`', '1'] + "<T>";
    RemoveArityMarker("List", '1', "<T>");
  }

  /** Replacing a character that does not occur changes nothing. */
  lemma ReplaceCharAbsent(s: string, c: char, d: char)
    requires forall i :: 0 <= i < |s| ==> s[i] != c
    ensures ReplaceChar(s, c, d) == s
  {
  }

  lemma ReplaceSpecialExample(t: string)
    requires t == "List" + "<T>"
    ensures ReplaceSpecial(t) == "List_T_"
  {
    var r1 := ReplaceChar(t, '<', '_');
    var r2 := ReplaceChar(r1, '>', '_');
    assert r2 == "List_T_" by {
      assert |r2| == 7;
      assert r2[0] == 'L' && r2[1] == 'i' && r2[2] == 's' && r2[3] == 't';
      assert r2[4] == '_' && r2[5] == 'T' && r2[6] == '_';
    }
    ReplaceCharAbsent(r2, ',', '_');
    ReplaceCharAbsent(r2, '-', '_');
  }

  /** A generic type name loses its arity and its punctuation. */
  lemma HandleSpecialCharactersExample(s: string)
    requires s == "List`1<T>"
    ensures HandleSpecialCharacters(s) == "List_T_"
  {
    RemoveArityExample(s);
    ReplaceSpecialExample(RemoveArity(s));
  }

  // ---------------------------------------------------------------------------
  // ToEscapedString

  /** The twelve characters `ToEscapedString` escapes. */
  predicate Escaped(c: char) {
    c == '\'' || c == '"' || c == '\t' || c == '\n' || c == '\r' || c == '\U{000C}'
    || c == '\U{0008}' || c == '\\' || c == '\0' || c == '\U{0085}' || c == '\U{2028}'
    || c == '\U{2029}'
  }

  /** The characters that must not appear raw in the literal. */
  predicate Raw(c: char) {
    c == '\t' || c == '\n' || c == '\r' || c == '\U{000C}' || c == '\U{0008}' || c == '\0'
    || c == '\U{0085}' || c == '\U{2028}' || c == '\U{2029}'
  }

  /** The text the `switch` appends for one character. */
  function EscapeChar(c: char): (r: string)
    ensures !Escaped(c) ==> r == [c]
    ensures c == '\'' || c == '"' || c == '\\' ==> r == ['\\', c]
    ensures Escaped(c) ==> |r| >= 2 && r[0] == '\\'
  {
    match c
    case '\'' => "\\'"
    case '"' => "\\\""
    case '\t' => "\\t"
    case '\n' => "\\n"
    case '\r' => "\\r"
    case '\U{000C}' => "\\f"
    case '\U{0008}' => "\\b"
    case '\\' => "\\\\"
    case '\0' => "\\0"
    case '\U{0085}' => "\\u0085"
    case '\U{2028}' => "\\u2028"
    case '\U{2029}' => "\\u2029"
    case _ => [c]
  }

  /** The escaped text, character by character. */
  function Escape(s: string): string {
    if s == [] then [] else Escape(s[..|s| - 1]) + EscapeChar(s[|s| - 1])
  }

  /** `ToEscapedString`: the loop appending to a `StringBuilder`. */
  method ToEscapedString(s: string) returns (re: string)
    ensures re == Escape(s)
  {
    re := "";
    for i := 0 to |s|
      invariant re == Escape(s[..i])
    {
      assert s[..i + 1][..i] == s[..i];
      re := re + EscapeChar(s[i]);
    }
    assert s[..|s|] == s;
  }

  /** Escaping distributes over concatenation. */
  lemma {:induction false} EscapeConcat(s: string, t: string)
    ensures Escape(s + t) == Escape(s) + Escape(t)
    decreases |t|
  {
    if t == [] {
      assert s + t == s;
    } else {
      var t', c := t[..|t| - 1], t[|t| - 1];
      assert Escape(s + t) == Escape(s + t') + EscapeChar(c) by {
        assert (s + t)[..|s + t| - 1] == s + t';
        assert (s + t)[|s + t| - 1] == c;
      }
      EscapeConcat(s, t');
      assert Escape(t) == Escape(t') + EscapeChar(c);
      Associative(Escape(s), Escape(t'), EscapeChar(c));
    }
  }

  /** The text for one character holds no raw control or separator character. */
  lemma EscapeCharClean(c: char)
    ensures forall i :: 0 <= i < |EscapeChar(c)| ==> !Raw(EscapeChar(c)[i])
  {
  }

  /** No raw control or separator character survives escaping, and nothing gets shorter. */
  lemma {:induction false} EscapeClean(s: string)
    ensures |Escape(s)| >= |s|
    ensures forall i :: 0 <= i < |Escape(s)| ==> !Raw(Escape(s)[i])
  {
    if s != [] {
      var p := s[..|s| - 1];
      EscapeClean(p);
      var a, b := Escape(p), EscapeChar(s[|s| - 1]);
      assert Escape(s) == a + b;
      EscapeCharClean(s[|s| - 1]);
      forall i | 0 <= i < |a + b|
        ensures !Raw((a + b)[i])
      {
        if i < |a| {
          assert (a + b)[i] == a[i];
        } else {
          assert (a + b)[i] == b[i - |a|];
        }
      }
    }
  }

  /** Returns the character escaped by `\` followed by `c`, if it is a one-letter escape. */
  function ShortEscape(c: char): (r: char)
  {
    match c
    case 't' => '\t'
    case 'n' => '\n'
    case 'r' => '\r'
    case 'f' => '\U{000C}'
    case 'b' => '\U{0008}'
    case '0' => '\0'
    case _ => c
  }

  /** Reads the literal back: the inverse of `Escape`. */
  function Unescape(s: string): string
    decreases |s|
  {
    if s == [] then []
    else if s[0] == '\\' && |s| >= 6 && s[1] == 'u' && s[2..6] == "0085" then ['\U{0085}'] + Unescape(s[6..])
    else if s[0] == '\\' && |s| >= 6 && s[1] == 'u' && s[2..6] == "2028" then ['\U{2028}'] + Unescape(s[6..])
    else if s[0] == '\\' && |s| >= 6 && s[1] == 'u' && s[2..6] == "2029" then ['\U{2029}'] + Unescape(s[6..])
    else if s[0] == '\\' && |s| >= 2 then [ShortEscape(s[1])] + Unescape(s[2..])
    else [s[0]] + Unescape(s[1..])
  }

  /** Reading back the text of one character, followed by anything. */
  lemma UnescapeChar(c: char, rest: string)
    ensures Unescape(EscapeChar(c) + rest) == [c] + Unescape(rest)
  {
    if !Escaped(c) {
      UnescapePlain(c, rest);
    } else if c == '\U{0085}' || c == '\U{2028}' || c == '\U{2029}' {
      UnescapeLong(c, rest);
    } else {
      UnescapeShort(c, rest);
    }
  }

  lemma UnescapePlain(c: char, rest: string)
    requires !Escaped(c)
    ensures Unescape(EscapeChar(c) + rest) == [c] + Unescape(rest)
  {
    var s := [c] + rest;
    assert s[0] == c && s[1..] == rest;
  }

  lemma UnescapeLong(c: char, rest: string)
    requires c == '\U{0085}' || c == '\U{2028}' || c == '\U{2029}'
    ensures Unescape(EscapeChar(c) + rest) == [c] + Unescape(rest)
  {
    var e := EscapeChar(c);
    var s := e + rest;
    assert s[0] == '\\' && s[1] == 'u';
    assert s[2..6] == e[2..6];
    assert s[6..] == rest;
  }

  lemma UnescapeShort(c: char, rest: string)
    requires Escaped(c) && c != '\U{0085}' && c != '\U{2028}' && c != '\U{2029}'
    ensures Unescape(EscapeChar(c) + rest) == [c] + Unescape(rest)
  {
    var e := EscapeChar(c);
    var s := e + rest;
    assert |e| == 2;
    assert s[0] == '\\' && s[1] == e[1] && e[1] != 'u';
    assert ShortEscape(e[1]) == c;
    assert s[2..] == rest;
  }

  /** Unescaping the escaped text gives back the original. */
  lemma {:induction false} UnescapeEscape(s: string)
    ensures Unescape(Escape(s)) == s
    decreases |s|
  {
    if s != [] {
      var rest := s[1..];
      assert s == [s[0]] + rest;
      EscapeConcat([s[0]], rest);
      assert Escape([s[0]]) == EscapeChar(s[0]) by {
        assert [s[0]][..0] == [];
      }
      UnescapeChar(s[0], Escape(rest));
      UnescapeEscape(rest);
    }
  }
}
