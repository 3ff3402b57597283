/** The C# keywords the dump generator writes in front of declarations, the
    text it writes for a run of them ("protected internal static "), and that
    text read back into keywords. Also `string.Join`, which it uses for lists. */
module Keywords {
  import opened Wrappers

  datatype Keyword =
    | Public | Private | Protected | Internal
    | Static | Abstract | Sealed | Override | Virtual | Extern
    | Const | Readonly | Optional | Out
    | Interface | Struct | Enum | Class

  /** The keyword as the generator appends it, with its trailing space. */
  function Text(k: Keyword): string {
    match k
    case Public => "public "
    case Private => "private "
    case Protected => "protected "
    case Internal => "internal "
    case Static => "static "
    case Abstract => "abstract "
    case Sealed => "sealed "
    case Override => "override "
    case Virtual => "virtual "
    case Extern => "extern "
    case Const => "const "
    case Readonly => "readonly "
    case Optional => "optional "
    case Out => "out "
    case Interface => "interface "
    case Struct => "struct "
    case Enum => "enum "
    case Class => "class "
  }

  /** The keyword itself. */
  function Name(k: Keyword): string {
    match k
    case Public => "public"
    case Private => "private"
    case Protected => "protected"
    case Internal => "internal"
    case Static => "static"
    case Abstract => "abstract"
    case Sealed => "sealed"
    case Override => "override"
    case Virtual => "virtual"
    case Extern => "extern"
    case Const => "const"
    case Readonly => "readonly"
    case Optional => "optional"
    case Out => "out"
    case Interface => "interface"
    case Struct => "struct"
    case Enum => "enum"
    case Class => "class"
  }

  /** Reads one keyword, by its first letter and then the whole word. */
  function ParseKeyword(w: string): Option<Keyword> {
    if w == [] then None
    else match w[0]
      case 'p' => if w == "public" then Some(Public) else if w == "private" then Some(Private) else if w == "protected" then Some(Protected) else None
      case 'i' => if w == "internal" then Some(Internal) else if w == "interface" then Some(Interface) else None
      case 's' => if w == "static" then Some(Static) else if w == "sealed" then Some(Sealed) else if w == "struct" then Some(Struct) else None
      case 'a' => if w == "abstract" then Some(Abstract) else None
      case 'o' => if w == "override" then Some(Override) else if w == "optional" then Some(Optional) else if w == "out" then Some(Out) else None
      case 'v' => if w == "virtual" then Some(Virtual) else None
      case 'e' => if w == "extern" then Some(Extern) else if w == "enum" then Some(Enum) else None
      case 'c' => if w == "const" then Some(Const) else if w == "class" then Some(Class) else None
      case 'r' => if w == "readonly" then Some(Readonly) else None
      case _ => None
  }

  /** The text of a run of keywords: what a chain of `str += "keyword "` builds. */
  function Render(ks: seq<Keyword>): string {
    if ks == [] then "" else Text(ks[0]) + Render(ks[1..])
  }

  /** A string that can be a single keyword. */
  predicate NoSpace(w: string) {
    forall i :: 0 <= i < |w| ==> w[i] != ' '
  }

  /** The position of the first space in `s`, or `|s|` when there is none. */
  function FirstSpace(s: string): (i: nat)
    ensures i <= |s|
    ensures i < |s| ==> s[i] == ' '
    ensures forall j :: 0 <= j < i ==> s[j] != ' '
  {
    if s == [] || s[0] == ' ' then 0 else 1 + FirstSpace(s[1..])
  }

  /** Splits text at its spaces. */
  function Words(s: string): seq<string>
    decreases |s|
  {
    if s == [] then []
    else
      var i := FirstSpace(s);
      if i == |s| then [s] else [s[..i]] + Words(s[i + 1..])
  }

  /** Reads a run of words as keywords; `None` when one of them is not a keyword. */
  function ParseWords(ws: seq<string>): Option<seq<Keyword>> {
    if ws == [] then Some([])
    else
      match (ParseKeyword(ws[0]), ParseWords(ws[1..]))
      case (Some(k), Some(ks)) => Some([k] + ks)
      case _ => None
  }

  /** Reads modifier text back into its keywords. */
  function Parse(s: string): Option<seq<Keyword>> {
    ParseWords(Words(s))
  }

  lemma TextName(k: Keyword)
    ensures Text(k) == Name(k) + " "
  {
  }

  lemma NameNoSpace(k: Keyword)
    ensures NoSpace(Name(k))
  {
  }

  /** Distinct keywords have distinct names. */
  lemma ParseName(k: Keyword)
    ensures ParseKeyword(Name(k)) == Some(k)
  {
    match k
    case Public => {}
    case Private => {}
    case Protected => {}
    case Internal => {}
    case Static => {}
    case Abstract => {}
    case Sealed => {}
    case Override => {}
    case Virtual => {}
    case Extern => {}
    case Const => {}
    case Readonly => {}
    case Optional => {}
    case Out => {}
    case Interface => {}
    case Struct => {}
    case Enum => {}
    case Class => {}
  }

  lemma FirstSpaceAfter(w: string, rest: string)
    requires NoSpace(w)
    ensures FirstSpace(w + " " + rest) == |w|
  {
    var s := w + " " + rest;
    assert s[|w|] == ' ';
    assert forall j :: 0 <= j < |w| ==> s[j] == w[j];
  }

  /** Modifier text reads back as exactly the keywords it was made from. */
  lemma {:induction false} ParseRender(ks: seq<Keyword>)
    ensures Parse(Render(ks)) == Some(ks)
  {
    if ks != [] {
      var w, rest := Name(ks[0]), Render(ks[1..]);
      TextName(ks[0]);
      NameNoSpace(ks[0]);
      ParseName(ks[0]);
      var s := w + " " + rest;
      assert Render(ks) == s;
      FirstSpaceAfter(w, rest);
      assert s[..|w|] == w;
      assert s[|w| + 1..] == rest;
      assert Words(s) == [w] + Words(rest);
      ParseRender(ks[1..]);
      assert ks == [ks[0]] + ks[1..];
    }
  }

  /** The text of a concatenation of keyword runs. */
  lemma {:induction false} RenderConcat(a: seq<Keyword>, b: seq<Keyword>)
    ensures Render(a + b) == Render(a) + Render(b)
  {
    if a != [] {
      assert (a + b)[1..] == a[1..] + b;
      RenderConcat(a[1..], b);
    } else {
      assert a + b == b;
    }
  }

  /** `string.Join(sep, xs)`. */
  function Join(sep: string, xs: seq<string>): string {
    if xs == [] then "" else if |xs| == 1 then xs[0] else xs[0] + sep + Join(sep, xs[1..])
  }
}
