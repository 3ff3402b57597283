/** Reading the Unity version the user types (`2018.4.2f1`, `2019.1`) and the
    metadata version 24 sub-revision it implies. Versions of the metadata are
    kept in tenths: 24 is 240, 24.1 is 241 and 24.2 is 242. */
module UnityVersion {
  import opened Wrappers
  import opened Identifiers
  import opened Keywords

  // ---------------------------------------------------------------------------
  // Splitting the text into numbers

  /** `Regex.Replace(s, @"\D", ".")`: every non-digit becomes a dot. */
  function Dotted(s: string): (r: string)
    ensures |r| == |s|
    ensures forall i :: 0 <= i < |s| ==> r[i] == if IsDigit(s[i]) then s[i] else '.'
  {
    if s == [] then [] else [if IsDigit(s[0]) then s[0] else '.'] + Dotted(s[1..])
  }

  /** The position of the first dot, or `|s|` when there is none. */
  function FirstDot(s: string): (i: nat)
    ensures i <= |s|
    ensures i < |s| ==> s[i] == '.'
    ensures forall j :: 0 <= j < i ==> s[j] != '.'
  {
    if s == [] || s[0] == '.' then 0 else 1 + FirstDot(s[1..])
  }

  /** `s.Split(".")`: the pieces between the dots, empty ones included. */
  function Split(s: string): (r: seq<string>)
    ensures |r| >= 1
    decreases |s|
  {
    var i := FirstDot(s);
    if i == |s| then [s] else [s[..i]] + Split(s[i + 1..])
  }

  /** `StringSplitOptions.RemoveEmptyEntries`. */
  function RemoveEmpty(xs: seq<string>): (r: seq<string>)
    ensures |r| <= |xs|
    ensures forall i :: 0 <= i < |r| ==> r[i] != [] && r[i] in xs
    ensures forall x :: multiset(r)[x] == if x == [] then 0 else multiset(xs)[x]
  {
    if xs == [] then []
    else if xs[0] == [] then
      assert xs == [xs[0]] + xs[1..];
      RemoveEmpty(xs[1..])
    else
      assert xs == [xs[0]] + xs[1..];
      [xs[0]] + RemoveEmpty(xs[1..])
  }

  /** Removing the empty pieces keeps the order of the others: it distributes
      over concatenation. */
  lemma {:induction false} RemoveEmptyConcat(a: seq<string>, b: seq<string>)
    ensures RemoveEmpty(a + b) == RemoveEmpty(a) + RemoveEmpty(b)
  {
    if a == [] {
      assert a + b == b;
    } else {
      assert (a + b)[0] == a[0];
      assert (a + b)[1..] == a[1..] + b;
      RemoveEmptyConcat(a[1..], b);
      if a[0] != [] {
        assert [a[0]] + (RemoveEmpty(a[1..]) + RemoveEmpty(b)) == [a[0]] + RemoveEmpty(a[1..]) + RemoveEmpty(b);
      }
    }
  }

  /** One piece is kept exactly when it is not empty. */
  lemma RemoveEmptySingle(x: string)
    ensures RemoveEmpty([x]) == if x == [] then [] else [x]
  {
  }

  /** The numbers of a version string, still as text. */
  function Pieces(s: string): seq<string> {
    RemoveEmpty(Split(Dotted(s)))
  }

  predicate DigitString(d: string) {
    forall i :: 0 <= i < |d| ==> IsDigit(d[i])
  }

  predicate NoDot(d: string) {
    forall i :: 0 <= i < |d| ==> d[i] != '.'
  }

  lemma {:induction false} SplitPiecesNoDot(s: string)
    ensures forall k :: 0 <= k < |Split(s)| ==> NoDot(Split(s)[k])
    decreases |s|
  {
    var i := FirstDot(s);
    if i < |s| {
      SplitPiecesNoDot(s[i + 1..]);
      var r := Split(s);
      assert r == [s[..i]] + Split(s[i + 1..]);
      forall k | 0 <= k < |r|
        ensures NoDot(r[k])
      {
        if k > 0 {
          assert r[k] == Split(s[i + 1..])[k - 1];
        }
      }
    }
  }

  /** Every piece is a non-empty run of digits. */
  lemma PiecesDigits(s: string)
    ensures forall k :: 0 <= k < |Pieces(s)| ==> Pieces(s)[k] != [] && DigitString(Pieces(s)[k])
  {
    var t := Dotted(s);
    SplitPiecesNoDot(t);
    var ws := Split(t);
    forall k | 0 <= k < |Pieces(s)|
      ensures DigitString(Pieces(s)[k])
    {
      var w := Pieces(s)[k];
      assert w in ws;
      var m :| 0 <= m < |ws| && ws[m] == w;
      assert NoDot(w);
      SplitPieceOfDotted(t, m);
    }
  }

  /** A dot-free piece of dotted text holds only digits. */
  lemma {:induction false} SplitPieceOfDotted(t: string, m: nat)
    requires forall i :: 0 <= i < |t| ==> IsDigit(t[i]) || t[i] == '.'
    requires m < |Split(t)|
    ensures DigitString(Split(t)[m])
    decreases |t|
  {
    var i := FirstDot(t);
    if i < |t| {
      if m == 0 {
        assert Split(t)[0] == t[..i];
      } else {
        var rest := t[i + 1..];
        assert forall j :: 0 <= j < |rest| ==> rest[j] == t[i + 1 + j];
        SplitPieceOfDotted(rest, m - 1);
        assert Split(t)[m] == Split(rest)[m - 1];
      }
    }
  }

  lemma {:induction false} DottedDigits(d: string)
    requires DigitString(d)
    ensures Dotted(d) == d
  {
    if d != [] {
      DottedDigits(d[1..]);
      assert d == [d[0]] + d[1..];
    }
  }

  lemma {:induction false} DottedConcat(a: string, b: string)
    ensures Dotted(a + b) == Dotted(a) + Dotted(b)
  {
    if a == [] {
      assert a + b == b;
    } else {
      assert (a + b)[1..] == a[1..] + b;
      DottedConcat(a[1..], b);
    }
  }

  lemma FirstDotAfter(d: string, rest: string)
    requires NoDot(d)
    ensures FirstDot(d + "." + rest) == |d|
  {
    var s := d + "." + rest;
    assert s[|d|] == '.';
    assert forall j :: 0 <= j < |d| ==> s[j] == d[j];
  }

  lemma DottedStep(d: string, rest: string)
    requires DigitString(d)
    ensures Dotted(d + "." + rest) == d + "." + Dotted(rest)
  {
    DottedDigits(d);
    DottedConcat(d + ".", rest);
    DottedConcat(d, ".");
    assert Dotted(".") == ".";
  }

  lemma SplitStep(d: string, rest: string)
    requires NoDot(d)
    ensures Split(d + "." + rest) == [d] + Split(rest)
  {
    var s := d + "." + rest;
    FirstDotAfter(d, rest);
    assert s[..|d|] == d;
    assert s[|d| + 1..] == rest;
  }

  /** A number followed by a dot is the first piece. */
  lemma PiecesCons(d: string, rest: string)
    requires d != [] && DigitString(d)
    ensures Pieces(d + "." + rest) == [d] + Pieces(rest)
  {
    DottedStep(d, rest);
    assert NoDot(d) by {
      assert forall i :: 0 <= i < |d| ==> IsDigit(d[i]);
    }
    SplitStep(d, Dotted(rest));
    var ws := Split(Dotted(rest));
    assert ([d] + ws)[1..] == ws;
  }

  /** Numbers joined by dots split back into the same numbers. */
  lemma {:induction false} PiecesJoin(xs: seq<string>)
    requires forall k :: 0 <= k < |xs| ==> xs[k] != [] && DigitString(xs[k])
    ensures Pieces(Join(".", xs)) == xs
  {
    if |xs| == 1 {
      var d := xs[0];
      DottedDigits(d);
      assert NoDot(d) by {
        assert forall i :: 0 <= i < |d| ==> IsDigit(d[i]);
      }
      assert FirstDot(d) == |d|;
    } else if |xs| > 1 {
      var d, tail := xs[0], xs[1..];
      assert Join(".", xs) == d + "." + Join(".", tail);
      PiecesCons(d, Join(".", tail));
      PiecesJoin(tail);
      assert xs == [d] + tail;
    }
  }

  // ---------------------------------------------------------------------------
  // int.Parse

  const INT_MAX: int := 0x7FFF_FFFF

  function DigitValue(c: char): nat {
    if IsDigit(c) then (c as int) - ('0' as int) else 0
  }

  /** The value of a run of decimal digits. */
  function Decimal(d: string): nat {
    if d == [] then 0 else 10 * Decimal(d[..|d| - 1]) + DigitValue(d[|d| - 1])
  }

  /** `int.Parse` on a piece: `None` for text that is not a number and for a
      number beyond `int.MaxValue` (the `OverflowException`). */
  function ParseInt(d: string): (r: Option<int>)
    ensures r.Some? <==> d != [] && DigitString(d) && Decimal(d) <= INT_MAX
    ensures r.Some? ==> r.value == Decimal(d)
  {
    if d != [] && DigitString(d) && Decimal(d) <= INT_MAX then Some(Decimal(d)) else None
  }

  /** The decimal digits of `n`, most significant first. */
  function ToDecimal(n: nat): (r: string)
    ensures r != [] && DigitString(r)
  {
    var c := ('0' as int + n % 10) as char;
    if n < 10 then [c] else ToDecimal(n / 10) + [c]
  }

  /** Reading back the digits of a number gives the number. */
  lemma {:induction false} DecimalToDecimal(n: nat)
    ensures Decimal(ToDecimal(n)) == n
  {
    var c := ('0' as int + n % 10) as char;
    assert DigitValue(c) == n % 10;
    if n >= 10 {
      DecimalToDecimal(n / 10);
      var r := ToDecimal(n);
      assert r[..|r| - 1] == ToDecimal(n / 10);
    }
  }

  lemma ParseIntToDecimal(n: nat)
    requires n <= INT_MAX
    ensures ParseInt(ToDecimal(n)) == Some(n)
  {
    DecimalToDecimal(n);
  }

  /** `Array.ConvertAll(pieces, int.Parse)`: one bad piece fails the whole array. */
  function ParseAll(ps: seq<string>): (r: Option<seq<int>>)
    ensures r.Some? <==> forall k :: 0 <= k < |ps| ==> ParseInt(ps[k]).Some?
    ensures r.Some? ==> |r.value| == |ps| && forall k :: 0 <= k < |ps| ==> r.value[k] == ParseInt(ps[k]).value
  {
    if ps == [] then Some([])
    else
      match (ParseInt(ps[0]), ParseAll(ps[1..]))
      case (Some(n), Some(ns)) => Some([n] + ns)
      case (None, _) => None
      case (_, None) =>
        var k :| 0 <= k < |ps[1..]| && ParseInt(ps[1..][k]).None?;
        assert ParseInt(ps[k + 1]).None?;
        None
  }

  // ---------------------------------------------------------------------------
  // The Unity version and the metadata revision

  /** `new Version(split[0], split[1])`: the major and minor number, or `None`
      when a piece does not parse or fewer than two numbers were typed. */
  function ParseUnityVersion(s: string): (r: Option<(int, int)>)
    ensures r.None? <==> ParseAll(Pieces(s)).None? || |Pieces(s)| < 2
    ensures r.Some? ==> r.value == (ParseInt(Pieces(s)[0]).value, ParseInt(Pieces(s)[1]).value)
    ensures r.Some? ==> 0 <= r.value.0 <= INT_MAX && 0 <= r.value.1 <= INT_MAX
  {
    var ps := Pieces(s);
    match ParseAll(ps)
    case None => None
    case Some(ns) =>
      if |ns| < 2 then None
      else
        assert ParseInt(ps[0]).Some? && ParseInt(ps[1]).Some?;
        Some((ns[0], ns[1]))
  }

  /** `System.Version` comparison of two `(major, minor)` versions. */
  predicate AtLeast(v: (int, int), w: (int, int)) {
    v.0 > w.0 || (v.0 == w.0 && v.1 >= w.1)
  }

  const UNITY_2019_1: (int, int) := (2019, 1)
  const UNITY_2018_3: (int, int) := (2018, 3)

  /** The revision of metadata version 24 that a Unity version writes. */
  function RevisionFor(v: (int, int)): (r: int)
    ensures r == 242 <==> AtLeast(v, UNITY_2019_1)
    ensures r == 241 <==> !AtLeast(v, UNITY_2019_1) && AtLeast(v, UNITY_2018_3)
    ensures r == 240 <==> !AtLeast(v, UNITY_2018_3)
  {
    if AtLeast(v, UNITY_2019_1) then 242 else if AtLeast(v, UNITY_2018_3) then 241 else 240
  }

  lemma AtLeastTransitive(u: (int, int), v: (int, int), w: (int, int))
    requires AtLeast(u, v) && AtLeast(v, w)
    ensures AtLeast(u, w)
  {
  }

  /** A later Unity version never gives an earlier revision. */
  lemma RevisionMonotone(v: (int, int), w: (int, int))
    requires AtLeast(w, v)
    ensures RevisionFor(v) <= RevisionFor(w)
  {
    if AtLeast(v, UNITY_2019_1) {
      AtLeastTransitive(w, v, UNITY_2019_1);
    } else if AtLeast(v, UNITY_2018_3) {
      AtLeastTransitive(w, v, UNITY_2018_3);
    }
  }

  /** Each number's decimal digits parse back as that number. */
  lemma ParseAllDigits(ns: seq<nat>)
    requires forall k :: 0 <= k < |ns| ==> ns[k] <= INT_MAX
    ensures var r := ParseAll(Digits(ns));
      r.Some? && |r.value| == |ns| && forall k :: 0 <= k < |ns| ==> r.value[k] == ns[k]
  {
    var xs := Digits(ns);
    forall k | 0 <= k < |xs|
      ensures ParseInt(xs[k]) == Some(ns[k])
    {
      ParseIntToDecimal(ns[k]);
    }
  }

  /** The version is read from the first two parsed pieces. */
  lemma ParseUnityVersionOfPieces(s: string, vs: seq<int>)
    requires ParseAll(Pieces(s)) == Some(vs) && |vs| >= 2
    ensures ParseUnityVersion(s) == Some((vs[0], vs[1]))
  {
  }

  /** Typing the numbers with dots reads back those numbers. */
  lemma ParseUnityVersionJoin(ns: seq<nat>)
    requires |ns| >= 2
    requires forall k :: 0 <= k < |ns| ==> ns[k] <= INT_MAX
    ensures ParseUnityVersion(Join(".", Digits(ns))) == Some((ns[0], ns[1]))
  {
    var xs := Digits(ns);
    var s := Join(".", xs);
    PiecesJoin(xs);
    ParseAllDigits(ns);
    var vs := ParseAll(xs).value;
    ParseUnityVersionOfPieces(s, vs);
  }

  /** Each number written in decimal. */
  function Digits(ns: seq<nat>): (r: seq<string>)
    ensures |r| == |ns|
    ensures forall k :: 0 <= k < |ns| ==> r[k] == ToDecimal(ns[k])
  {
    if ns == [] then [] else [ToDecimal(ns[0])] + Digits(ns[1..])
  }
}
