/** Python string operations the code generator relies on: `str.startswith`,
    `str.join`, `str.strip`, the `str()` rendering of `bool`, `int` and `None`
    inside f-strings, and the `<` order that `sorted` uses on `str`. */
module Text {
  import opened Wrappers

  predicate StartsWith(s: string, prefix: string) {
    |prefix| <= |s| && s[..|prefix|] == prefix
  }

  /** `sep.join(parts)` */
  function Join(sep: string, parts: seq<string>): (r: string)
    ensures |parts| == 1 ==> r == parts[0]
    ensures |parts| > 1 ==> StartsWith(r, parts[0] + sep)
  {
    if |parts| == 0 then ""
    else if |parts| == 1 then parts[0]
    else parts[0] + sep + Join(sep, parts[1..])
  }

  // ----- str() of booleans, integers and None -----

  /** `str(b)` for a Python bool. */
  function PyBool(b: bool): string {
    if b then "True" else "False"
  }

  function Digit(d: nat): (c: char)
    requires d < 10
    ensures '0' <= c <= '9'
  {
    "0123456789"[d]
  }

  /** Decimal digits of a natural number, most significant first. */
  function NatDigits(n: nat): (r: string)
    ensures |r| > 0
    ensures forall i :: 0 <= i < |r| ==> '0' <= r[i] <= '9'
    ensures n < 10 <==> |r| == 1
  {
    if n < 10 then [Digit(n)] else NatDigits(n / 10) + [Digit(n % 10)]
  }

  /** `str(i)` for a Python int. */
  function PyInt(i: int): string {
    if i < 0 then "-" + NatDigits(-i) else NatDigits(i)
  }

  /** `str(x)` for a Python `Optional[int]`. */
  function PyOptInt(x: Option<int>): string {
    match x
    case None => "None"
    case Some(i) => PyInt(i)
  }

  lemma DigitInjective(a: nat, b: nat)
    requires a < 10 && b < 10 && Digit(a) == Digit(b)
    ensures a == b
  {
  }

  /** Different naturals render differently. */
  lemma {:induction false} NatDigitsInjective(a: nat, b: nat)
    requires NatDigits(a) == NatDigits(b)
    ensures a == b
  {
    var ra, rb := NatDigits(a), NatDigits(b);
    if a < 10 && b < 10 {
      DigitInjective(a, b);
    } else if a >= 10 && b >= 10 {
      assert ra[..|ra| - 1] == NatDigits(a / 10);
      assert rb[..|rb| - 1] == NatDigits(b / 10);
      NatDigitsInjective(a / 10, b / 10);
      assert ra[|ra| - 1] == Digit(a % 10);
      assert rb[|rb| - 1] == Digit(b % 10);
      DigitInjective(a % 10, b % 10);
    }
  }

  /** A rendered integer starts with '-' exactly when it is negative. */
  lemma PyIntSign(i: int)
    ensures |PyInt(i)| > 0
    ensures PyInt(i)[0] == '-' <==> i < 0
    ensures PyInt(i)[0] != 'N'
  {
    if i < 0 {
      assert PyInt(i)[0] == '-';
    } else {
      assert '0' <= PyInt(i)[0] <= '9';
    }
  }

  /** Different integers render differently. */
  lemma PyIntInjective(a: int, b: int)
    requires PyInt(a) == PyInt(b)
    ensures a == b
  {
    PyIntSign(a);
    PyIntSign(b);
    if a < 0 {
      assert PyInt(a)[1..] == NatDigits(-a);
      assert PyInt(b)[1..] == NatDigits(-b);
      NatDigitsInjective(-a, -b);
    } else {
      NatDigitsInjective(a, b);
    }
  }

  /** Different optional integers render differently: "None" is never the
      rendering of an integer. */
  lemma PyOptIntInjective(a: Option<int>, b: Option<int>)
    requires PyOptInt(a) == PyOptInt(b)
    ensures a == b
  {
    if a.Some? {
      PyIntSign(a.value);
    }
    if b.Some? {
      PyIntSign(b.value);
    }
    if a.Some? && b.Some? {
      PyIntInjective(a.value, b.value);
    }
  }

  /** No rendered bool, int or None contains an underscore, so an
      underscore-separated name built from them can be split again. */
  lemma NoUnderscore(x: Option<int>)
    ensures '_' !in PyOptInt(x)
  {
    match x
    case None =>
    case Some(i) =>
      if i < 0 {
        assert PyInt(i) == "-" + NatDigits(-i);
      }
  }

  // ----- str.strip() -----

  /** The ASCII characters `str.isspace` accepts. */
  predicate IsSpace(c: char) {
    c == ' ' || c == '\t' || c == '\n' || c == '\r' || c == '\U{B}' || c == '\U{C}'
    || c == '\U{1C}' || c == '\U{1D}' || c == '\U{1E}' || c == '\U{1F}'
  }

  function StripLeft(s: string): (r: string)
    ensures |r| <= |s| && r == s[|s| - |r|..]
    ensures |r| > 0 ==> !IsSpace(r[0])
    ensures forall i :: 0 <= i < |s| - |r| ==> IsSpace(s[i])
  {
    if |s| > 0 && IsSpace(s[0]) then StripLeft(s[1..]) else s
  }

  function StripRight(s: string): (r: string)
    ensures |r| <= |s| && r == s[..|r|]
    ensures |r| > 0 ==> !IsSpace(r[|r| - 1])
    ensures forall i :: |r| <= i < |s| ==> IsSpace(s[i])
  {
    if |s| > 0 && IsSpace(s[|s| - 1]) then StripRight(s[..|s| - 1]) else s
  }

  /** `s.strip()`: white space removed from both ends, nothing from the
      middle. */
  function Strip(s: string): (r: string)
    ensures |r| <= |s|
    ensures |r| > 0 ==> !IsSpace(r[0]) && !IsSpace(r[|r| - 1])
    ensures |s| > 0 && !IsSpace(s[0]) && !IsSpace(s[|s| - 1]) ==> r == s
  {
    StripRight(StripLeft(s))
  }

  // ----- the order `sorted` uses on str -----

  /** Python's `a < b` on str: code-point lexicographic, a proper prefix
      comes first. */
  predicate LexLess(a: string, b: string) {
    |b| > 0 && (|a| == 0 || a[0] < b[0] || (a[0] == b[0] && LexLess(a[1..], b[1..])))
  }

  lemma {:induction false} LexLessIrreflexive(a: string)
    ensures !LexLess(a, a)
  {
    if |a| > 0 {
      LexLessIrreflexive(a[1..]);
    }
  }

  lemma {:induction false} LexLessTransitive(a: string, b: string, c: string)
    requires LexLess(a, b) && LexLess(b, c)
    ensures LexLess(a, c)
  {
    if |a| > 0 && a[0] == b[0] && b[0] == c[0] {
      LexLessTransitive(a[1..], b[1..], c[1..]);
    }
  }

  lemma {:induction false} LexLessTotal(a: string, b: string)
    requires a != b
    ensures LexLess(a, b) || LexLess(b, a)
  {
    if |a| > 0 && |b| > 0 && a[0] == b[0] {
      assert a == [a[0]] + a[1..] && b == [b[0]] + b[1..];
      LexLessTotal(a[1..], b[1..]);
    }
  }
}
