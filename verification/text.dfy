/** String operations the handlers and pages rely on: decimal rendering of numbers in template
    strings, `String.prototype.trim`, `toLowerCase`, `replace` with a string pattern, and the way
    PostgreSQL reads `$k` placeholders out of a statement. */
module Text {

  import opened Common

  predicate IsDigit(c: char)
  {
    '0' <= c <= '9'
  }

  predicate AllDigits(s: string)
  {
    forall i :: 0 <= i < |s| ==> IsDigit(s[i])
  }

  function DigitChar(d: nat): (c: char)
    requires d < 10
    ensures IsDigit(c)
  {
    (('0' as int) + d) as char
  }

  function DigitValue(c: char): (d: nat)
    requires IsDigit(c)
    ensures d < 10
  {
    c as int - '0' as int
  }

  /** Decimal rendering of a natural number, as `${n}` prints it: digits only, and no leading zero. */
  function NatToString(n: nat): (s: string)
    ensures |s| > 0 && AllDigits(s)
    ensures n > 0 ==> s[0] != '0'
    ensures n < 10 <==> |s| == 1
  {
    if n < 10 then [DigitChar(n)] else NatToString(n / 10) + [DigitChar(n % 10)]
  }

  /** The value of a string of decimal digits (how the database casts a numeric text parameter). */
  function ParseDecimal(s: string): nat
    requires AllDigits(s)
  {
    if |s| == 0 then 0 else ParseDecimal(s[..|s| - 1]) * 10 + DigitValue(s[|s| - 1])
  }

  /** Reading a rendered number back gives the number. */
  lemma {:induction false} ParseNatToString(n: nat)
    ensures ParseDecimal(NatToString(n)) == n
  {
    if n >= 10 {
      var s := NatToString(n);
      assert s[..|s| - 1] == NatToString(n / 10);
      ParseNatToString(n / 10);
    }
  }

  /** Distinct numbers render as distinct strings. */
  lemma NatToStringInjective(m: nat, n: nat)
    requires NatToString(m) == NatToString(n)
    ensures m == n
  {
    ParseNatToString(m);
    ParseNatToString(n);
  }

  // ---------------------------------------------------------------------------------------------
  // String.prototype.trim

  /** The characters ECMAScript's `trim` removes: WhiteSpace (TAB, VT, FF, SP, NBSP, ZWNBSP and the
      Space_Separator category) and LineTerminator (LF, CR, LS, PS). */
  predicate IsJsSpace(c: char)
  {
    || c == '\t' || c == '\n' || c == '\U{B}' || c == '\U{C}' || c == '\r' || c == ' '
    || c == '\U{A0}' || c == '\U{1680}' || ('\U{2000}' <= c <= '\U{200A}')
    || c == '\U{2028}' || c == '\U{2029}' || c == '\U{202F}' || c == '\U{205F}'
    || c == '\U{3000}' || c == '\U{FEFF}'
  }

  predicate AllSpace(s: string)
  {
    forall i :: 0 <= i < |s| ==> IsJsSpace(s[i])
  }

  lemma AllSpaceAppend(a: string, b: string)
    requires AllSpace(a) && AllSpace(b)
    ensures AllSpace(a + b)
  {
  }

  /** Neither end of `s` is a space character. */
  predicate Trimmed(s: string)
  {
    |s| > 0 ==> !IsJsSpace(s[0]) && !IsJsSpace(s[|s| - 1])
  }

  /** The number of space characters `s` starts with. */
  function LeadingSpace(s: string): (k: nat)
    ensures k <= |s|
    ensures AllSpace(s[..k])
    ensures k < |s| ==> !IsJsSpace(s[k])
  {
    if |s| > 0 && IsJsSpace(s[0]) then
      var k' := LeadingSpace(s[1..]);
      assert s[..1 + k'] == [s[0]] + s[1..][..k'];
      1 + k'
    else
      0
  }

  /** The number of space characters `s` ends with. */
  function TrailingSpace(s: string): (k: nat)
    ensures k <= |s|
    ensures AllSpace(s[|s| - k..])
    ensures k < |s| ==> !IsJsSpace(s[|s| - k - 1])
  {
    if |s| > 0 && IsJsSpace(s[|s| - 1]) then
      var k' := TrailingSpace(s[..|s| - 1]);
      TrailingStep(s, k');
      1 + k'
    else
      0
  }

  /** One more space at the end extends a trailing run of spaces. */
  lemma TrailingStep(s: string, k: nat)
    requires |s| > 0 && IsJsSpace(s[|s| - 1])
    requires k <= |s| - 1
    requires AllSpace(s[..|s| - 1][|s| - 1 - k..])
    requires k < |s| - 1 ==> !IsJsSpace(s[..|s| - 1][|s| - 1 - k - 1])
    ensures AllSpace(s[|s| - (1 + k)..])
    ensures 1 + k < |s| ==> !IsJsSpace(s[|s| - (1 + k) - 1])
  {
    var t := s[..|s| - 1];
    assert s[|s| - (1 + k)..] == t[|t| - k..] + [s[|s| - 1]];
    AllSpaceAppend(t[|t| - k..], [s[|s| - 1]]);
    if 1 + k < |s| {
      assert t[|t| - k - 1] == s[|s| - (1 + k) - 1];
    }
  }

  /** `s.trim()`: the middle slice of `s` left after removing the leading and trailing spaces. */
  function Trim(s: string): (r: string)
    ensures Trimmed(r)
    ensures exists i, j :: 0 <= i <= j <= |s| && r == s[i..j] && AllSpace(s[..i]) && AllSpace(s[j..])
  {
    var a := LeadingSpace(s);
    var t := s[a..];
    var b := TrailingSpace(t);
    var r := t[..|t| - b];
    assert r == s[a..|s| - b];
    assert s[|s| - b..] == t[|t| - b..];
    r
  }

  /** A trimmed string is empty exactly when the input was all spaces. */
  lemma TrimEmptyIffAllSpace(s: string)
    ensures Trim(s) == "" <==> AllSpace(s)
  {
    var a := LeadingSpace(s);
    if AllSpace(s) {
      assert a == |s|;
    }
    if a < |s| {
      var t := s[a..];
      assert !IsJsSpace(t[0]);
      assert TrailingSpace(t) < |t|;
      assert Trim(s) != "";
    }
  }

  /** Trimming twice is trimming once. */
  lemma TrimIdempotent(s: string)
    ensures Trim(Trim(s)) == Trim(s)
  {
    var r := Trim(s);
    assert LeadingSpace(r) == 0;
    assert TrailingSpace(r[0..]) == 0;
    assert r[0..][..|r|] == r;
  }

  // ---------------------------------------------------------------------------------------------
  // toLowerCase

  predicate IsUpper(c: char)
  {
    'A' <= c <= 'Z'
  }

  function LowerChar(c: char): (l: char)
    ensures !IsUpper(l)
    ensures !IsUpper(c) ==> l == c
  {
    if IsUpper(c) then (c as int + 32) as char else c
  }

  /** `s.toLowerCase()` on the ASCII letters. */
  function ToLower(s: string): (r: string)
    ensures |r| == |s|
    ensures forall i :: 0 <= i < |s| ==> r[i] == LowerChar(s[i])
  {
    seq(|s|, i requires 0 <= i < |s| => LowerChar(s[i]))
  }

  /** Lowercasing works character by character: it distributes over concatenation. */
  lemma ToLowerAppend(a: string, b: string)
    ensures ToLower(a + b) == ToLower(a) + ToLower(b)
  {
  }

  /** Lowercasing a lowercased string changes nothing. */
  lemma ToLowerIdempotent(s: string)
    ensures ToLower(ToLower(s)) == ToLower(s)
  {
  }

  /** A string is its own lower case exactly when it has no upper-case letter. */
  lemma ToLowerFixedIff(s: string)
    ensures ToLower(s) == s <==> forall i :: 0 <= i < |s| ==> !IsUpper(s[i])
  {
    if ToLower(s) == s {
      forall i | 0 <= i < |s|
        ensures !IsUpper(s[i])
      {
        assert s[i] == LowerChar(s[i]);
      }
    }
  }

  // ---------------------------------------------------------------------------------------------
  // String.prototype.replace with a one-character string pattern

  /** The index of the first occurrence of `c` in `s`, if any. */
  function IndexOf(s: string, c: char): (k: Option<nat>)
    ensures k.None? <==> c !in s
    ensures k.Some? ==> k.value < |s| && s[k.value] == c && c !in s[..k.value]
  {
    if |s| == 0 then None
    else if s[0] == c then Some(0)
    else
      match IndexOf(s[1..], c)
      case None => None
      case Some(k) =>
        assert s[..k + 1] == [s[0]] + s[1..][..k];
        Some(k + 1)
  }

  /** `s.replace(c, "")`: only the first occurrence of `c` is removed. */
  function RemoveFirst(s: string, c: char): (r: string)
    ensures c !in s ==> r == s
    ensures c in s ==> |r| == |s| - 1
    ensures c in s ==> exists k :: 0 <= k < |s| && s == r[..k] + [c] + r[k..] && c !in r[..k]
  {
    match IndexOf(s, c)
    case None => s
    case Some(k) =>
      var r := s[..k] + s[k + 1..];
      assert r[..k] == s[..k] && r[k..] == s[k + 1..];
      assert s == r[..k] + [c] + r[k..];
      r
  }

  /** Removing a leading occurrence gives back the rest. */
  lemma RemoveFirstOfPrefixed(c: char, t: string)
    ensures RemoveFirst([c] + t, c) == t
  {
    assert ([c] + t)[1..] == t;
  }

  // ---------------------------------------------------------------------------------------------
  // $k placeholders

  /** The number of decimal digits `s` starts with. */
  function DigitRun(s: string): (k: nat)
    ensures k <= |s|
    ensures AllDigits(s[..k])
    ensures k < |s| ==> !IsDigit(s[k])
  {
    if |s| > 0 && IsDigit(s[0]) then
      var k' := DigitRun(s[1..]);
      assert s[..1 + k'] == [s[0]] + s[1..][..k'];
      1 + k'
    else
      0
  }

  /** The parameter numbers of a statement's placeholders, in the order they appear: every `$`
      followed by one or more digits. */
  function Placeholders(s: string): seq<nat>
    decreases |s|
  {
    if |s| == 0 then []
    else if s[0] == '$' && DigitRun(s[1..]) > 0 then
      var k := DigitRun(s[1..]);
      assert s[1..1 + k] == s[1..][..k];
      [ParseDecimal(s[1..1 + k])] + Placeholders(s[1 + k..])
    else
      Placeholders(s[1..])
  }

  /** Text without a `$` contributes no placeholder. */
  lemma {:induction false} PlaceholdersSkip(x: string, y: string)
    requires '$' !in x
    ensures Placeholders(x + y) == Placeholders(y)
  {
    if |x| > 0 {
      assert (x + y)[0] == x[0];
      assert (x + y)[1..] == x[1..] + y;
      PlaceholdersSkip(x[1..], y);
    } else {
      assert x + y == y;
    }
  }

  lemma {:induction false} DigitRunOfDigits(d: string, y: string)
    requires AllDigits(d)
    requires y == "" || !IsDigit(y[0])
    ensures DigitRun(d + y) == |d|
  {
    if |d| > 0 {
      assert (d + y)[1..] == d[1..] + y;
      DigitRunOfDigits(d[1..], y);
    } else {
      assert d + y == y;
    }
  }

  /** `$k` followed by a non-digit is read as placeholder `k`. */
  lemma PlaceholdersOfParam(k: nat, y: string)
    requires y == "" || !IsDigit(y[0])
    ensures Placeholders("$" + NatToString(k) + y) == [k] + Placeholders(y)
  {
    var d := NatToString(k);
    var s := "$" + d + y;
    assert s[1..] == d + y;
    DigitRunOfDigits(d, y);
    assert s[1..1 + |d|] == d;
    assert s[1 + |d|..] == y;
    ParseNatToString(k);
  }

}
