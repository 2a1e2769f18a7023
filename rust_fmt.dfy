/**
 * The bits of Rust's integer arithmetic and text formatting that the task
 * tracker relies on: signed division and remainder, which truncate toward
 * zero; `Display` of an integer (`format!("{}", n)`); and `Debug` of a string
 * (`format!("{:?}", s)`), which quotes and escapes it.
 */
module RustFmt {
  import opened Results

  /** Rust's `a / b` on signed integers for a positive divisor: rounds toward zero. */
  function Div(a: int, b: int): (q: int)
    requires b > 0
    ensures a >= 0 ==> 0 <= q * b <= a < q * b + b
    ensures a < 0 ==> q * b - b < a <= q * b <= 0
  {
    if a >= 0 then DivBounds(a, b); a / b else DivBounds(-a, b); -((-a) / b)
  }

  lemma DivBounds(a: nat, b: int)
    requires b > 0
    ensures 0 <= (a / b) * b <= a < (a / b) * b + b
  {
    var q, r := a / b, a % b;
    assert a == q * b + r && 0 <= r < b;
    assert q >= 0;
    assert q * b >= 0 by { MulNonNeg(q, b); }
  }

  lemma MulNonNeg(x: int, y: int)
    requires x >= 0 && y >= 0
    ensures x * y >= 0
  {
  }

  /** Rust's `a % b` on signed integers for a positive divisor: takes the sign of `a`. */
  function Rem(a: int, b: int): (r: int)
    requires b > 0
    ensures a == Div(a, b) * b + r
    ensures -b < r < b
    ensures a >= 0 ==> r >= 0
    ensures a <= 0 ==> r <= 0
  {
    a - Div(a, b) * b
  }

  predicate IsDigit(c: char) { '0' <= c <= '9' }

  function DigitChar(d: int): (c: char)
    requires 0 <= d < 10
    ensures IsDigit(c)
  {
    ('0' as int + d) as char
  }

  function DigitValue(c: char): int
    requires IsDigit(c)
  {
    c as int - '0' as int
  }

  /** The decimal digits of `n`, most significant first, without leading zeros. */
  function NatDigits(n: nat): (s: string)
    ensures |s| >= 1
    ensures forall i :: 0 <= i < |s| ==> IsDigit(s[i])
    ensures s[0] == '0' ==> n == 0
    decreases n
  {
    if n < 10 then [DigitChar(n)] else NatDigits(n / 10) + [DigitChar(n % 10)]
  }

  /** `format!("{}", n)` for a signed integer. */
  function Dec(n: int): (s: string)
    ensures |s| >= 1
    ensures forall i :: 0 <= i < |s| ==> IsDigit(s[i]) || (i == 0 && s[i] == '-')
    ensures s[0] == '-' <==> n < 0
  {
    if n < 0 then "-" + NatDigits(-n) else NatDigits(n)
  }

  predicate AllDigits(s: string) {
    forall i :: 0 <= i < |s| ==> IsDigit(s[i])
  }

  /** The number a string of decimal digits denotes. */
  function DigitsValue(s: string): (v: nat)
    requires AllDigits(s)
  {
    if s == [] then 0 else DigitsValue(s[..|s| - 1]) * 10 + DigitValue(s[|s| - 1])
  }

  /** Reads a decimal integer: an optional minus sign followed by at least one digit. */
  function ParseDec(s: string): (r: Option<int>)
    ensures r.Some? ==> |s| >= 1
  {
    if |s| >= 2 && s[0] == '-' && AllDigits(s[1..]) then var v: int := DigitsValue(s[1..]); Some(-v)
    else if |s| >= 1 && AllDigits(s) then Some(DigitsValue(s))
    else None
  }

  lemma {:induction false} DigitsValueOfNatDigits(n: nat)
    ensures AllDigits(NatDigits(n)) && DigitsValue(NatDigits(n)) == n
    decreases n
  {
    if n >= 10 {
      DigitsValueOfNatDigits(n / 10);
      var s := NatDigits(n);
      assert s[..|s| - 1] == NatDigits(n / 10);
    }
  }

  /** Reading back what `Dec` writes gives the same integer. */
  lemma DecRoundTrip(n: int)
    ensures ParseDec(Dec(n)) == Some(n)
  {
    if n < 0 {
      DigitsValueOfNatDigits(-n);
      assert Dec(n)[1..] == NatDigits(-n);
    } else {
      DigitsValueOfNatDigits(n);
    }
  }

  /** `Dec` is one-to-one: different integers print differently. */
  lemma DecInjective(m: int, n: int)
    ensures Dec(m) == Dec(n) ==> m == n
  {
    DecRoundTrip(m);
    DecRoundTrip(n);
  }

  /** The letter that follows a backslash when `Debug` escapes `c`, if it does. */
  function EscapeCode(c: char): (k: Option<char>)
    ensures k.None? ==> c != '"' && c != '\\'
  {
    match c
    case '"' => Some('"')
    case '\\' => Some('\\')
    case '\n' => Some('n')
    case '\r' => Some('r')
    case '\t' => Some('t')
    case '\0' => Some('0')
    case _ => None
  }

  /** The character an escape letter stands for: the inverse of `EscapeCode`. */
  function EscapedChar(k: char): (c: Option<char>)
    ensures c.Some? ==> EscapeCode(c.value) == Some(k)
  {
    match k
    case '"' => Some('"')
    case '\\' => Some('\\')
    case 'n' => Some('\n')
    case 'r' => Some('\r')
    case 't' => Some('\t')
    case '0' => Some('\0')
    case _ => None
  }

  /** How `Debug` writes one character of a string. */
  function EscapeChar(c: char): (s: string)
    ensures 1 <= |s| <= 2
  {
    match EscapeCode(c)
    case Some(k) => ['\\', k]
    case None => [c]
  }

  function Escape(s: string): string {
    if s == [] then [] else EscapeChar(s[0]) + Escape(s[1..])
  }

  /** `format!("{:?}", s)` for a string: the escaped text between double quotes. */
  function Debug(s: string): (d: string)
    ensures |d| >= 2 && d[0] == '"' && d[|d| - 1] == '"'
  {
    "\"" + Escape(s) + "\""
  }

  /** Undoes `Escape`; `None` when a backslash starts no known escape or a quote is bare. */
  function Unescape(s: string): Option<string>
  {
    if s == [] then Some([])
    else if s[0] == '"' then None
    else if s[0] != '\\' then
      match Unescape(s[1..])
      case Some(t) => Some([s[0]] + t)
      case None => None
    else if |s| < 2 then None
    else
      match (EscapedChar(s[1]), Unescape(s[2..]))
      case (Some(c), Some(t)) => Some([c] + t)
      case _ => None
  }

  lemma {:induction false} UnescapeEscape(s: string)
    ensures Unescape(Escape(s)) == Some(s)
  {
    if s != [] {
      UnescapeEscape(s[1..]);
      var c, rest := s[0], Escape(s[1..]);
      var t := EscapeChar(c) + rest;
      assert Escape(s) == t && s == [c] + s[1..];
      match EscapeCode(c)
      case Some(k) =>
        assert EscapedChar(k) == Some(c) by {
          assert c == '"' || c == '\\' || c == '\n' || c == '\r' || c == '\t' || c == '\0';
        }
        assert t[0] == '\\' && t[1] == k && t[2..] == rest;
      case None =>
        assert t[0] == c && t[1..] == rest;
    }
  }

  /** The text inside the quotes of a `Debug` rendering, unescaped. */
  function Undebug(d: string): Option<string> {
    if |d| >= 2 && d[0] == '"' && d[|d| - 1] == '"' then Unescape(d[1..|d| - 1]) else None
  }

  /** The `Debug` rendering of a string gives the string back: no two strings share one. */
  lemma DebugRoundTrip(s: string)
    ensures Undebug(Debug(s)) == Some(s)
  {
    assert Debug(s)[1..|Debug(s)| - 1] == Escape(s);
    UnescapeEscape(s);
  }
}
