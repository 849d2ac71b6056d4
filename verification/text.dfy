/** Character classes and the small .NET string helpers the frame code relies on:
    `String.IsNullOrWhiteSpace`, ASCII `ToUpper`, ordinal `StartsWith`, `int.ToString()` and `int.Parse`. */
module Text {
  import opened Results

  const CR: char := '\r'
  const LF: char := '\n'

  /** The line terminators the frame reader skips over. */
  const LineBreaks: set<char> := {CR, LF}

  /** The characters `Char.IsWhiteSpace` accepts (Unicode categories Zs, Zl, Zp plus the C0/C1 controls
      U+0009..U+000D and U+0085). */
  predicate IsWhiteSpace(c: char) {
    var n := c as int;
    (0x09 <= n <= 0x0D) || n == 0x20 || n == 0x85 || n == 0xA0 || n == 0x1680
    || (0x2000 <= n <= 0x200A) || n == 0x2028 || n == 0x2029 || n == 0x202F || n == 0x205F || n == 0x3000
  }

  /** `String.IsNullOrWhiteSpace`: null, empty, or whitespace only. */
  predicate IsBlank(v: Option<string>) {
    v.None? || forall i | 0 <= i < |v.value| :: IsWhiteSpace(v.value[i])
  }

  /** Whether a string contains a CR or an LF. */
  predicate HasLineBreak(s: string) {
    exists i | 0 <= i < |s| :: s[i] in LineBreaks
  }

  /** Upper-cases the ASCII letters and leaves every other character alone. */
  function UpperChar(c: char): (u: char)
    ensures 'a' <= c <= 'z' ==> u as int == c as int - 32
    ensures !('a' <= c <= 'z') ==> u == c
  {
    if 'a' <= c <= 'z' then (c as int - 32) as char else c
  }

  /** `ToUpper` restricted to ASCII case mapping. */
  function Upper(s: string): (u: string)
    ensures |u| == |s|
    ensures forall i | 0 <= i < |s| :: u[i] == UpperChar(s[i])
  {
    seq(|s|, i requires 0 <= i < |s| => UpperChar(s[i]))
  }

  /** Ordinal `StartsWith`. */
  predicate StartsWith(s: string, prefix: string) {
    |prefix| <= |s| && s[..|prefix|] == prefix
  }

  predicate IsDigit(c: char) {
    '0' <= c <= '9'
  }

  /** Decimal digits of a natural number, most significant first, without leading zeros. */
  function Digits(n: nat): (s: string)
    ensures |s| >= 1
    ensures forall i | 0 <= i < |s| :: IsDigit(s[i])
    ensures n > 0 ==> s[0] != '0'
    decreases n
  {
    if n < 10 then [('0' as int + n) as char] else Digits(n / 10) + [('0' as int + n % 10) as char]
  }

  /** `int.ToString()` in the invariant culture: an optional minus sign followed by the decimal digits. */
  function Decimal(n: int): string {
    if n < 0 then "-" + Digits(-n) else Digits(n)
  }

  /** The value of a non-empty run of decimal digits. */
  function DigitsValue(s: string): (n: nat)
    requires forall i | 0 <= i < |s| :: IsDigit(s[i])
    decreases |s|
  {
    if |s| == 0 then 0
    else
      assert IsDigit(s[|s| - 1]);
      DigitsValue(s[..|s| - 1]) * 10 + (s[|s| - 1] as int - '0' as int)
  }

  /** The white space `int.Parse` tolerates around a number (U+0009..U+000D and U+0020). */
  predicate IsNumberSpace(c: char) {
    (0x09 <= c as int <= 0x0D) || c == ' '
  }

  /** Drops leading number white space. */
  function TrimStart(s: string): (t: string)
    ensures |t| <= |s| && t == s[|s| - |t|..]
    ensures |t| > 0 ==> !IsNumberSpace(t[0])
    decreases |s|
  {
    if |s| > 0 && IsNumberSpace(s[0]) then TrimStart(s[1..]) else s
  }

  /** Drops trailing number white space. */
  function TrimEnd(s: string): (t: string)
    ensures |t| <= |s| && t == s[..|t|]
    ensures |t| > 0 ==> !IsNumberSpace(t[|t| - 1])
    decreases |s|
  {
    if |s| > 0 && IsNumberSpace(s[|s| - 1]) then TrimEnd(s[..|s| - 1]) else s
  }

  /** `int.Parse` with the default integer number style: optional surrounding white space, an optional
      leading `+` or `-`, then at least one decimal digit. A malformed string is a failure. */
  function ParseInt(s: string): Result<int, string> {
    var t := TrimEnd(TrimStart(s));
    var negative := |t| > 0 && t[0] == '-';
    var digits := if |t| > 0 && (t[0] == '-' || t[0] == '+') then t[1..] else t;
    if |digits| == 0 || !(forall i | 0 <= i < |digits| :: IsDigit(digits[i])) then
      Failure("input string was not in a correct format")
    else
      var magnitude: int := DigitsValue(digits);
      Success(if negative then -magnitude else magnitude)
  }

  lemma {:induction false} DigitsValueOfDigits(n: nat)
    ensures DigitsValue(Digits(n)) == n
    decreases n
  {
    if n >= 10 {
      var s := Digits(n);
      assert s[..|s| - 1] == Digits(n / 10);
      DigitsValueOfDigits(n / 10);
    }
  }

  /** `int.Parse` reads back what `int.ToString()` wrote. */
  lemma ParseDecimal(n: int)
    ensures ParseInt(Decimal(n)) == Success(n)
  {
    var s := Decimal(n);
    var d := Digits(if n < 0 then -n else n);
    assert d[0] != '-' && d[0] != '+' && !IsNumberSpace(d[0]);
    assert !IsNumberSpace(d[|d| - 1]);
    assert TrimStart(s) == s;
    assert TrimEnd(s) == s;
    if n < 0 {
      assert s[1..] == d;
    }
    DigitsValueOfDigits(if n < 0 then -n else n);
  }

  /** A decimal rendering is never blank, so a slot holding one is always emitted. */
  lemma DecimalNotBlank(n: int)
    ensures !IsBlank(Some(Decimal(n)))
    ensures !HasLineBreak(Decimal(n))
  {
    var s := Decimal(n);
    var d := Digits(if n < 0 then -n else n);
    assert !IsWhiteSpace(s[0]);
    if n < 0 {
      assert forall i | 1 <= i < |s| :: s[i] == d[i - 1];
    }
  }
}
