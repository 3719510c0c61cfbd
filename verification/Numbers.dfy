/** Numbers as text: CString::ntoa and _strtoul. */
module Numbers {

  /** unsigned long is below `limit`: 2^32 or 2^64. */
  const LIMIT_32: nat := 0x1_0000_0000
  const LIMIT_64: nat := 0x1_0000_0000_0000_0000

  predicate IsLimit(limit: nat) {
    limit == LIMIT_32 || limit == LIMIT_64
  }

  predicate IsBase(base: nat) {
    base == 8 || base == 10 || base == 16
  }

  /** MAX_NUMBER_LEN */
  function MaxNumberLen(limit: nat): nat {
    if limit == LIMIT_32 then 11 else 22
  }

  // ---------- text of a number ----------

  function DigitChar(d: nat, upcase: bool): char
    requires d < 16
  {
    if d < 10 then '0' + d as char else '0' + d as char + 7 as char + (if upcase then 0 as char else 0x20 as char)
  }

  /** The digits of a number, the most significant one first. */
  function Text(n: nat, base: nat, upcase: bool): (s: string)
    requires IsBase(base)
    ensures s != ""
  {
    if n < base then [DigitChar(n, upcase)] else Text(n / base, base, upcase) + [DigitChar(n % base, upcase)]
  }

  // ---------- number in a text ----------

  /** The character at a position of a C string, which ends with a NUL. */
  function CharAt(s: string, i: nat): char {
    if i < |s| then s[i] else '\0'
  }

  /** The value of a digit as _strtoul computes it; None when the digits end. */
  function DigitValue(c: char, base: nat): (d: int)
    ensures -1 <= d < base
  {
    var u := if 'a' <= c <= 'z' then c as int - 32 else c as int;
    var v := if u >= 'A' as int then u - 7 else u;
    if c < '0' || v - 48 >= base then -1 else v - 48
  }

  datatype Parsed = Parsed(value: nat, end: nat, overflow: bool)

  /** One digit more, in an unsigned long. */
  function Shift(acc: nat, base: nat, d: nat, limit: nat): nat
    requires limit > 0
  {
    (acc * base % limit + d) % limit
  }

  lemma ShiftInRange(acc: nat, base: nat, d: nat, limit: nat)
    requires base >= 1 && acc * base + d < limit
    ensures Shift(acc, base, d, limit) == acc * base + d && acc <= acc * base + d
  {
    Product(1, base, acc, acc);
    Small(acc * base, limit);
    Small(acc * base + d, limit);
  }

  lemma Small(x: nat, limit: nat)
    requires x < limit
    ensures x % limit == x
  {
  }

  lemma Divided(n: nat, base: nat)
    requires base > 0
    ensures n / base * base + n % base == n
  {
  }

  /** The loop over the digits: unsigned long wraps, and a product that is smaller than before is taken for
      an overflow. */
  function ParseDigits(s: string, i: nat, base: nat, limit: nat, acc: nat): Parsed
    requires i <= |s| && limit > 0
    decreases |s| - i
  {
    var d := DigitValue(CharAt(s, i), base);
    if d < 0 || i == |s| then Parsed(acc, i, false) else
      var next := Shift(acc, base, d, limit);
      if next < acc then Parsed(limit - 1, i, true) else ParseDigits(s, i + 1, base, limit, next)
  }

  predicate IsSpace(c: char) {
    c == ' ' || c == 0x0C as char || c == '\n' || c == '\r' || c == '\t' || c == 0x0B as char
  }

  function SkipSpace(s: string, i: nat): (j: nat)
    requires i <= |s|
    ensures i <= j <= |s|
    decreases |s| - i
  {
    if i < |s| && IsSpace(s[i]) then SkipSpace(s, i + 1) else i
  }

  /** What stands in front of the digits: where they start, their base, and the sign. */
  datatype Prefix = Refused | Accepted(start: nat, base: nat, minus: bool)

  function ReadPrefix(s: string, base: nat): (p: Prefix)
    ensures p.Accepted? ==> p.start <= |s|
  {
    if base != 0 && (base < 2 || base > 36) then Refused else
      var i := SkipSpace(s, 0);
      var minus := CharAt(s, i) == '-';
      var j := if CharAt(s, i) == '+' || CharAt(s, i) == '-' then i + 1 else i;
      if CharAt(s, j) != '0' then Accepted(j, if base == 0 then 10 else base, minus)
      else if CharAt(s, j + 1) != 'x' && CharAt(s, j + 1) != 'X' then
        Accepted(j + 1, if base == 0 then 8 else base, minus)
      else if base != 0 && base != 16 then Refused
      else Accepted(j + 2, 16, minus)
  }

  /** _strtoul: space, sign, prefix, digits. */
  function StrToUl(s: string, base: nat, limit: nat): Parsed
    requires limit > 0
  {
    match ReadPrefix(s, base)
    case Refused => Parsed(0, 0, false)
    case Accepted(start, b, minus) => Finish(ParseDigits(s, start, b, limit, 0), start, minus, limit)
  }

  /** A sign counts only if there were digits behind it and a leading zero. */
  function Finish(p: Parsed, start: nat, minus: bool, limit: nat): Parsed
    requires limit > 0
  {
    if p.end > start && minus && !p.overflow then p.(value := (limit - p.value % limit) % limit) else p
  }

  // ---------- round trip ----------

  lemma DigitsRoundTrip(d: nat, base: nat, upcase: bool)
    requires IsBase(base) && d < base
    ensures DigitValue(DigitChar(d, upcase), base) == d
  {
  }

  lemma {:induction false} ParseGrows(a: string, c: char, i: nat, base: nat, limit: nat, acc: nat, v: nat)
    requires i <= |a| && IsBase(base) && limit > 0
    requires ParseDigits(a, i, base, limit, acc) == Parsed(v, |a|, false)
    requires DigitValue(c, base) >= 0 && v * base + DigitValue(c, base) < limit
    ensures ParseDigits(a + [c], i, base, limit, acc) == Parsed(v * base + DigitValue(c, base), |a| + 1, false)
    decreases |a| - i
  {
    var d := DigitValue(c, base);
    if i == |a| {
      ShiftInRange(v, base, d, limit);
      assert CharAt(a + [c], i) == c;
    } else {
      assert CharAt(a + [c], i) == a[i];
      ParseGrows(a, c, i + 1, base, limit, Shift(acc, base, DigitValue(a[i], base), limit), v);
    }
  }

  lemma ParseOneDigit(n: nat, base: nat, upcase: bool, limit: nat)
    requires IsBase(base) && n < base && n < limit
    ensures ParseDigits([DigitChar(n, upcase)], 0, base, limit, 0) == Parsed(n, 1, false)
  {
    ShiftInRange(0, base, n, limit);
    DigitsRoundTrip(n, base, upcase);
  }

  lemma {:induction false} ParseText(n: nat, base: nat, upcase: bool, limit: nat)
    requires IsBase(base) && n < limit
    ensures ParseDigits(Text(n, base, upcase), 0, base, limit, 0) == Parsed(n, |Text(n, base, upcase)|, false)
    decreases n
  {
    if n < base {
      ParseOneDigit(n, base, upcase, limit);
    } else {
      var q, d := n / base, n % base;
      Divided(n, base);
      DigitsRoundTrip(d, base, upcase);
      ParseText(q, base, upcase, limit);
      ParseGrows(Text(q, base, upcase), DigitChar(d, upcase), 0, base, limit, 0, q);
    }
  }

  predicate Alphanumeric(c: char) {
    '0' <= c <= '9' || 'A' <= c <= 'F' || 'a' <= c <= 'f'
  }

  lemma {:induction false} FirstDigit(n: nat, base: nat, upcase: bool)
    requires IsBase(base)
    ensures Alphanumeric(Text(n, base, upcase)[0])
    ensures Text(n, base, upcase)[0] == '0' <==> n == 0
    decreases n
  {
    if n >= base {
      FirstDigit(n / base, base, upcase);
    }
  }

  /** For every machine word, in every base that is printed and in either case: the number that _strtoul finds
      in the text of a number is the number, and it reads all of the text. */
  lemma NumberRoundTrip(n: nat, base: nat, upcase: bool, limit: nat)
    requires IsBase(base) && IsLimit(limit) && n < limit
    ensures StrToUl(Text(n, base, upcase), base, limit) == Parsed(n, |Text(n, base, upcase)|, false)
  {
    var s := Text(n, base, upcase);
    FirstDigit(n, base, upcase);
    assert SkipSpace(s, 0) == 0;
    if n == 0 {
      assert s == "0";
    } else {
      ParseText(n, base, upcase, limit);
    }
  }

  // ---------- what is written and read ----------

  /** The value of a digit or letter; -1 for other characters. */
  function DigitOf(c: char): int {
    if '0' <= c <= '9' then c as int - '0' as int
    else if 'A' <= c <= 'Z' then c as int - 'A' as int + 10
    else if 'a' <= c <= 'z' then c as int - 'a' as int + 10
    else -1
  }

  predicate DigitsOf(s: string, base: nat) {
    s != "" && forall i | 0 <= i < |s| :: 0 <= DigitOf(s[i]) < base
  }

  /** The number that digits stand for. */
  function ValueOf(s: string, base: nat): (v: nat)
    requires s == "" || DigitsOf(s, base)
  {
    if s == "" then 0 else ValueOf(s[..|s| - 1], base) * base + DigitOf(s[|s| - 1])
  }

  predicate InCase(c: char, upcase: bool) {
    '0' <= c <= '9' || if upcase then 'A' <= c <= 'F' else 'a' <= c <= 'f'
  }

  lemma DigitOfChar(d: nat, base: nat, upcase: bool)
    requires IsBase(base) && d < base
    ensures DigitOf(DigitChar(d, upcase)) == d && InCase(DigitChar(d, upcase), upcase)
    ensures DigitChar(d, upcase) == '0' <==> d == 0
  {
  }

  lemma OneDigitBehind(a: string, c: char, base: nat)
    requires a == "" || DigitsOf(a, base)
    requires 0 <= DigitOf(c) < base
    ensures DigitsOf(a + [c], base) && ValueOf(a + [c], base) == ValueOf(a, base) * base + DigitOf(c)
  {
    assert (a + [c])[..|a|] == a;
  }

  /** The digits of a number, in capital or small letters, without a zero in front. */
  ghost predicate IsText(s: string, n: nat, base: nat, upcase: bool) {
    && DigitsOf(s, base) && ValueOf(s, base) == n && (s[0] == '0' ==> s == "0")
    && forall i | 0 <= i < |s| :: InCase(s[i], upcase)
  }

  lemma OneDigitText(d: nat, base: nat, upcase: bool)
    requires IsBase(base) && d < base
    ensures IsText([DigitChar(d, upcase)], d, base, upcase)
  {
    DigitOfChar(d, base, upcase);
    OneDigitBehind("", DigitChar(d, upcase), base);
    assert "" + [DigitChar(d, upcase)] == [DigitChar(d, upcase)];
  }

  lemma LongerText(a: string, q: nat, d: nat, base: nat, upcase: bool, n: nat)
    requires IsBase(base) && d < base && IsText(a, q, base, upcase) && a != "0" && n == q * base + d
    ensures IsText(a + [DigitChar(d, upcase)], n, base, upcase)
  {
    DigitOfChar(d, base, upcase);
    OneDigitBehind(a, DigitChar(d, upcase), base);
  }

  /** ntoa writes just these. */
  lemma {:induction false} TextIsNumber(n: nat, base: nat, upcase: bool)
    requires IsBase(base)
    ensures IsText(Text(n, base, upcase), n, base, upcase)
    decreases n
  {
    if n < base {
      OneDigitText(n, base, upcase);
    } else {
      TextIsNumber(n / base, base, upcase);
      FirstDigit(n / base, base, upcase);
      Divided(n, base);
      LongerText(Text(n / base, base, upcase), n / base, n % base, base, upcase, n);
    }
  }

  lemma DigitIsRead(c: char, base: nat)
    requires base <= 36 && 0 <= DigitOf(c) < base
    ensures DigitValue(c, base) == DigitOf(c)
  {
  }

  lemma OneDigitFits(s: string, i: nat, base: nat, limit: nat, v: nat, d: nat)
    requires i < |s| && base >= 1 && DigitValue(s[i], base) == d && v * base + d < limit
    ensures ParseDigits(s, i, base, limit, v) == ParseDigits(s, i + 1, base, limit, v * base + d)
  {
    ShiftInRange(v, base, d, limit);
  }

  /** As long as the number fits, the loop adds one digit after the other. */
  lemma {:induction false} ReadsDigits(s: string, start: nat, digits: string, base: nat, limit: nat)
    requires 2 <= base <= 36 && limit > 0 && start + |digits| <= |s| && s[start..start + |digits|] == digits
    requires digits != "" ==> DigitsOf(digits, base) && ValueOf(digits, base) < limit
    ensures ParseDigits(s, start, base, limit, 0)
            == ParseDigits(s, start + |digits|, base, limit, ValueOf(digits, base))
    decreases |digits|
  {
    if digits != "" {
      var n := |digits| - 1;
      var v, c := ValueOf(digits[..n], base), digits[n];
      assert s[start + n] == s[start..start + |digits|][n] == c;
      assert s[start..start + n] == digits[..n];
      Fewer(v, base, DigitOf(c));
      ReadsDigits(s, start, digits[..n], base, limit);
      DigitIsRead(c, base);
      OneDigitFits(s, start + n, base, limit, v, DigitOf(c));
    }
  }

  lemma Fewer(v: nat, base: nat, d: nat)
    requires base >= 1
    ensures v <= v * base + d
  {
    Product(1, base, v, v);
  }

  predicate IsBlank(c: char) {
    c == ' ' || '\t' <= c <= '\r'
  }

  lemma BlankIsSpace(c: char)
    ensures IsBlank(c) <==> IsSpace(c)
  {
    if IsBlank(c) {
      assert c == (c as int) as char;
      assert c as int == 32 || c as int == 9 || c as int == 10 || c as int == 11 || c as int == 12 || c as int == 13;
    }
  }

  predicate AllBlank(s: string) {
    forall c | c in s :: IsBlank(c)
  }

  lemma {:induction false} SkipsBlanks(blanks: string, s: string, i: nat)
    requires AllBlank(blanks) && i <= |blanks| && (s != "" ==> !IsBlank(s[0]))
    ensures SkipSpace(blanks + s, i) == |blanks|
    decreases |blanks| - i
  {
    if i < |blanks| {
      assert (blanks + s)[i] == blanks[i] && blanks[i] in blanks;
      BlankIsSpace(blanks[i]);
      SkipsBlanks(blanks, s, i + 1);
    } else if s != "" {
      assert (blanks + s)[i] == s[0];
      BlankIsSpace(s[0]);
    }
  }

  predicate HexPrefix(s: string) {
    |s| >= 2 && s[0] == '0' && (s[1] == 'x' || s[1] == 'X')
  }

  /** The base that the prefix gives, in a call with base `base`. */
  ghost predicate BaseFor(base: nat, prefix: string, number: string, b: nat) {
    if prefix == "" then
      && number != "" && !HexPrefix(number)
      && (if base == 0 then b == if number[0] == '0' then 8 else 10 else 2 <= base <= 36 && b == base)
    else
      HexPrefix(prefix) && |prefix| == 2 && (base == 0 || base == 16) && b == 16
  }

  predicate IsSign(sign: string) {
    sign == "" || sign == "+" || sign == "-"
  }

  /** A character that is no digit, and none of those between '9' and 'A', which are taken for digits. */
  predicate Ends(rest: string, base: nat) {
    rest == "" || (!(0 <= DigitOf(rest[0]) < base) && !(':' <= rest[0] <= '@'))
  }

  lemma SkipsToSign(blanks: string, sign: string, t: string)
    requires AllBlank(blanks) && IsSign(sign) && (t != "" ==> !IsBlank(t[0]) && t[0] != '+' && t[0] != '-')
    ensures var s := blanks + sign + t;
      && SkipSpace(s, 0) == |blanks|
      && (CharAt(s, |blanks|) == '-' <==> sign == "-") && (CharAt(s, |blanks|) == '+' <==> sign == "+")
      && forall k: nat | k < |t| :: CharAt(s, |blanks| + |sign| + k) == t[k]
  {
    assert blanks + sign + t == blanks + (sign + t);
    SkipsBlanks(blanks, sign + t, 0);
  }

  /** Where the digits start, and in which base; a zero in front belongs to the prefix. */
  lemma PrefixIsRead(blanks: string, sign: string, prefix: string, number: string, base: nat, b: nat)
    requires AllBlank(blanks) && IsSign(sign) && BaseFor(base, prefix, number, b)
    requires prefix == "" ==> 0 <= DigitOf(number[0]) < 36
    ensures var at := |blanks| + |sign| + |prefix|;
      ReadPrefix(blanks + sign + (prefix + number), base)
      == Accepted(if prefix == "" && number[0] == '0' then at + 1 else at, b, sign == "-")
  {
    var t := prefix + number;
    assert t != "" && t[0] == if prefix == "" then number[0] else '0';
    SkipsToSign(blanks, sign, t);
    assert |t| > 1 ==> t[1] == if prefix == "" then number[1] else prefix[1];
  }

  /** Blanks, a sign, a prefix and digits, up to the first other character: the number that they stand for, with
      a minus sign as its negative in an unsigned long. */
  lemma ReadsNumber(blanks: string, sign: string, prefix: string, digits: string, rest: string, base: nat, b: nat,
                    limit: nat)
    requires AllBlank(blanks) && IsSign(sign) && BaseFor(base, prefix, digits + rest, b)
    requires DigitsOf(digits, b) && Ends(rest, b) && limit > 0 && ValueOf(digits, b) < limit
    ensures var v := ValueOf(digits, b);
      StrToUl(blanks + sign + (prefix + (digits + rest)), base, limit)
      == Parsed(if sign == "-" && v > 0 then limit - v else v, |blanks + sign + prefix + digits|, false)
  {
    var front := blanks + sign + prefix;
    var s, start := blanks + sign + (prefix + (digits + rest)), |front|;
    assert s == front + digits + rest;
    assert (digits + rest)[0] == digits[0];
    PrefixIsRead(blanks, sign, prefix, digits + rest, base, b);
    if prefix == "" && digits[0] == '0' {
      start := start + 1;
    }
    ReadsFrom(s, front, digits, rest, base, b, start, sign == "-", limit);
  }

  lemma ReadsFrom(s: string, front: string, digits: string, rest: string, base: nat, b: nat, start: nat, minus: bool,
                  limit: nat)
    requires limit > 0 && ReadPrefix(s, base) == Accepted(start, b, minus) && s == front + digits + rest
    requires 2 <= b <= 36 && DigitsOf(digits, b) && Ends(rest, b) && ValueOf(digits, b) < limit
    requires start == |front| || (start == |front| + 1 && digits[0] == '0')
    ensures var v := ValueOf(digits, b);
      StrToUl(s, base, limit) == Parsed(if minus && v > 0 then limit - v else v, |front + digits|, false)
  {
    DigitsAreRead(s, front, digits, rest, b, start, limit);
    Finishes(ValueOf(digits, b), |front + digits|, start, minus, limit);
  }

  /** Also from behind a zero in front. */
  lemma DigitsAreRead(s: string, front: string, digits: string, rest: string, b: nat, start: nat, limit: nat)
    requires 2 <= b <= 36 && limit > 0 && s == front + digits + rest && DigitsOf(digits, b) && Ends(rest, b)
    requires ValueOf(digits, b) < limit && (start == |front| || (start == |front| + 1 && digits[0] == '0'))
    ensures ParseDigits(s, start, b, limit, 0) == Parsed(ValueOf(digits, b), |front + digits|, false)
    ensures start == |front + digits| ==> ValueOf(digits, b) == 0
  {
    var at, end := |front|, |front + digits|;
    assert s[at..at + |digits|] == digits;
    ReadsDigits(s, at, digits, b, limit);
    assert end < |s| ==> s[end] == rest[0];
    if start > at {
      assert s[at] == digits[0] == '0';
      ShiftInRange(0, b, 0, limit);
      assert digits[..0] == "";
    }
  }

  lemma Finishes(v: nat, end: nat, start: nat, minus: bool, limit: nat)
    requires v < limit && start <= end && (start == end ==> v == 0)
    ensures Finish(Parsed(v, end, false), start, minus, limit)
            == Parsed(if minus && v > 0 then limit - v else v, end, false)
  {
    Small(v, limit);
  }

  /** Without digits the number is 0, and the end is behind the sign. */
  lemma ReadsNothing(blanks: string, sign: string, rest: string, base: nat, limit: nat)
    requires AllBlank(blanks) && IsSign(sign) && (base == 0 || 2 <= base <= 36) && limit > 0
    requires Ends(rest, 36) && (rest != "" ==> !IsBlank(rest[0]) && rest[0] != '+' && rest[0] != '-')
    ensures StrToUl(blanks + sign + rest, base, limit) == Parsed(0, |blanks + sign|, false)
  {
    SkipsToSign(blanks, sign, rest);
  }

  /** Other bases, and a hexadecimal prefix where the base is another one, are refused. */
  lemma RefusesBase(blanks: string, sign: string, number: string, s: string, base: nat, limit: nat)
    requires limit > 0 && AllBlank(blanks) && IsSign(sign) && HexPrefix(number)
    ensures base == 1 || base > 36 ==> StrToUl(s, base, limit) == Parsed(0, 0, false)
    ensures base != 0 && base != 16 ==> StrToUl(blanks + sign + number, base, limit) == Parsed(0, 0, false)
  {
    SkipsToSign(blanks, sign, number);
  }

  /** The digit behind a number `v` that makes it too large is seen as an overflow if and only if what is left of
      it in an unsigned long is less than `v`. */
  lemma OverflowIsSeenIff(s: string, start: nat, digits: string, base: nat, limit: nat)
    requires 2 <= base <= 36 && limit > 0 && start + |digits| < |s| && s[start..start + |digits|] == digits
    requires DigitsOf(digits, base) && 0 <= DigitOf(s[start + |digits|]) < base
    requires ValueOf(digits, base) < limit <= ValueOf(digits, base) * base + DigitOf(s[start + |digits|])
    ensures var v, d := ValueOf(digits, base), DigitOf(s[start + |digits|]);
      (v * base % limit + d) % limit < v ==>
        ParseDigits(s, start, base, limit, 0) == Parsed(limit - 1, start + |digits|, true)
    ensures var v, d := ValueOf(digits, base), DigitOf(s[start + |digits|]);
      (v * base % limit + d) % limit >= v ==>
        ParseDigits(s, start, base, limit, 0)
        == ParseDigits(s, start + |digits| + 1, base, limit, (v * base % limit + d) % limit)
  {
    var i, v, d := start + |digits|, ValueOf(digits, base), DigitOf(s[start + |digits|]);
    ReadsDigits(s, start, digits, base, limit);
    DigitIsRead(s[i], base);
    OneDigitMore(s, i, base, limit, v, d);
  }

  lemma OneDigitMore(s: string, i: nat, base: nat, limit: nat, v: nat, d: nat)
    requires i < |s| && limit > 0 && DigitValue(CharAt(s, i), base) == d
    ensures (v * base % limit + d) % limit < v ==> ParseDigits(s, i, base, limit, v) == Parsed(limit - 1, i, true)
    ensures (v * base % limit + d) % limit >= v ==>
      ParseDigits(s, i, base, limit, v) == ParseDigits(s, i + 1, base, limit, (v * base % limit + d) % limit)
  {
  }

  // ---------- length ----------

  function Power(base: nat, k: nat): nat {
    if k == 0 then 1 else base * Power(base, k - 1)
  }

  lemma {:induction false} TextLength(n: nat, base: nat, upcase: bool, k: nat)
    requires IsBase(base) && k > 0 && n < Power(base, k)
    ensures |Text(n, base, upcase)| <= k
    decreases k
  {
    if n >= base {
      assert Power(base, 1) == base * Power(base, 0) == base;
      Quotient(n, base, Power(base, k - 1));
      TextLength(n / base, base, upcase, k - 1);
    }
  }

  lemma Quotient(n: nat, base: nat, p: nat)
    requires base > 0 && n < base * p
    ensures n / base < p
  {
  }

  lemma {:induction false} PowersGrow(a: nat, b: nat, k: nat)
    requires a <= b
    ensures Power(a, k) <= Power(b, k)
  {
    if k > 0 {
      PowersGrow(a, b, k - 1);
      Product(a, b, Power(a, k - 1), Power(b, k - 1));
    }
  }

  lemma Product(a: nat, b: nat, x: nat, y: nat)
    requires a <= b && x <= y
    ensures a * x <= b * y
  {
    assert a * x <= b * x;
    assert b * x <= b * y;
  }

  lemma PowersOfEight()
    ensures Power(8, 11) == 0x2_0000_0000
    ensures Power(8, 22) == 0x4_0000_0000_0000_0000
  {
  }

  /** No number has more digits than there is room for. */
  lemma NumberFits(n: nat, base: nat, upcase: bool, limit: nat)
    requires IsBase(base) && IsLimit(limit) && n < limit
    ensures |Text(n, base, upcase)| <= MaxNumberLen(limit)
  {
    PowersOfEight();
    PowersGrow(8, base, MaxNumberLen(limit));
    TextLength(n, base, upcase, MaxNumberLen(limit));
  }

  /** The characters between '9' and 'A' are taken for digits from 10 on: in base 16 the digits are exactly
      0-9, A-F, a-f, and the six characters from ':' to '?'. */
  lemma HexDigitsIff(c: char)
    ensures DigitValue(c, 16) >= 0 <==> Alphanumeric(c) || ':' <= c <= '?'
  {
  }

  /** So a colon behind a number is read as ten. */
  lemma ColonIsTen(limit: nat)
    requires limit > 0x1000
    ensures DigitValue(':', 16) == 10 && StrToUl("1:", 16, limit) == Parsed(26, 2, false)
  {
    var s := "1:";
    ShiftInRange(0, 16, 1, limit);
    ShiftInRange(1, 16, 10, limit);
    assert DigitValue(CharAt(s, 2), 16) < 0;
    assert ParseDigits(s, 2, 16, limit, 26) == Parsed(26, 2, false);
    assert ParseDigits(s, 1, 16, limit, 1) == ParseDigits(s, 2, 16, limit, 26);
    assert ReadPrefix(s, 16) == Accepted(0, 16, false);
  }
}
