/** The loops of CString::ntoa and _strtoul, proved against Numbers. */
module NumberText {
  import opened Numbers

  lemma Nested(n: nat, d: nat, base: nat)
    requires d > 0 && base > 0
    ensures n / d / base == n / (d * base)
    ensures n % (d * base) / d == n / d % base
  {
    var q, r := n / d, n % d;
    Divided(n, d);
    Divided(q, base);
    var a, b := q / base, q % base;
    // n == a * (d * base) + (b * d + r)
    assert n == q * d + r;
    assert q * d == (a * base + b) * d == a * (d * base) + b * d;
    Below(b, base, r, d);
    QuotientIs(n, d * base, a, b * d + r);
    QuotientIs(b * d + r, d, b, r);
  }

  lemma Below(b: nat, base: nat, r: nat, d: nat)
    requires b < base && r < d
    ensures b * d + r < d * base
  {
    Product(b + 1, base, d, d);
    NextMultiple(b, d);
  }

  lemma QuotientIs(n: nat, m: nat, q: nat, r: nat)
    requires m > 0 && n == q * m + r && r < m
    ensures n / m == q && n % m == r
  {
    Divided(n, m);
    var q' := n / m;
    NextMultiple(q, m);
    NextMultiple(q', m);
    if q' > q {
      Product(q + 1, q', m, m);
    } else if q' < q {
      Product(q' + 1, q, m, m);
    }
  }

  lemma NextMultiple(q: nat, m: nat)
    ensures (q + 1) * m == q * m + m
  {
  }

  /** One digit more of the text of a number. */
  lemma NextDigit(n: nat, d: nat, base: nat, upcase: bool)
    requires IsBase(base) && d > 0 && n / d >= base
    ensures n / (d * base) > 0 && n % (d * base) / d < base
    ensures Text(n / d, base, upcase) == Text(n / (d * base), base, upcase) + [DigitChar(n % (d * base) / d, upcase)]
  {
    Nested(n, d, base);
  }

  /** The largest power of the base that is not above the number, and the first digit. */
  method FindDivisor(number: nat, base: nat, limit: nat) returns (divisor: nat, digit: nat, ghost k: nat)
    requires IsBase(base) && IsLimit(limit) && number < limit
    ensures divisor == Power(base, k) && divisor > 0 && (k > 0 ==> divisor <= number)
    ensures digit == number / divisor && digit < base
  {
    divisor := 1;
    digit := number / divisor;
    k := 0;
    while digit >= base
      invariant divisor == Power(base, k) && divisor > 0 && digit == number / divisor
      invariant k > 0 ==> divisor <= number
      decreases digit
    {
      Nested(number, divisor, base);
      DivisorFits(number, divisor, base, limit);
      divisor := divisor * base;
      k := k + 1;
      digit := number / divisor;
    }
  }

  /** What ntoa still has to write: `digit`, and then the digits of `rest` below the divisor. */
  ghost predicate Pending(number: nat, base: nat, upcase: bool, k: nat, divisor: nat,
                          digit: nat, rest: nat, written: string)
    requires IsBase(base)
  {
    && divisor == Power(base, k) && divisor > 0 && digit < base && (k > 0 ==> divisor <= number)
    && rest % divisor == number % divisor
    && written + [DigitChar(digit, upcase)] == Text(number / divisor, base, upcase)
  }

  /** To the next digit; the divisor becomes zero when there is none. */
  method Advance(divisor: nat, digit: nat, rest: nat, base: nat, ghost number: nat, ghost upcase: bool,
                 ghost limit: nat, ghost k: nat, ghost written: string)
      returns (nextDivisor: nat, nextDigit: nat, nextRest: nat)
    requires IsBase(base) && IsLimit(limit) && number < limit
    requires Pending(number, base, upcase, k, divisor, digit, rest, written)
    ensures k == 0 ==> nextDivisor == 0 && written + [DigitChar(digit, upcase)] == Text(number, base, upcase)
    ensures k > 0 ==> nextDivisor > 0 && |written| + 1 < MaxNumberLen(limit)
    ensures k > 0 ==> Pending(number, base, upcase, k - 1, nextDivisor, nextDigit, nextRest,
      written + [DigitChar(digit, upcase)])
  {
    nextRest := rest % divisor;
    nextDivisor := divisor / base;
    nextDigit := if nextDivisor == 0 then 0 else nextRest / nextDivisor;
    PendingNext(number, base, upcase, limit, k, divisor, digit, rest, written, nextDivisor, nextRest, nextDigit);
  }

  /** `dest` has room for the longest number and a NUL. */
  method Ntoa(dest: array<char>, number: nat, base: nat, upcase: bool, limit: nat)
    requires IsBase(base) && IsLimit(limit) && number < limit && dest.Length > MaxNumberLen(limit)
    modifies dest
    ensures var s := Text(number, base, upcase);
            |s| < dest.Length && dest[..|s|] == s && dest[|s|] == '\0'
  {
    var divisor: nat, digit: nat;
    ghost var k: nat;
    divisor, digit, k := FindDivisor(number, base, limit);
    Exactly(number);
    var rest: nat := number;
    var p: nat := 0;
    ghost var written := "";
    while true
      invariant p < MaxNumberLen(limit) && written == dest[..p]
      invariant Pending(number, base, upcase, k, divisor, digit, rest, written)
      decreases k
    {
      dest[p] := DigitChar(digit, upcase);
      p := p + 1;
      AppendChar(dest[..p], written, DigitChar(digit, upcase));
      ghost var before := written;
      written := dest[..p];
      divisor, digit, rest := Advance(divisor, digit, rest, base, number, upcase, limit, k, before);
      if divisor == 0 {
        break;
      }
      k := k - 1;
    }
    dest[p] := '\0';
    assert dest[..p] == written;
  }

  lemma AppendChar(a: string, b: string, c: char)
    requires |a| == |b| + 1 && a[..|b|] == b && a[|b|] == c
    ensures a == b + [c]
  {
  }

  /** With the next divisor, the next digit of the text. */
  lemma PendingStep(number: nat, base: nat, upcase: bool, limit: nat, k: nat, divisor: nat,
                    digit: nat, rest: nat, written: string, next: nat, left: nat)
    requires IsBase(base) && IsLimit(limit) && number < limit && k > 0
    requires Pending(number, base, upcase, k, divisor, digit, rest, written)
    requires next == divisor / base && left == rest % divisor
    ensures next > 0 && |written| + 1 < MaxNumberLen(limit)
    ensures Pending(number, base, upcase, k - 1, next, left / next, left, written + [DigitChar(digit, upcase)])
  {
    var d := Power(base, k - 1);
    PowerIsPositive(base, k - 1);
    LessDivisor(number, d, base);
    NextDigit(number, d, base, upcase);
    Remains(number, d, base);
    NumberFits(number / d, base, upcase, limit);
    Product(1, base, d, d);
  }

  lemma PendingNext(number: nat, base: nat, upcase: bool, limit: nat, k: nat, divisor: nat,
                    digit: nat, rest: nat, written: string, next: nat, left: nat, nextDigit: nat)
    requires IsBase(base) && IsLimit(limit) && number < limit
    requires Pending(number, base, upcase, k, divisor, digit, rest, written)
    requires next == divisor / base && left == rest % divisor
    requires next > 0 ==> nextDigit == left / next
    ensures k == 0 ==> next == 0 && written + [DigitChar(digit, upcase)] == Text(number, base, upcase)
    ensures k > 0 ==> next > 0 && |written| + 1 < MaxNumberLen(limit)
    ensures k > 0 ==> Pending(number, base, upcase, k - 1, next, nextDigit, left, written + [DigitChar(digit, upcase)])
  {
    if k > 0 {
      PendingStep(number, base, upcase, limit, k, divisor, digit, rest, written, next, left);
    } else {
      PendingEnd(number, base, upcase, divisor, digit, rest, written, next);
    }
  }

  /** Or the text is complete. */
  lemma PendingEnd(number: nat, base: nat, upcase: bool, divisor: nat, digit: nat, rest: nat,
                   written: string, next: nat)
    requires IsBase(base) && Pending(number, base, upcase, 0, divisor, digit, rest, written) && next == divisor / base
    ensures next == 0 && written + [DigitChar(digit, upcase)] == Text(number, base, upcase)
  {
    Exactly(number);
  }

  lemma {:induction false} PowerIsPositive(base: nat, k: nat)
    requires base > 0
    ensures Power(base, k) > 0
  {
    if k > 0 {
      PowerIsPositive(base, k - 1);
      Product(1, base, 1, Power(base, k - 1));
    }
  }

  lemma Exactly(n: nat)
    ensures n / 1 == n && n % 1 == 0
  {
  }

  lemma LessDivisor(n: nat, d: nat, base: nat)
    requires IsBase(base) && d > 0 && d * base <= n
    ensures d * base / base == d && n / d >= base && n / d <= n
  {
  }

  lemma Remains(n: nat, d: nat, base: nat)
    requires d > 0 && base > 0
    ensures n % (d * base) % d == n % d
  {
    Nested(n, d, base);
    Divided(n, d * base);
    Divided(n, d);
    Divided(n % (d * base), d);
    Nested(n, d, base);
    var q := n / d;
    Divided(q, base);
    assert q * d == (q / base * base + q % base) * d == q / base * (d * base) + q % base * d;
  }

  /** The divisor computation does not overflow. */
  lemma DivisorFits(n: nat, divisor: nat, base: nat, limit: nat)
    requires n < limit && divisor > 0 && n / divisor >= base
    ensures divisor * base <= n < limit
  {
    Divided(n, divisor);
    Product(base, n / divisor, divisor, divisor);
  }

  /** The value of a character as a digit, computed in place as the loop of _strtoul does. */
  method ReadDigit(ch: char, base: nat) returns (d: int)
    ensures d == DigitValue(ch, base)
  {
    if ch < '0' {
      return -1;
    }
    var c := ch as int;
    if 'a' as int <= c && c <= 'z' as int {
      c := c - ('a' as int - 'A' as int);
    }
    if c >= 'A' as int {
      c := c - ('A' as int - '9' as int - 1);
    }
    c := c - '0' as int;
    d := if c >= base then -1 else c;
  }

  /** Space, sign and prefix. */
  method ScanPrefix(s: string, numberBase: nat) returns (p: Prefix)
    ensures p == ReadPrefix(s, numberBase)
  {
    var base := numberBase;
    if base != 0 && (base < 2 || base > 36) {
      return Refused;
    }
    var i := 0;
    while IsSpace(CharAt(s, i))
      invariant i <= |s| && SkipSpace(s, 0) == SkipSpace(s, i)
      decreases |s| - i
    {
      i := i + 1;
    }
    var minus := false;
    if CharAt(s, i) == '+' || CharAt(s, i) == '-' {
      minus := CharAt(s, i) == '-';
      i := i + 1;
    }
    if CharAt(s, i) == '0' {
      i := i + 1;
      if CharAt(s, i) == 'x' || CharAt(s, i) == 'X' {
        if base != 0 && base != 16 {
          return Refused;
        }
        base := 16;
        i := i + 1;
      } else if base == 0 {
        base := 8;
      }
    } else if base == 0 {
      base := 10;
    }
    return Accepted(i, base, minus);
  }

  /** The loop over the digits. */
  method ScanDigits(s: string, start: nat, base: nat, limit: nat) returns (p: Parsed)
    requires start <= |s| && limit > 0
    ensures p == ParseDigits(s, start, base, limit, 0) && p.end >= start
  {
    var i, result := start, 0;
    while true
      invariant start <= i <= |s|
      invariant ParseDigits(s, start, base, limit, 0) == ParseDigits(s, i, base, limit, result)
      decreases |s| - i
    {
      var d := ReadDigit(CharAt(s, i), base);
      if d < 0 {
        break;
      }
      var previous := result;
      result := Shift(result, base, d, limit);
      if result < previous {
        return Parsed(limit - 1, i, true);
      }
      i := i + 1;
    }
    return Parsed(result, i, false);
  }

  method Strtoul(s: string, numberBase: nat, limit: nat) returns (result: nat, end: nat)
    requires limit > 0
    ensures result == StrToUl(s, numberBase, limit).value && end == StrToUl(s, numberBase, limit).end
  {
    var prefix := ScanPrefix(s, numberBase);
    if prefix == Refused {
      return 0, 0;
    }
    var digits := ScanDigits(s, prefix.start, prefix.base, limit);
    result, end := digits.value, digits.end;
    if digits.overflow || end == prefix.start {
      return;
    }
    if prefix.minus {
      result := (limit - result % limit) % limit;
    }
  }
}
