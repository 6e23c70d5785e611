/** Numbers as text: the least-significant-first printer with its shift-and-mask
    path (src/vsnprintf.c and src/doprnt.c) and the most-significant-first printer
    (src/cstring.c), against one numeral of a number in a base. */
module Numerals {
  import opened Arith

  // ---------------------------------------------------------------- digits and values

  predicate IsDigits(ds: seq<nat>, b: nat) { forall i :: 0 <= i < |ds| ==> ds[i] < b }

  /** The number a digit sequence stands for, most significant digit first. */
  function Value(ds: seq<nat>, b: nat): nat {
    if ds == [] then 0 else Value(ds[..|ds| - 1], b) * b + ds[|ds| - 1]
  }

  function Pow(b: nat, k: nat): nat { if k == 0 then 1 else Pow(b, k - 1) * b }

  lemma DivSmaller(n: nat, b: nat)
    requires 2 <= b <= n
    ensures n / b < n && n / b > 0 && n / b <= n / 2 && n == n / b * b + n % b
  {
    var q, r := n / b, n % b;
    assert n == q * b + r;
    MulAtLeastTwice(q, b);
    if q == 0 {
      assert false;
    }
  }

  lemma MulAtLeastTwice(q: nat, b: nat)
    requires b >= 2
    ensures q * b >= 2 * q
  {
  }

  /** The base-b numeral without leading zeros. */
  function Digits(n: nat, b: nat): (ds: seq<nat>)
    requires b >= 2
    ensures |ds| > 0
    decreases n
  {
    if n < b then [n]
    else
      DivSmaller(n, b);
      Digits(n / b, b) + [n % b]
  }

  lemma {:induction false} DigitsRight(n: nat, b: nat)
    requires b >= 2
    ensures Value(Digits(n, b), b) == n && IsDigits(Digits(n, b), b)
    ensures n > 0 ==> Digits(n, b)[0] > 0
    decreases n
  {
    if n >= b {
      DivSmaller(n, b);
      DigitsRight(n / b, b);
      ValueSnoc(Digits(n / b, b), n % b, b);
    } else {
      ValueSnoc([], n, b);
      assert [] + [n] == [n];
    }
  }

  lemma ValueSnoc(ds: seq<nat>, d: nat, b: nat)
    ensures Value(ds + [d], b) == Value(ds, b) * b + d
  {
    assert (ds + [d])[..|ds + [d]| - 1] == ds;
  }

  /** Numerals of equal length and value are equal. */
  lemma {:induction false} ValueUnique(ds: seq<nat>, es: seq<nat>, b: nat)
    requires b >= 2 && |ds| == |es| && IsDigits(ds, b) && IsDigits(es, b) && Value(ds, b) == Value(es, b)
    ensures ds == es
    decreases |ds|
  {
    if ds != [] {
      var d, e := ds[|ds| - 1], es[|es| - 1];
      UniqueCut(b, Value(ds[..|ds| - 1], b), d, Value(es[..|es| - 1], b), e);
      ValueUnique(ds[..|ds| - 1], es[..|es| - 1], b);
      assert ds == ds[..|ds| - 1] + [d] && es == es[..|es| - 1] + [e];
    }
  }

  lemma {:induction false} ValueCons(d: nat, ds: seq<nat>, b: nat)
    ensures Value([d] + ds, b) == d * Pow(b, |ds|) + Value(ds, b)
    decreases |ds|
  {
    if ds == [] {
      assert [d] + ds == [] + [d];
      ValueSnoc([], d, b);
    } else {
      var front, last := ds[..|ds| - 1], ds[|ds| - 1];
      var p, v, w := Pow(b, |front|), Value(front, b), Value([d] + front, b);
      assert Value([d] + ds, b) == w * b + last by {
        assert [d] + ds == ([d] + front) + [last];
        ValueSnoc([d] + front, last, b);
      }
      assert Value(ds, b) == v * b + last by {
        assert ds == front + [last];
        ValueSnoc(front, last, b);
      }
      assert Pow(b, |ds|) == p * b by {
        PowNext(b, |front|);
      }
      assert w == d * p + v by {
        ValueCons(d, front, b);
      }
      Expand(w, d, p, v, b, last);
    }
  }

  lemma PowNext(b: nat, k: nat)
    ensures Pow(b, k + 1) == Pow(b, k) * b
  {
  }

  lemma Expand(w: nat, d: nat, p: nat, v: nat, b: nat, last: nat)
    requires w == d * p + v
    ensures w * b + last == d * (p * b) + (v * b + last)
  {
    assert w * b == d * p * b + v * b;
    assert d * p * b == d * (p * b);
  }

  /** A numeral of k + 1 digits names a number from b^k up. */
  lemma {:induction false} DigitsLength(n: nat, b: nat)
    requires b >= 2
    ensures n < Pow(b, |Digits(n, b)|) && (n > 0 ==> n >= Pow(b, |Digits(n, b)| - 1))
    decreases n
  {
    if n < b {
      assert Pow(b, 1) == Pow(b, 0) * b == b;
    } else {
      DivSmaller(n, b);
      DigitsLength(n / b, b);
      var k := |Digits(n / b, b)|;
      ScaleBounds(n / b, n % b, b, Pow(b, k), Pow(b, k - 1));
    }
  }

  lemma ScaleBounds(q: nat, r: nat, b: nat, hi: nat, lo: nat)
    requires lo <= q < hi && r < b
    ensures lo * b <= q * b + r < hi * b
  {
    assert q + 1 <= hi;
    MulMonotone(q + 1, hi, b);
    MulMonotone(lo, q, b);
    assert (q + 1) * b == q * b + b;
  }

  lemma MulMonotone(x: nat, y: nat, b: nat)
    requires x <= y
    ensures x * b <= y * b
  {
  }

  /** 32-bit numbers have at most 32 digits, in any base. */
  lemma {:induction false} DigitsFit(n: nat, b: nat, k: nat)
    requires b >= 2 && n < Pow(2, k) && k > 0
    ensures |Digits(n, b)| <= k
    decreases k
  {
    assert Pow(2, k) == Pow(2, k - 1) * 2;
    if n >= b {
      DivSmaller(n, b);
      assert n / b < Pow(2, k - 1);
      assert k > 1 by { assert Pow(2, 0) == 1; }
      DigitsFit(n / b, b, k - 1);
    }
  }

  // ---------------------------------------------------------------- characters

  /** Exactly the numbers below 2^k fit k binary digits: 32 of them are needed from
      2^31 on. */
  lemma BinaryLength(n: nat, k: nat)
    requires k > 0
    ensures |Digits(n, 2)| <= k <==> n < Pow(2, k)
  {
    if n < Pow(2, k) {
      DigitsFit(n, 2, k);
    } else {
      DigitsLength(n, 2);
      if |Digits(n, 2)| <= k {
        PowMonotone(2, |Digits(n, 2)|, k);
      }
    }
  }

  /** digits_lc and digits_uc; the cstring printer computes the same characters. */
  function DigitChar(d: nat, upper: bool): char
    requires d < 36
  {
    if d < 10 then '0' + d as char else if upper then 'A' + (d - 10) as char else 'a' + (d - 10) as char
  }

  /** The two tables of the source. */
  lemma DigitTables(d: nat)
    requires d < 16
    ensures DigitChar(d, false) == "0123456789abcdef"[d] && DigitChar(d, true) == "0123456789ABCDEF"[d]
  {
  }

  function Chars(ds: seq<nat>, upper: bool): (s: seq<char>)
    requires IsDigits(ds, 36)
    ensures |s| == |ds|
  {
    if ds == [] then [] else Chars(ds[..|ds| - 1], upper) + [DigitChar(ds[|ds| - 1], upper)]
  }

  /** The numeral as text. */
  function Numeral(n: nat, b: nat, upper: bool): (s: seq<char>)
    requires 2 <= b <= 36
    ensures |s| > 0
    decreases n
  {
    if n < b then [DigitChar(n, upper)]
    else
      DivSmaller(n, b);
      Numeral(n / b, b, upper) + [DigitChar(n % b, upper)]
  }

  lemma CharsSnoc(ds: seq<nat>, d: nat, upper: bool)
    requires IsDigits(ds, 36) && d < 36
    ensures Chars(ds + [d], upper) == Chars(ds, upper) + [DigitChar(d, upper)]
  {
    assert (ds + [d])[..|ds + [d]| - 1] == ds;
  }

  lemma {:induction false} NumeralChars(n: nat, b: nat, upper: bool)
    requires 2 <= b <= 36
    ensures IsDigits(Digits(n, b), 36) && Numeral(n, b, upper) == Chars(Digits(n, b), upper)
    decreases n
  {
    if n < b {
      CharsSnoc([], n, upper);
      assert [] + [n] == [n];
    } else {
      DivSmaller(n, b);
      NumeralChars(n / b, b, upper);
      CharsSnoc(Digits(n / b, b), n % b, upper);
    }
  }

  // ---------------------------------------------------------------- shift and mask

  /** Bitwise and of two naturals. */
  function BitAnd(x: nat, y: nat): nat {
    if x == 0 || y == 0 then 0 else 2 * BitAnd(x / 2, y / 2) + (if x % 2 == 1 && y % 2 == 1 then 1 else 0)
  }

  lemma {:induction false} AndMask(x: nat, k: nat)
    ensures Pow(2, k) > 0 && BitAnd(x, Pow(2, k) - 1) == x % Pow(2, k)
    decreases k
  {
    PowPositive(2, k);
    if k > 0 && x > 0 {
      var m := Pow(2, k - 1);
      PowPositive(2, k - 1);
      AndMask(x / 2, k - 1);
      MaskHalf(x, m, Pow(2, k));
    } else if x == 0 {
      ModSmall(0, Pow(2, k));
    }
  }

  lemma MaskHalf(x: nat, m: nat, twice: nat)
    requires x > 0 && m > 0 && twice == 2 * m && BitAnd(x / 2, m - 1) == x / 2 % m
    ensures BitAnd(x, twice - 1) == x % twice
  {
    AndOdd(x, m);
    HalfMod(x, m);
  }

  lemma AndOdd(x: nat, m: nat)
    requires x > 0 && m > 0
    ensures BitAnd(x, 2 * m - 1) == 2 * BitAnd(x / 2, m - 1) + x % 2
  {
    assert (2 * m - 1) / 2 == m - 1 && (2 * m - 1) % 2 == 1;
  }

  lemma HalfMod(x: nat, m: nat)
    requires m > 0
    ensures x % (2 * m) == 2 * (x / 2 % m) + x % 2
  {
    var h := x / 2;
    var r := 2 * (h % m) + x % 2;
    Associate(h / m, m);
    assert x == h / m * (2 * m) + r;
    Cut(x, 2 * m, h / m, r);
  }

  lemma Associate(q: nat, m: nat)
    ensures q * (2 * m) == 2 * (q * m)
  {
  }

  lemma PowPositive(b: nat, k: nat)
    requires b > 0
    ensures Pow(b, k) > 0
  {
  }

  /** base_to_nbits */
  function BaseBits(base: nat): nat {
    if base == 2 then 1 else if base == 4 then 2 else if base == 8 then 3 else if base == 16 then 4 else 0
  }

  /** One digit by division, or for a power of two by mask and shift. */
  method SplitDigit(num: nat, base: nat) returns (d: nat, rest: nat)
    requires 2 <= base <= 16
    ensures d == num % base && rest == num / base
  {
    var shift := BaseBits(base);
    if shift == 0 {
      d, rest := num % base, num / base;
    } else {
      assert Pow(2, 1) == 2 && Pow(2, 2) == 4 && Pow(2, 3) == 8 && Pow(2, 4) == 16;
      AndMask(num, shift);
      d, rest := BitAnd(num, Pow(2, shift) - 1), num / Pow(2, shift);
    }
  }

  // ---------------------------------------------------------------- least significant first

  function Reversed(s: seq<char>): seq<char> {
    if s == [] then [] else [s[|s| - 1]] + Reversed(s[..|s| - 1])
  }

  lemma ReversedSnoc(s: seq<char>, c: char)
    ensures Reversed(s + [c]) == [c] + Reversed(s)
  {
    assert (s + [c])[..|s + [c]| - 1] == s;
  }

  lemma {:induction false} ReversedCons(c: char, s: seq<char>)
    ensures Reversed([c] + s) == Reversed(s) + [c]
    decreases |s|
  {
    if s == [] {
      assert [c] + s == [] + [c];
      ReversedSnoc([], c);
    } else {
      assert [c] + s == ([c] + s[..|s| - 1]) + [s[|s| - 1]];
      ReversedSnoc([c] + s[..|s| - 1], s[|s| - 1]);
      ReversedCons(c, s[..|s| - 1]);
    }
  }

  /** One turn of a filling loop of ulong_to_string. */
  method PutDigit(num: nat, base: nat, upper: bool, temp: array<char>, i: nat, ghost text: seq<char>) returns (rest: nat)
    requires 2 <= base <= 16 && temp.Length == 33 && 1 <= i <= 32
    requires text == Numeral(num, base, upper) + Reversed(temp[1..i])
    modifies temp
    ensures temp[0] == old(temp[0])
    ensures rest <= num / 2 && text == Front(rest, base, upper) + Reversed(temp[1..i + 1])
  {
    var c;
    c, rest := NextDigit(num, base, upper);
    ghost var before := temp[1..i];
    temp[i] := c;
    assert temp[1..i + 1] == before + [c];
    DigitMoved(text, Front(rest, base, upper), c, before, temp[1..i + 1]);
  }

  /** The numeral of what is left; nothing when nothing is. */
  function Front(rest: nat, base: nat, upper: bool): (s: seq<char>)
    requires 2 <= base <= 16
    ensures rest > 0 ==> s == Numeral(rest, base, upper)
  {
    if rest == 0 then [] else Numeral(rest, base, upper)
  }

  lemma DigitMoved(text: seq<char>, left: seq<char>, c: char, before: seq<char>, after: seq<char>)
    requires text == left + [c] + Reversed(before) && after == before + [c]
    ensures text == left + Reversed(after)
  {
    ReversedSnoc(before, c);
    assert left + [c] + Reversed(before) == left + ([c] + Reversed(before));
  }

  /** The last character of the numeral, and the number the others stand for. */
  method NextDigit(num: nat, base: nat, upper: bool) returns (c: char, rest: nat)
    requires 2 <= base <= 16
    ensures rest <= num / 2 && Numeral(num, base, upper) == Front(rest, base, upper) + [c]
  {
    var d;
    d, rest := SplitDigit(num, base);
    c := DigitChar(d, upper);
    NumeralStep(num, base, upper, d, rest);
  }

  lemma NumeralStep(num: nat, base: nat, upper: bool, d: nat, rest: nat)
    requires 2 <= base <= 16 && d == num % base && rest == num / base
    ensures if num < base then rest == 0 && Numeral(num, base, upper) == [DigitChar(d, upper)]
            else 0 < rest < num && rest <= num / 2 && Numeral(num, base, upper) == Numeral(rest, base, upper) + [DigitChar(d, upper)]
  {
    if num < base {
      Cut(num, base, 0, num);
    } else {
      DivSmaller(num, base);
    }
  }

  /** The filling loops of ulong_to_string: digits from temp[1] on, last one first. */
  method FillDigits(number: nat, base: nat, upper: bool, temp: array<char>) returns (i: nat)
    requires number < Pow(2, 32) && 2 <= base <= 16 && temp.Length == 33
    modifies temp
    ensures 1 <= i <= 32 && temp[0] == old(temp[0])
    ensures Reversed(temp[1..i + 1]) == Numeral(number, base, upper)
  {
    var num: nat := number;
    ghost var text := Numeral(number, base, upper);
    i := 1;
    assert temp[1..1] == [];
    while true
      invariant temp[0] == old(temp[0]) && FitsFrom(num, i)
      invariant text == Numeral(num, base, upper) + Reversed(temp[1..i])
      decreases num
    {
      ghost var whole := num;
      num := PutDigit(num, base, upper, temp, i, text);
      if num == 0 {
        break;
      }
      HalfBelow(whole, i, num);
      i := i + 1;
    }
  }

  /** The digits of the number fit places i to 32. */
  predicate FitsFrom(num: nat, i: nat) { 1 <= i <= 32 && num < Pow(2, 33 - i) }

  lemma HalfBelow(num: nat, i: nat, rest: nat)
    requires FitsFrom(num, i) && 0 < rest <= num / 2
    ensures FitsFrom(rest, i + 1)
  {
    assert Pow(2, 33 - i) == Pow(2, 32 - i) * 2 && Pow(2, 0) == 1;
  }

  /** The reversing copy: temp[i], ..., temp[0]. */
  method CopyReversed(temp: array<char>, i: nat, str: array<char>)
    requires i < temp.Length && i < str.Length && temp != str
    modifies str
    ensures str[..i + 1] == Reversed(temp[..i + 1])
  {
    ghost var text := temp[..i + 1];
    assert text[..i + 1] == text;
    var out := 0;
    while out <= i
      invariant 0 <= out <= i + 1
      invariant str[..out] + Reversed(text[..i + 1 - out]) == Reversed(text)
    {
      assert text[..i + 1 - out] == text[..i - out] + [text[i - out]];
      ReversedSnoc(text[..i - out], text[i - out]);
      str[out] := temp[i - out];
      out := out + 1;
    }
  }

  /** ulong_to_string: the terminated numeral; 33 bytes hold every 32-bit number. */
  method UlongToString(num: nat, str: array<char>, base: nat, upper: bool) returns (len: nat)
    requires num < Pow(2, 32) && 2 <= base <= 16 && str.Length >= 33
    modifies str
    ensures len < 33 && str[..len + 1] == Numeral(num, base, upper) + ['\0']
  {
    var temp := new char[33];
    temp[0] := '\0';
    len := FillDigits(num, base, upper, temp);
    assert temp[..len + 1] == ['\0'] + temp[1..len + 1];
    ReversedCons('\0', temp[1..len + 1]);
    CopyReversed(temp, len, str);
  }

  // ---------------------------------------------------------------- most significant first

  /** k digits, the leading one by division. */
  function Leading(n: nat, b: nat, k: nat): (ds: seq<nat>)
    requires b >= 2
    ensures |ds| == k
    decreases k
  {
    if k == 0 then []
    else
      PowPositive(b, k - 1);
      [n / Pow(b, k - 1)] + Leading(n % Pow(b, k - 1), b, k - 1)
  }

  lemma QuotientBelow(n: nat, p: nat, b: nat)
    requires p > 0 && n < p * b
    ensures n / p < b
  {
    var q := n / p;
    assert n == q * p + n % p && b * p == p * b;
    if q >= b {
      MulMonotone(b, q, p);
      assert false;
    }
  }

  lemma LeadingCons(d: nat, rest: seq<nat>, b: nat, r: nat)
    requires d < b && IsDigits(rest, b) && Value(rest, b) == r
    ensures Value([d] + rest, b) == d * Pow(b, |rest|) + r && IsDigits([d] + rest, b)
  {
    ValueCons(d, rest, b);
  }

  lemma {:induction false} LeadingRight(n: nat, b: nat, k: nat)
    requires b >= 2 && n < Pow(b, k)
    ensures Value(Leading(n, b, k), b) == n && IsDigits(Leading(n, b, k), b)
    decreases k
  {
    if k > 0 {
      var p := Pow(b, k - 1);
      PowPositive(b, k - 1);
      QuotientBelow(n, p, b);
      DivFacts(n, p);
      var d: nat, r: nat := n / p, n % p;
      LeadingRight(r, b, k - 1);
      LeadingCons(d, Leading(r, b, k - 1), b, r);
    }
  }

  lemma LeadingIsNumeral(n: nat, b: nat, k: nat)
    requires b >= 2 && n < Pow(b, k + 1) && (k > 0 ==> n >= Pow(b, k))
    ensures Leading(n, b, k + 1) == Digits(n, b)
  {
    LeadingRight(n, b, k + 1);
    DigitsRight(n, b);
    DigitsLength(n, b);
    var m := |Digits(n, b)|;
    if m < k + 1 {
      PowMonotone(b, m, k);
    } else if m > k + 1 {
      PowMonotone(b, k + 1, m - 1);
    }
    ValueUnique(Leading(n, b, k + 1), Digits(n, b), b);
  }

  lemma {:induction false} PowMonotone(b: nat, j: nat, k: nat)
    requires b >= 1 && j <= k
    ensures Pow(b, j) <= Pow(b, k)
    decreases k
  {
    if j < k {
      PowMonotone(b, j, k - 1);
      PowPositive(b, k - 1);
      MulMonotone(1, b, Pow(b, k - 1));
    }
  }

  /** The divisor loop: it ends with the largest power of the base not above the
      number, and the product never wraps. */
  method LeadingDivisor(number: nat, base: nat, limit: nat) returns (divisor: nat, ghost k: nat)
    requires 2 <= base && number < limit
    ensures divisor == Pow(base, k) && number < Pow(base, k + 1) && (k > 0 ==> divisor <= number)
    ensures divisor > 0
  {
    divisor, k := 1, 0;
    while number / divisor >= base
      invariant divisor == Pow(base, k) && divisor > 0 && (k > 0 ==> divisor <= number)
      decreases number - divisor
    {
      ProductBelow(number, divisor, base);
      ModSmall(divisor * base, limit);
      divisor := divisor * base % limit;
      k := k + 1;
    }
    Above(number, divisor, base);
  }

  lemma ProductBelow(n: nat, p: nat, b: nat)
    requires p > 0 && b >= 2 && n / p >= b
    ensures p < p * b <= n
  {
    var q := n / p;
    assert n == q * p + n % p;
    MulMonotone(b, q, p);
    MulAtLeastTwice(p, b);
    assert b * p == p * b;
  }

  lemma Above(n: nat, p: nat, b: nat)
    requires p > 0 && n / p < b
    ensures n < p * b
  {
    var q := n / p;
    assert n == q * p + n % p;
    MulMonotone(q + 1, b, p);
    assert (q + 1) * p == q * p + p && b * p == p * b;
  }

  /** The printing loop's state: digits out, the rest of the number, its divisor. */
  ghost predicate Printing(ds: seq<nat>, rest: nat, divisor: nat, b: nat, all: seq<nat>)
    requires b >= 2
  {
    && IsDigits(ds, 36) && |ds| <= |all|
    && divisor == (if |ds| < |all| then Pow(b, |all| - |ds| - 1) else 0)
    && ds + Leading(rest, b, |all| - |ds|) == all
  }

  method EmitDigit(rest: nat, divisor: nat, base: nat, ghost ds: seq<nat>, ghost all: seq<nat>)
    returns (digit: nat, rest': nat, divisor': nat)
    requires base >= 2 && divisor > 0 && IsDigits(all, 36) && Printing(ds, rest, divisor, base, all)
    ensures digit < 36 && |ds| < |all| && Printing(ds + [digit], rest', divisor', base, all)
  {
    ghost var left := |all| - |ds| - 1;
    DivFacts(rest, divisor);
    DivFacts(divisor, base);
    digit := rest / divisor;
    rest' := rest % divisor;
    divisor' := divisor / base;
    LeadingSplit(ds, rest, base, left, all, digit, rest');
    PowShrinks(base, left);
  }

  lemma PrintingDone(ds: seq<nat>, rest: nat, b: nat, all: seq<nat>)
    requires b >= 2 && Printing(ds, rest, 0, b, all)
    ensures ds == all
  {
    if |ds| < |all| {
      PowPositive(b, |all| - |ds| - 1);
    }
    assert Leading(rest, b, 0) == [];
  }

  method PrintDigits(number: nat, start: nat, base: nat, upper: bool, ghost all: seq<nat>) returns (s: seq<char>)
    requires base >= 2 && IsDigits(all, 36) && Printing([], number, start, base, all)
    ensures s == Chars(all, upper)
  {
    ghost var ds: seq<nat> := [];
    var rest: nat, divisor: nat := number, start;
    s := [];
    while divisor != 0
      invariant Printing(ds, rest, divisor, base, all) && s == Chars(ds, upper)
      decreases |all| - |ds|
    {
      var digit;
      digit, rest, divisor := EmitDigit(rest, divisor, base, ds, all);
      CharsSnoc(ds, digit, upper);
      s := s + [DigitChar(digit, upper)];
      ds := ds + [digit];
    }
    PrintingDone(ds, rest, base, all);
  }

  /** cstring_ntoa (limit 2^32) and cstring_lltoa (limit 2^64). */
  method Ntoa(number: nat, base: nat, upper: bool, limit: nat) returns (s: seq<char>)
    requires 2 <= base <= 36 && number < limit
    ensures s == Numeral(number, base, upper)
  {
    var divisor, k := LeadingDivisor(number, base, limit);
    LeadingIsNumeral(number, base, k);
    NumeralChars(number, base, upper);
    s := PrintDigits(number, divisor, base, upper, Digits(number, base));
  }

  lemma LeadingSplit(ds: seq<nat>, n: nat, b: nat, k: nat, all: seq<nat>, d: nat, r: nat)
    requires b >= 2 && ds + Leading(n, b, k + 1) == all && IsDigits(all, 36)
    requires Pow(b, k) > 0 && d == n / Pow(b, k) && r == n % Pow(b, k)
    ensures d < 36 && (ds + [d]) + Leading(r, b, k) == all
  {
    assert Leading(n, b, k + 1) == [d] + Leading(r, b, k);
    assert all[|ds|] == d;
  }

  lemma PowShrinks(b: nat, k: nat)
    requires b >= 2
    ensures Pow(b, k) / b == if k > 0 then Pow(b, k - 1) else 0
  {
    if k > 0 {
      Cut(Pow(b, k), b, Pow(b, k - 1), 0);
    }
  }
}
