/** Formatting of one conversion by vsprintf (src/vsnprintf.c) and reading numbers
    back by strtoul and atoi (src/string.c). */
module NumberText {
  import opened Common
  import opened Arith
  import opened Numerals

  // ---------------------------------------------------------------- reading

  /** A C string without its closing null, which is read at its end. */
  function At(s: seq<char>, i: nat): char { if i < |s| then s[i] else '\0' }

  predicate IsBlank(c: char) {
    c == ' ' || c == 12 as char || c == '\n' || c == '\r' || c == '\t' || c == 11 as char
  }

  function SkipBlanks(s: seq<char>, i: nat): nat
    decreases |s| - i
  {
    if i < |s| && IsBlank(s[i]) then SkipBlanks(s, i + 1) else i
  }

  /** The loop's arithmetic on a character: what is at least the base ends the number. */
  function DigitOf(c: char): int {
    var v := c as int;
    var upper := if 97 <= v <= 122 then v - 32 else v;
    (if upper >= 65 then upper - 7 else upper) - 48
  }

  predicate Ends(c: char, base: nat) { c < '0' || DigitOf(c) >= base }

  datatype Parsed = Done(value: nat) | Overflow

  /** The digit loop of strtoul, in 32 bits. */
  function ParseDigits(s: seq<char>, i: nat, base: nat, acc: nat): Parsed
    requires base >= 2
    decreases |s| - i
  {
    if i >= |s| || Ends(s[i], base) then Done(acc)
    else
      var acc' := (acc * base + DigitOf(s[i])) % 0x1_0000_0000;
      if acc' < acc then Overflow else ParseDigits(s, i + 1, base, acc')
  }

  /** Where the loop stops reading. */
  function DigitsEnd(s: seq<char>, i: nat, base: nat, acc: nat): nat
    requires base >= 2
    decreases |s| - i
  {
    if i >= |s| || Ends(s[i], base) then i
    else
      var acc' := (acc * base + DigitOf(s[i])) % 0x1_0000_0000;
      if acc' < acc then i else DigitsEnd(s, i + 1, base, acc')
  }

  /** Base and first digit after a possible 0 or 0x; base 0 stands for a refused prefix. */
  function Prefix(s: seq<char>, i: nat, base: nat): (nat, nat) {
    if At(s, i) == '0' then
      if At(s, i + 1) == 'x' || At(s, i + 1) == 'X' then
        if base != 0 && base != 16 then (0, i) else (16, i + 2)
      else (if base == 0 then 8 else base, i + 1)
    else (if base == 0 then 10 else base, i)
  }

  /** The number behind blanks and sign. */
  function Unsigned(s: seq<char>, first: nat, base: nat): Parsed {
    var (b, start) := Prefix(s, first, base);
    if b < 2 then Done(0) else ParseDigits(s, start, b, 0)
  }

  /** `-ulResult` in 32 bits. */
  function Negated(v: int): nat { (0 - v) % 0x1_0000_0000 }

  function Signed(p: Parsed, minus: bool): nat {
    match p
    case Overflow => 0xFFFF_FFFF
    case Done(v) => if minus then Negated(v) else v
  }

  function Strtoul(s: seq<char>, base: nat): nat {
    if base != 0 && (base < 2 || base > 36) then 0
    else
      var i := SkipBlanks(s, 0);
      var minus := At(s, i) == '-';
      Signed(Unsigned(s, if minus || At(s, i) == '+' then i + 1 else i, base), minus)
  }

  /** What strtoul stores through its second argument, counted from the start of the text. */
  function StrtoulEnd(s: seq<char>, base: nat): nat {
    if base != 0 && (base < 2 || base > 36) then 0
    else
      var i := SkipBlanks(s, 0);
      var (b, start) := Prefix(s, if At(s, i) == '-' || At(s, i) == '+' then i + 1 else i, base);
      if b < 2 then 0 else DigitsEnd(s, start, b, 0)
  }

  /** (int) strtoul(s, 0, 10) */
  function Atoi(s: seq<char>): int {
    var u := Strtoul(s, 10);
    if u >= 0x8000_0000 then u - 0x1_0000_0000 else u
  }

  /** strtoul itself. */
  method RunStrtoul(s: seq<char>, base: nat) returns (r: nat, end: nat)
    ensures r == Strtoul(s, base) && end == StrtoulEnd(s, base)
  {
    r, end := 0, 0;
    if base != 0 && (base < 2 || base > 36) {
      return;
    }
    var i := 0;
    while i < |s| && IsBlank(s[i])
      invariant SkipBlanks(s, i) == SkipBlanks(s, 0)
    {
      i := i + 1;
    }
    var minus := At(s, i) == '-';
    if minus || At(s, i) == '+' {
      i := i + 1;
    }
    var (b, start) := Prefix(s, i, base);
    if b < 2 {
      return;
    }
    i := start;
    while i < |s| && !Ends(s[i], b)
      invariant ParseDigits(s, i, b, r) == ParseDigits(s, start, b, 0)
      invariant DigitsEnd(s, i, b, r) == DigitsEnd(s, start, b, 0)
    {
      var previous := r;
      r := (r * b + DigitOf(s[i])) % 0x1_0000_0000;
      if r < previous {
        r, end := 0xFFFF_FFFF, i;
        return;
      }
      i := i + 1;
    }
    end := i;
    if minus {
      r := Negated(r);
    }
  }

  // ---------------------------------------------------------------- numerals read back

  lemma DigitOfChar(d: nat, upper: bool)
    requires d < 36
    ensures DigitOf(DigitChar(d, upper)) == d && DigitChar(d, upper) >= '0'
  {
  }

  /** What the loop takes for a digit: the digits of the base, in either case, and besides
      them the punctuation between '9' and 'A', as 10 to 16. */
  lemma DigitExact(c: char, base: nat)
    requires base <= 36
    ensures !Ends(c, base) <==>
              (exists d :: 0 <= d < base && (c == DigitChar(d, false) || c == DigitChar(d, true)))
              || (':' <= c <= '@' && (c as int) - 48 < base)
    ensures ':' <= c <= '@' ==> DigitOf(c) == (c as int) - 48
  {
    var v := c as int;
    if 48 <= v <= 57 && v - 48 < base {
      assert c == DigitChar(v - 48, false);
    } else if 65 <= v <= 90 && v - 55 < base {
      assert c == DigitChar(v - 55, true);
    } else if 97 <= v <= 122 && v - 87 < base {
      assert c == DigitChar(v - 87, false);
    }
  }

  lemma {:induction false} ValuePrefix(ds: seq<nat>, k: nat, b: nat)
    requires k <= |ds| && b >= 1
    ensures Value(ds[..k], b) <= Value(ds, b)
    decreases |ds| - k
  {
    if k < |ds| {
      ValuePrefix(ds, k + 1, b);
      assert ds[..k + 1] == ds[..k] + [ds[k]];
      ValueSnoc(ds[..k], ds[k], b);
      MulMonotone(1, b, Value(ds[..k], b));
      assert Value(ds[..k], b) * b == b * Value(ds[..k], b);
    } else {
      assert ds[..k] == ds;
    }
  }

  /** The text from i on shows the digits ds and then something that is no digit. */
  predicate Shows(s: seq<char>, i: nat, ds: seq<nat>, upper: bool, b: nat) {
    && b <= 36 && IsDigits(ds, b) && i + |ds| <= |s|
    && (forall j :: 0 <= j < |ds| ==> s[i + j] == DigitChar(ds[j], upper))
    && Ends(At(s, i + |ds|), b)
  }

  lemma {:induction false} ParseShown(s: seq<char>, i: nat, ds: seq<nat>, upper: bool, b: nat, k: nat)
    requires 2 <= b && Shows(s, i, ds, upper, b) && Value(ds, b) < 0x1_0000_0000 && k <= |ds|
    ensures ParseDigits(s, i + k, b, Value(ds[..k], b)) == Done(Value(ds, b))
    decreases |ds| - k
  {
    if k == |ds| {
      assert ds[..k] == ds;
    } else {
      var v, d := Value(ds[..k], b), ds[k];
      ParseShown(s, i, ds, upper, b, k + 1);
      assert ds[..k + 1] == ds[..k] + [d];
      ValueSnoc(ds[..k], d, b);
      ValuePrefix(ds, k + 1, b);
      assert s[i + k] == DigitChar(d, upper);
      DigitOfChar(d, upper);
      ParseOne(s, i + k, b, v, d);
    }
  }

  lemma ParseOne(s: seq<char>, i: nat, b: nat, v: nat, d: nat)
    requires 2 <= b && i < |s| && d < b && s[i] >= '0' && DigitOf(s[i]) == d && v * b + d < 0x1_0000_0000
    ensures ParseDigits(s, i, b, v) == ParseDigits(s, i + 1, b, v * b + d)
  {
    ModSmall(v * b + d, 0x1_0000_0000);
    MulAtLeastTwice(v, b);
  }

  /** The residues of the prefixes never fall from digit k on. */
  predicate Rises(ds: seq<nat>, b: nat, k: nat) {
    forall j :: k <= j < |ds| ==> Residue(ds, b, j) <= Residue(ds, b, j + 1)
  }

  /** What 32 bits keep of the first j digits. */
  function Residue(ds: seq<nat>, b: nat, j: nat): nat
    requires j <= |ds|
  {
    Value(ds[..j], b) % 0x1_0000_0000
  }

  lemma ResidueNext(v: nat, b: nat, d: nat)
    ensures (v % 0x1_0000_0000 * b + d) % 0x1_0000_0000 == (v * b + d) % 0x1_0000_0000
  {
    var q, r := v / 0x1_0000_0000, v % 0x1_0000_0000;
    assert v == q * 0x1_0000_0000 + r;
    Scale(q, r, b);
    DropMultiple(r * b + d, q * b);
  }

  lemma Scale(q: nat, r: nat, b: nat)
    ensures (q * 0x1_0000_0000 + r) * b == q * b * 0x1_0000_0000 + r * b
  {
  }

  lemma DropMultiple(y: nat, k: nat)
    ensures (k * 0x1_0000_0000 + y) % 0x1_0000_0000 == y % 0x1_0000_0000
  {
  }

  /** What the digit loop makes of any digits: overflow is reported at the first digit
      that lowers the 32-bit result, where reading stops, and otherwise the result is the
      number modulo 2^32 and reading stops behind the digits. */
  lemma {:induction false} ParseAny(s: seq<char>, i: nat, ds: seq<nat>, upper: bool, b: nat, k: nat)
    requires 2 <= b && Shows(s, i, ds, upper, b) && k <= |ds|
    ensures ParseDigits(s, i + k, b, Residue(ds, b, k)) == if Rises(ds, b, k) then Done(Residue(ds, b, |ds|)) else Overflow
    ensures Rises(ds, b, k) <==> DigitsEnd(s, i + k, b, Residue(ds, b, k)) == i + |ds|
    decreases |ds| - k
  {
    if k < |ds| {
      DigitOfChar(ds[k], upper);
      assert s[i + k] == DigitChar(ds[k], upper);
      ResidueSnoc(ds, b, k);
      DigitTaken(s, i + k, b, ds[k], Residue(ds, b, k), Residue(ds, b, k + 1));
      ParseAny(s, i, ds, upper, b, k + 1);
      RisesFirst(ds, b, k);
    }
  }

  lemma ResidueSnoc(ds: seq<nat>, b: nat, k: nat)
    requires k < |ds|
    ensures Residue(ds, b, k + 1) == (Residue(ds, b, k) * b + ds[k]) % 0x1_0000_0000
  {
    assert ds[..k + 1] == ds[..k] + [ds[k]];
    ValueSnoc(ds[..k], ds[k], b);
    ResidueNext(Value(ds[..k], b), b, ds[k]);
  }

  /** One digit: reading stops at it with overflow, or goes on behind it. */
  lemma DigitTaken(s: seq<char>, i: nat, b: nat, d: nat, acc: nat, next: nat)
    requires 2 <= b && i < |s| && d < b && s[i] >= '0' && DigitOf(s[i]) == d && next == (acc * b + d) % 0x1_0000_0000
    ensures ParseDigits(s, i, b, acc) == if next < acc then Overflow else ParseDigits(s, i + 1, b, next)
    ensures DigitsEnd(s, i, b, acc) == if next < acc then i else DigitsEnd(s, i + 1, b, next)
  {
  }

  lemma RisesFirst(ds: seq<nat>, b: nat, k: nat)
    requires k < |ds|
    ensures Rises(ds, b, k) <==> Residue(ds, b, k) <= Residue(ds, b, k + 1) && Rises(ds, b, k + 1)
  {
  }

  /** The whole run of the loop over digits shown. */
  lemma ParseShownDigits(s: seq<char>, i: nat, ds: seq<nat>, upper: bool, b: nat)
    requires 2 <= b && Shows(s, i, ds, upper, b)
    ensures ParseDigits(s, i, b, 0) == if Rises(ds, b, 0) then Done(Value(ds, b) % 0x1_0000_0000) else Overflow
    ensures Rises(ds, b, 0) <==> DigitsEnd(s, i, b, 0) == i + |ds|
  {
    assert ds[..0] == [] && ds[..|ds|] == ds;
    assert Residue(ds, b, 0) == 0 && Residue(ds, b, |ds|) == Value(ds, b) % 0x1_0000_0000;
    ParseAny(s, i, ds, upper, b, 0);
  }

  lemma {:induction false} RisesWhenItFits(ds: seq<nat>, b: nat)
    requires b >= 1 && Value(ds, b) < 0x1_0000_0000
    ensures Rises(ds, b, 0)
  {
    forall j | 0 <= j < |ds| ensures Residue(ds, b, j) <= Residue(ds, b, j + 1) {
      ValuePrefix(ds, j + 1, b);
      ValuePrefix(ds[..j + 1], j, b);
      assert ds[..j + 1][..j] == ds[..j];
      ModSmall(Value(ds[..j], b), 0x1_0000_0000);
      ModSmall(Value(ds[..j + 1], b), 0x1_0000_0000);
    }
  }

  /** The loop's value is the number when it fits 32 bits and reported overflow when it
      does not, if and only if the number fits or some digit lowers the 32-bit result. */
  lemma OverflowExact(s: seq<char>, i: nat, ds: seq<nat>, upper: bool, b: nat)
    requires 2 <= b && Shows(s, i, ds, upper, b)
    ensures var v := Value(ds, b);
            ParseDigits(s, i, b, 0) == (if v < 0x1_0000_0000 then Done(v) else Overflow) <==>
            v < 0x1_0000_0000 || !Rises(ds, b, 0)
  {
    ParseShownDigits(s, i, ds, upper, b);
    if Value(ds, b) < 0x1_0000_0000 {
      RisesWhenItFits(ds, b);
      ModSmall(Value(ds, b), 0x1_0000_0000);
    }
  }

  /** With the end pointer behind the digits as well it is right exactly for numbers that
      fit: where overflow is reported the pointer is left at the digit that showed it. */
  lemma ValueAndEndExact(s: seq<char>, i: nat, ds: seq<nat>, upper: bool, b: nat)
    requires 2 <= b && Shows(s, i, ds, upper, b)
    ensures var v := Value(ds, b);
            (ParseDigits(s, i, b, 0) == (if v < 0x1_0000_0000 then Done(v) else Overflow)
             && DigitsEnd(s, i, b, 0) == i + |ds|) <==> v < 0x1_0000_0000
  {
    OverflowExact(s, i, ds, upper, b);
    ParseShownDigits(s, i, ds, upper, b);
    if Value(ds, b) < 0x1_0000_0000 {
      RisesWhenItFits(ds, b);
    }
  }

  lemma ZeroAppended(s: seq<char>, i: nat, acc: nat, next: nat)
    requires i < |s| && s[i] == '0' && acc <= next == acc * 10 % 0x1_0000_0000
    ensures ParseDigits(s, i, 10, acc) == ParseDigits(s, i + 1, 10, next)
  {
  }

  lemma ThreeZeros(s: seq<char>, i: nat, acc: nat)
    requires i + 3 <= |s| && s[i] == s[i + 1] == s[i + 2] == '0' && acc * 1000 < 0x1_0000_0000
    ensures ParseDigits(s, i, 10, acc) == ParseDigits(s, i + 3, 10, acc * 1000)
  {
    ZeroAppended(s, i, acc, acc * 10);
    ZeroAppended(s, i + 1, acc * 10, acc * 100);
    ZeroAppended(s, i + 2, acc * 100, acc * 1000);
  }

  /** A wrapped result that is larger than the one before goes unnoticed: "5000000000". */
  lemma OverflowWitness(s: seq<char>)
    requires |s| == 10 && s[0] == '5' && forall j :: 1 <= j < 10 ==> s[j] == '0'
    ensures Strtoul(s, 10) == 705032704
  {
    ThreeZeros(s, 1, 5);
    ThreeZeros(s, 4, 5000);
    ZeroAppended(s, 7, 5000000, 50000000);
    ZeroAppended(s, 8, 50000000, 500000000);
    ZeroAppended(s, 9, 500000000, 705032704);
    assert Unsigned(s, 0, 10) == Done(705032704);
  }

  lemma {:induction false} ZerosInFront(n: nat, ds: seq<nat>, b: nat)
    ensures Value(Repeat(0, n) + ds, b) == Value(ds, b)
    decreases n
  {
    if n == 0 {
      assert Repeat(0, 0) + ds == ds;
    } else {
      assert Repeat(0, n) + ds == [0] + (Repeat(0, n - 1) + ds);
      ValueCons(0, Repeat(0, n - 1) + ds, b);
      ZerosInFront(n - 1, ds, b);
    }
  }

  lemma {:induction false} BlanksSkipped(s: seq<char>, i: nat, k: nat)
    requires i + k <= |s| && forall j :: i <= j < i + k ==> s[j] == ' '
    ensures SkipBlanks(s, i) == SkipBlanks(s, i + k)
    decreases k
  {
    if k > 0 {
      BlanksSkipped(s, i + 1, k - 1);
    }
  }

  /** Padding, perhaps a minus, decimal digits, padding. */
  predicate Laid(s: seq<char>, pad: nat, minus: bool, ds: seq<nat>) {
    && |ds| > 0
    && (forall j :: 0 <= j < pad && j < |s| ==> s[j] == ' ')
    && (minus ==> At(s, pad) == '-')
    && Shows(s, if minus then pad + 1 else pad, ds, false, 10)
    && (var end := (if minus then pad + 1 else pad) + |ds|; At(s, end) == ' ' || At(s, end) == '\0')
  }

  lemma DecimalChar(d: nat, upper: bool)
    requires d < 10
    ensures !IsBlank(DigitChar(d, upper)) && '0' <= DigitChar(d, upper) <= '9'
    ensures DigitChar(d, upper) == '0' <==> d == 0
  {
  }

  /** The leading zero that strtoul takes for a prefix does not change the value. */
  lemma UnsignedLaid(s: seq<char>, first: nat, ds: seq<nat>)
    requires |ds| > 0 && Shows(s, first, ds, false, 10) && Value(ds, 10) < 0x1_0000_0000
    requires At(s, first + |ds|) == ' ' || At(s, first + |ds|) == '\0'
    ensures Unsigned(s, first, 10) == Done(Value(ds, 10))
  {
    DecimalChar(ds[0], false);
    assert s[first + 0] == DigitChar(ds[0], false);
    if ds[0] == 0 {
      ShownBehindZero(s, first, ds);
      DropZero(ds);
      ParseAll(s, first + 1, ds[1..]);
    } else {
      ParseAll(s, first, ds);
    }
    DecimalPrefix(s, first);
  }

  lemma DecimalPrefix(s: seq<char>, first: nat)
    requires At(s, first) == '0' ==> At(s, first + 1) != 'x' && At(s, first + 1) != 'X'
    ensures Unsigned(s, first, 10) == ParseDigits(s, if At(s, first) == '0' then first + 1 else first, 10, 0)
  {
  }

  lemma DropZero(ds: seq<nat>)
    requires |ds| > 0 && ds[0] == 0
    ensures Value(ds[1..], 10) == Value(ds, 10)
  {
    assert ds == [0] + ds[1..];
    ValueCons(0, ds[1..], 10);
  }

  lemma ParseAll(s: seq<char>, i: nat, ds: seq<nat>)
    requires Shows(s, i, ds, false, 10) && Value(ds, 10) < 0x1_0000_0000
    ensures ParseDigits(s, i, 10, 0) == Done(Value(ds, 10))
  {
    ParseShown(s, i, ds, false, 10, 0);
    assert ds[..0] == [];
  }

  lemma ShownBehindZero(s: seq<char>, first: nat, ds: seq<nat>)
    requires |ds| > 0 && Shows(s, first, ds, false, 10)
    requires At(s, first + |ds|) == ' ' || At(s, first + |ds|) == '\0'
    ensures Shows(s, first + 1, ds[1..], false, 10)
    ensures At(s, first + 1) != 'x' && At(s, first + 1) != 'X'
  {
    var rest := ds[1..];
    if |ds| > 1 {
      DecimalChar(ds[1], false);
      assert s[first + 1] == DigitChar(ds[1], false);
    }
    forall j | 0 <= j < |rest| ensures s[first + 1 + j] == DigitChar(rest[j], false) {
      assert s[first + (j + 1)] == DigitChar(ds[j + 1], false);
    }
  }

  /** Any such text reads as the number its digits stand for. */
  lemma StrtoulLaid(s: seq<char>, pad: nat, minus: bool, ds: seq<nat>)
    requires Laid(s, pad, minus, ds) && Value(ds, 10) < 0x1_0000_0000
    ensures Strtoul(s, 10) == if minus then Negated(Value(ds, 10)) else Value(ds, 10)
  {
    var first := if minus then pad + 1 else pad;
    BlanksSkipped(s, 0, pad);
    DecimalChar(ds[0], false);
    assert s[first + 0] == DigitChar(ds[0], false);
    assert SkipBlanks(s, 0) == pad;
    UnsignedLaid(s, first, ds);
  }

  /** The text begins with `pad` blanks and a sign, if there is one; what follows is
      neither. */
  predicate Headed(s: seq<char>, pad: nat, sign: string) {
    && pad + |sign| < |s| && sign in ["", "+", "-"]
    && (forall j :: 0 <= j < pad ==> s[j] in [' ', '\t', '\n', '\r', 11 as char, 12 as char])
    && s[pad..pad + |sign|] == sign
    && (sign == "" ==> s[pad] !in [' ', '\t', '\n', '\r', 11 as char, 12 as char, '+', '-'])
  }

  /** How section 7.20.1.4 of ISO C99 reads a prefix: the base meant and where the digits
      begin. */
  predicate Prefixed(s: seq<char>, first: nat, base: nat, b: nat, start: nat) {
    if At(s, first) == '0' && At(s, first + 1) in ['x', 'X'] then base in [0, 16] && b == 16 && start == first + 2
    else if At(s, first) == '0' then b == (if base == 0 then 8 else base) && start == first + 1
    else b == (if base == 0 then 10 else base) && start == first
  }

  /** strtoul on any text that shows digits behind blanks, sign and prefix, in every base:
      the number, negated in 32 bits behind a minus, and the end behind the digits; where a
      digit lowers the 32-bit result, the largest number, whatever the sign. */
  lemma StrtoulReads(s: seq<char>, pad: nat, sign: string, base: nat, b: nat, start: nat, ds: seq<nat>, upper: bool)
    requires Headed(s, pad, sign) && Prefixed(s, pad + |sign|, base, b, start) && (base == 0 || 2 <= base <= 36)
    requires Shows(s, start, ds, upper, b)
    ensures var v := Value(ds, b) % 0x1_0000_0000;
            if !Rises(ds, b, 0) then Strtoul(s, base) == 0xFFFF_FFFF
            else Strtoul(s, base) == (if sign == "-" then (0x1_0000_0000 - v) % 0x1_0000_0000 else v)
                 && StrtoulEnd(s, base) == start + |ds|
  {
    HeadRead(s, pad, sign);
    PrefixRead(s, pad + |sign|, base, b, start);
    ParseShownDigits(s, start, ds, upper, b);
    AfterHead(s, pad, sign, base, b, start);
    SignedRead(ParseDigits(s, start, b, 0), Rises(ds, b, 0), Value(ds, b) % 0x1_0000_0000, sign == "-");
  }

  lemma SignedRead(p: Parsed, fits: bool, v: nat, minus: bool)
    requires v < 0x1_0000_0000 && p == if fits then Done(v) else Overflow
    ensures Signed(p, minus) ==
              if !fits then 0xFFFF_FFFF else if minus then (0x1_0000_0000 - v) % 0x1_0000_0000 else v
  {
    NegatedRead(v);
  }

  lemma PrefixRead(s: seq<char>, first: nat, base: nat, b: nat, start: nat)
    requires Prefixed(s, first, base, b, start) && (base == 0 || 2 <= base <= 36)
    ensures Prefix(s, first, base) == (b, start) && b >= 2
  {
  }

  lemma AfterHead(s: seq<char>, pad: nat, sign: string, base: nat, b: nat, start: nat)
    requires SkipBlanks(s, 0) == pad && sign in ["", "+", "-"]
    requires (At(s, pad) == '-' <==> sign == "-") && (At(s, pad) == '+' <==> sign == "+")
    requires (base == 0 || 2 <= base <= 36) && Prefix(s, pad + |sign|, base) == (b, start) && b >= 2
    ensures Strtoul(s, base) == Signed(ParseDigits(s, start, b, 0), sign == "-")
    ensures StrtoulEnd(s, base) == DigitsEnd(s, start, b, 0)
  {
  }

  lemma NegatedRead(v: nat)
    requires v < 0x1_0000_0000
    ensures Negated(v) == (0x1_0000_0000 - v) % 0x1_0000_0000
  {
  }

  lemma HeadRead(s: seq<char>, pad: nat, sign: string)
    requires Headed(s, pad, sign)
    ensures SkipBlanks(s, 0) == pad && (At(s, pad) == '-' <==> sign == "-") && (At(s, pad) == '+' <==> sign == "+")
  {
    if sign != "" {
      assert s[pad] == s[pad..pad + |sign|][0] == sign[0];
    }
    AnyBlanksSkipped(s, 0, pad);
  }

  lemma {:induction false} AnyBlanksSkipped(s: seq<char>, i: nat, k: nat)
    requires i + k < |s| && !IsBlank(s[i + k])
    requires forall j :: i <= j < i + k ==> s[j] in [' ', '\t', '\n', '\r', 11 as char, 12 as char]
    ensures SkipBlanks(s, i) == i + k
    decreases k
  {
    if k > 0 {
      AnyBlanksSkipped(s, i + 1, k - 1);
    }
  }

  /** So ":" reads as ten in base 16, where ISO C99 has no digits at all. */
  lemma PunctuationWitness()
    ensures Strtoul(":", 16) == 10 && StrtoulEnd(":", 16) == 1
  {
    var s := ":";
    assert ParseDigits(s, 1, 16, 10) == Done(10) && DigitsEnd(s, 1, 16, 10) == 1;
    assert ParseDigits(s, 0, 16, 0) == Done(10) && DigitsEnd(s, 0, 16, 0) == 1;
    assert SkipBlanks(s, 0) == 0;
  }

  /** A hexadecimal prefix in any other base, and a base outside 2 to 36, are refused. */
  lemma StrtoulRefuses(s: seq<char>, pad: nat, sign: string, base: nat)
    requires base == 1 || base > 36 ||
             (base !in [0, 16] && Headed(s, pad, sign)
              && At(s, pad + |sign|) == '0' && At(s, pad + |sign| + 1) in ['x', 'X'])
    ensures Strtoul(s, base) == 0 && StrtoulEnd(s, base) == 0
  {
    if base != 1 && base <= 36 {
      HeadRead(s, pad, sign);
    }
  }

  // ---------------------------------------------------------------- writing

  /** What one conversion of vsprintf works on.  prec < 0 is no precision. */
  datatype Spec = Spec(left: bool, zero: bool, width: nat, prec: int)

  /** Zeros in front of a number for its precision, or the part of a string to print. */
  function PrecZeros(f: Spec, numeric: bool, len: nat): nat {
    if numeric && f.prec > len then f.prec - len else 0
  }

  function Printed(f: Spec, numeric: bool, body: seq<char>): seq<char> {
    if !numeric && 0 <= f.prec < |body| then body[..f.prec] else body
  }

  /** len_nonpadding */
  function Content(f: Spec, numeric: bool, minus: bool, body: seq<char>): nat {
    |Printed(f, numeric, body)| + PrecZeros(f, numeric, |Printed(f, numeric, body)|) + (if minus then 1 else 0)
  }

  /** The padding character that is left of the flags. */
  predicate PadsWithZero(f: Spec, numeric: bool) { f.zero && !f.left && !(numeric && f.prec >= 0) }

  function Padding(f: Spec, numeric: bool, minus: bool, body: seq<char>): nat {
    if Content(f, numeric, minus, body) < f.width then f.width - Content(f, numeric, minus, body) else 0
  }

  /** The zeros printed behind the sign: padding zeros take the place of the others. */
  function Zeros(f: Spec, numeric: bool, minus: bool, body: seq<char>): nat {
    if PadsWithZero(f, numeric) then Padding(f, numeric, minus, body)
    else PrecZeros(f, numeric, |Printed(f, numeric, body)|)
  }

  function Blanks(f: Spec, numeric: bool, minus: bool, body: seq<char>): nat {
    if PadsWithZero(f, numeric) then 0 else Padding(f, numeric, minus, body)
  }

  /** Blanks, a sign, zeros, text, blanks. */
  function Layout(before: nat, minus: bool, zeros: nat, text: seq<char>, after: nat): (s: seq<char>)
    ensures |s| == before + (if minus then 1 else 0) + zeros + |text| + after
  {
    Repeat(' ', before) + (if minus then ['-'] else []) + Repeat('0', zeros) + text + Repeat(' ', after)
  }

  function Field(f: Spec, numeric: bool, minus: bool, body: seq<char>): seq<char> {
    var b := Blanks(f, numeric, minus, body);
    Layout(if f.left then 0 else b, minus, Zeros(f, numeric, minus, body), Printed(f, numeric, body), if f.left then b else 0)
  }

  /** Every field is as long as its width or its content, whichever is longer. */
  lemma FieldLength(f: Spec, numeric: bool, minus: bool, body: seq<char>)
    ensures var c := Content(f, numeric, minus, body);
            |Field(f, numeric, minus, body)| == if f.width > c then f.width else c
  {
  }

  /** The number with zeros up to its precision, or the string cut to it. */
  function Precise(f: Spec, numeric: bool, body: seq<char>): seq<char> {
    if f.prec < 0 then body
    else if numeric then Repeat('0', if f.prec > |body| then f.prec - |body| else 0) + body
    else if f.prec < |body| then body[..f.prec] else body
  }

  /** What section 7.19.6.1 of ISO C99 asks of a field: left-justified, blanks behind; else
      with the 0 flag, which a precision cancels for numbers, zeros behind the sign; else
      blanks in front. */
  lemma FieldExact(f: Spec, numeric: bool, minus: bool, body: seq<char>)
    ensures var sign, text := if minus then ['-'] else [], Precise(f, numeric, body);
            var room := if f.width > |sign| + |text| then f.width - |sign| - |text| else 0;
            Field(f, numeric, minus, body) ==
              if f.left then sign + text + Repeat(' ', room)
              else if f.zero && !(numeric && f.prec >= 0) then sign + Repeat('0', room) + text
              else Repeat(' ', room) + sign + text
  {
    var sign, text := if minus then ['-'] else [], Precise(f, numeric, body);
    var printed, z, b := Printed(f, numeric, body), Zeros(f, numeric, minus, body), Blanks(f, numeric, minus, body);
    PreciseLaid(f, numeric, body);
    assert Content(f, numeric, minus, body) == |sign| + |text|;
    if f.left {
      LayoutShape(0, minus, z, printed, b);
    } else {
      LayoutShape(b, minus, z, printed, 0);
    }
  }

  lemma LayoutShape(before: nat, minus: bool, zeros: nat, text: seq<char>, after: nat)
    ensures var sign := if minus then ['-'] else [];
            && (before == 0 ==> Layout(before, minus, zeros, text, after) == sign + (Repeat('0', zeros) + text) + Repeat(' ', after))
            && (after == 0 ==> Layout(before, minus, zeros, text, after) == Repeat(' ', before) + sign + (Repeat('0', zeros) + text))
            && (before == after == 0 ==> Layout(before, minus, zeros, text, after) == sign + Repeat('0', zeros) + text)
  {
  }

  lemma PreciseLaid(f: Spec, numeric: bool, body: seq<char>)
    ensures var printed := Printed(f, numeric, body);
            && Precise(f, numeric, body) == Repeat('0', PrecZeros(f, numeric, |printed|)) + printed
            && (PadsWithZero(f, numeric) ==> Precise(f, numeric, body) == printed)
  {
  }

  /** "%d" with any flags, width and precision, of a 32-bit int. */
  function FormatInt(f: Spec, x: int): seq<char> {
    Field(f, true, x < 0, Numeral(if x < 0 then -x else x, 10, false))
  }

  lemma {:induction false} NumeralAt(n: nat, j: nat)
    requires j < |Digits(n, 10)|
    ensures |Numeral(n, 10, false)| == |Digits(n, 10)| && Digits(n, 10)[j] < 10
    ensures Numeral(n, 10, false)[j] == DigitChar(Digits(n, 10)[j], false)
    decreases n
  {
    NumeralChars(n, 10, false);
    DigitsRight(n, 10);
    CharsAt(Digits(n, 10), j);
  }

  lemma {:induction false} CharsAt(ds: seq<nat>, j: nat)
    requires IsDigits(ds, 36) && j < |ds|
    ensures Chars(ds, false)[j] == DigitChar(ds[j], false)
    decreases |ds|
  {
    if j < |ds| - 1 {
      CharsAt(ds[..|ds| - 1], j);
    }
  }

  lemma NumeralShown(n: nat)
    ensures |Numeral(n, 10, false)| == |Digits(n, 10)| && IsDigits(Digits(n, 10), 10)
    ensures forall j :: 0 <= j < |Digits(n, 10)| ==> Numeral(n, 10, false)[j] == DigitChar(Digits(n, 10)[j], false)
  {
    NumeralAt(n, 0);
    DigitsRight(n, 10);
    forall j | 0 <= j < |Digits(n, 10)| ensures Numeral(n, 10, false)[j] == DigitChar(Digits(n, 10)[j], false) {
      NumeralAt(n, j);
    }
  }

  /** A text piece by piece. */
  predicate Pieces(s: seq<char>, before: nat, minus: bool, zeros: nat, text: seq<char>) {
    var first := before + (if minus then 1 else 0);
    && first + zeros + |text| <= |s|
    && (forall j :: 0 <= j < before ==> s[j] == ' ') && (minus ==> s[before] == '-')
    && (forall j :: first <= j < first + zeros ==> s[j] == '0')
    && s[first + zeros..first + zeros + |text|] == text
    && (At(s, first + zeros + |text|) == ' ' || At(s, first + zeros + |text|) == '\0')
  }

  lemma LayoutPieces(before: nat, minus: bool, zeros: nat, text: seq<char>, after: nat)
    ensures Pieces(Layout(before, minus, zeros, text, after), before, minus, zeros, text)
  {
  }

  lemma PiecesLaid(s: seq<char>, before: nat, minus: bool, zeros: nat, text: seq<char>, ds: seq<nat>)
    requires Pieces(s, before, minus, zeros, text) && |ds| == |text| > 0 && IsDigits(ds, 10)
    requires forall j :: 0 <= j < |ds| ==> text[j] == DigitChar(ds[j], false)
    ensures Laid(s, before, minus, Repeat(0, zeros) + ds)
  {
    var first := before + (if minus then 1 else 0);
    var all := Repeat(0, zeros) + ds;
    forall j | 0 <= j < |all| ensures all[j] < 10 && s[first + j] == DigitChar(all[j], false) {
      if j >= zeros {
        assert all[j] == ds[j - zeros];
        assert s[first + zeros..first + zeros + |text|][j - zeros] == text[j - zeros];
      }
    }
  }

  /** A number laid out with any padding reads back as that number. */
  lemma LayoutReads(before: nat, minus: bool, zeros: nat, n: nat, after: nat)
    requires n < 0x1_0000_0000
    ensures Strtoul(Layout(before, minus, zeros, Numeral(n, 10, false), after), 10) == if minus then Negated(n) else n
  {
    var text, ds := Numeral(n, 10, false), Digits(n, 10);
    var s := Layout(before, minus, zeros, text, after);
    NumeralShown(n);
    LayoutPieces(before, minus, zeros, text, after);
    PiecesLaid(s, before, minus, zeros, text, ds);
    ZerosInFront(zeros, ds, 10);
    DigitsRight(n, 10);
    StrtoulLaid(s, before, minus, Repeat(0, zeros) + ds);
  }

  /** Print then parse is the identity: for every 32-bit int, the minimum included,
      and every combination of flags, width and precision. */
  lemma PrintThenParse(f: Spec, x: int)
    requires -0x8000_0000 <= x < 0x8000_0000
    ensures Atoi(FormatInt(f, x)) == x
  {
    var n: nat := if x < 0 then -x else x;
    FieldReads(f, x < 0, n);
    SignBack(x, n);
  }

  lemma FieldReads(f: Spec, minus: bool, n: nat)
    requires n < 0x1_0000_0000
    ensures Strtoul(Field(f, true, minus, Numeral(n, 10, false)), 10) == if minus then Negated(n) else n
  {
    var body := Numeral(n, 10, false);
    var z, b := Zeros(f, true, minus, body), Blanks(f, true, minus, body);
    LayoutReads(if f.left then 0 else b, minus, z, n, if f.left then b else 0);
  }

  lemma SignBack(x: int, n: nat)
    requires -0x8000_0000 <= x < 0x8000_0000 && n == if x < 0 then -x else x
    ensures var u := if x < 0 then Negated(n) else n; (if u >= 0x8000_0000 then u - 0x1_0000_0000 else u) == x
  {
  }

  // ---------------------------------------------------------------- the output loops

  /** `*buf++ = c; chars_written++`, n times. */
  method EmitRepeat(buf: array<char>, pos: nat, count: nat, c: char, n: nat) returns (end: nat, count': nat)
    requires pos + n <= buf.Length
    modifies buf
    ensures end == pos + n && buf[..end] == old(buf[..pos]) + Repeat(c, n)
    ensures count' - count == end - pos
  {
    end, count' := pos, count;
    for i := 0 to n
      invariant end == pos + i && buf[..end] == old(buf[..pos]) + Repeat(c, i)
      invariant count' - count == end - pos
    {
      buf[end] := c;
      end := end + 1;
      count' := count' + 1;
    }
  }

  method EmitText(buf: array<char>, pos: nat, count: nat, text: seq<char>) returns (end: nat, count': nat)
    requires pos + |text| <= buf.Length
    modifies buf
    ensures end == pos + |text| && buf[..end] == old(buf[..pos]) + text
    ensures count' - count == end - pos
  {
    end, count' := pos, count;
    for i := 0 to |text|
      invariant end == pos + i && buf[..end] == old(buf[..pos]) + text[..i]
      invariant count' - count == end - pos
    {
      buf[end] := text[i];
      end := end + 1;
      count' := count' + 1;
    }
    assert text[..|text|] == text;
  }

  method EmitLayout(buf: array<char>, pos: nat, count: nat, before: nat, minus: bool, zeros: nat, text: seq<char>, after: nat)
    returns (end: nat, count': nat)
    requires pos + |Layout(before, minus, zeros, text, after)| <= buf.Length
    modifies buf
    ensures end == pos + |Layout(before, minus, zeros, text, after)|
    ensures buf[..end] == old(buf[..pos]) + Layout(before, minus, zeros, text, after)
    ensures count' - count == end - pos
  {
    end, count' := EmitRepeat(buf, pos, count, ' ', before);
    end, count' := EmitText(buf, end, count', if minus then ['-'] else []);
    end, count' := EmitRepeat(buf, end, count', '0', zeros);
    end, count' := EmitText(buf, end, count', text);
    end, count' := EmitRepeat(buf, end, count', ' ', after);
  }

  /** The length computations of vsprintf. */
  method Measure(f: Spec, numeric: bool, minus: bool, body: seq<char>) returns (text: seq<char>, zeros: nat, padding: nat)
    ensures text == Printed(f, numeric, body) && zeros == Zeros(f, numeric, minus, body)
    ensures padding == Blanks(f, numeric, minus, body)
  {
    var padChar := if f.left then ' ' else if f.zero then '0' else ' ';
    text, zeros := body, 0;
    if f.prec >= 0 {
      if !numeric {
        if f.prec < |text| {
          text := text[..f.prec];
        }
      } else {
        if f.prec > |text| {
          zeros := f.prec - |text|;
        }
        padChar := ' ';
      }
    }
    var content := |text| + zeros + (if minus then 1 else 0);
    padding := if content < f.width then f.width - content else 0;
    if !f.left && padChar == '0' {
      zeros, padding := padding, 0;
    }
  }

  /** The output part of vsprintf's conversion: the field is appended, and chars_written,
      counted at each output, grows by the number of characters written. */
  method EmitField(buf: array<char>, pos: nat, count: nat, f: Spec, numeric: bool, minus: bool, body: seq<char>)
    returns (end: nat, count': nat)
    requires pos + |Field(f, numeric, minus, body)| <= buf.Length
    modifies buf
    ensures end == pos + |Field(f, numeric, minus, body)|
    ensures buf[..end] == old(buf[..pos]) + Field(f, numeric, minus, body)
    ensures count' - count == end - pos
  {
    var text, zeros, padding := Measure(f, numeric, minus, body);
    end, count' := EmitLayout(buf, pos, count, if f.left then 0 else padding, minus, zeros, text, if f.left then padding else 0);
  }
}
