/** __bitfield of src/sd_card.c: a field of up to 32 bits taken from a card register
    byte by byte, against division and remainder of the little-endian number. */
module BitField {
  import opened Common
  import opened Arith
  import opened Numerals

  /** The number a byte array holds, least significant byte first. */
  function LittleEndian(s: seq<byte>): nat {
    if s == [] then 0 else (s[0] as int) + 256 * LittleEndian(s[1..])
  }

  /** put4: a 32-bit value, least significant byte first. */
  function Put4(v: nat): (r: seq<byte>)
    ensures |r| == 4
  {
    [v % 0x100, v / 0x100 % 0x100, v / 0x10000 % 0x100, v / 0x100_0000 % 0x100]
  }

  lemma FourBytes(s: seq<byte>)
    requires |s| == 4
    ensures LittleEndian(s) == (s[0] as int) + 0x100 * (s[1] as int) + 0x10000 * (s[2] as int) + 0x100_0000 * (s[3] as int)
  {
    assert s[1..][1..] == s[2..] && s[2..][1..] == s[3..] && s[3..][1..] == [];
    assert LittleEndian(s[3..]) == s[3];
    assert LittleEndian(s[2..]) == s[2] + 0x100 * LittleEndian(s[3..]);
    assert LittleEndian(s[1..]) == s[1] + 0x100 * LittleEndian(s[2..]);
  }

  /** The four bytes stand for the value. */
  lemma Put4Reads(v: nat)
    requires v < 0x1_0000_0000
    ensures LittleEndian(Put4(v)) == v
  {
    FourBytes(Put4(v));
    SplitBytes(v);
  }

  lemma SplitBytes(v: nat)
    requires v < 0x1_0000_0000
    ensures v == v % 0x100 + 0x100 * (v / 0x100 % 0x100) + 0x10000 * (v / 0x10000 % 0x100) + 0x100_0000 * (v / 0x100_0000 % 0x100)
  {
    assert v / 0x10000 == v / 0x100 / 0x100 && v / 0x100_0000 == v / 0x10000 / 0x100;
  }

  /** Bitwise or of two naturals. */
  function BitOr(x: nat, y: nat): nat {
    if x == 0 then y else if y == 0 then x
    else 2 * BitOr(x / 2, y / 2) + (if x % 2 == 1 || y % 2 == 1 then 1 else 0)
  }

  // ---------------------------------------------------------------- arithmetic

  lemma PowAdd(j: nat, k: nat)
    ensures Pow(2, j + k) == Pow(2, j) * Pow(2, k)
    decreases k
  {
    if k > 0 {
      PowAdd(j, k - 1);
      Doubled(Pow(2, j), Pow(2, k - 1), Pow(2, k));
    }
  }

  lemma Doubled(a: nat, b: nat, c: nat)
    requires c == b * 2
    ensures a * b * 2 == a * c
  {
  }

  /** The k lowest bits are zero. */
  predicate LowZero(w: nat, k: nat) { k == 0 || (w % 2 == 0 && LowZero(w / 2, k - 1)) }

  lemma {:induction false} ShiftedLowZero(y: nat, k: nat)
    ensures LowZero(y * Pow(2, k), k)
    decreases k
  {
    if k > 0 {
      ShiftedLowZero(y, k - 1);
      Halved(y * Pow(2, k), y * Pow(2, k - 1), k) by {
        Doubled(y, Pow(2, k - 1), Pow(2, k));
      }
    }
  }

  lemma Halved(w: nat, z: nat, k: nat)
    requires k > 0 && w == z * 2 && LowZero(z, k - 1)
    ensures LowZero(w, k)
  {
    assert w / 2 == z && w % 2 == 0;
  }

  lemma {:induction false} OrApart(x: nat, w: nat, k: nat)
    requires x < Pow(2, k) && LowZero(w, k)
    ensures BitOr(x, w) == x + w
    decreases k
  {
    if k > 0 {
      OrApart(x / 2, w / 2, k - 1);
    }
  }

  lemma OrDisjoint(x: nat, y: nat, k: nat)
    requires x < Pow(2, k)
    ensures BitOr(x, y * Pow(2, k)) == x + y * Pow(2, k)
  {
    ShiftedLowZero(y, k);
    OrApart(x, y * Pow(2, k), k);
  }

  lemma DivDiv(x: nat, a: nat, b: nat)
    requires a > 0 && b > 0
    ensures a * b > 0 && x / a / b == x / (a * b)
  {
    DivFacts(x, a);
    var q, r := x / a, x % a;
    DivFacts(q, b);
    var q', r' := q / b, q % b;
    ScaleBounds(r', r, a, b, 0);
    assert q * a == q' * b * a + r' * a;
    assert q' * b * a == q' * (a * b) && b * a == a * b;
    Cut(x, a * b, q', r' * a + r);
  }

  lemma ModTail(x: nat, y: nat, p: nat, m: nat)
    requires m > 0
    ensures (x + p * m * y) % m == x % m
  {
    DivFacts(x, m);
    assert p * m * y == p * y * m;
    assert x + p * m * y == (x / m + p * y) * m + x % m;
    Cut(x + p * m * y, m, x / m + p * y, x % m);
  }

  lemma Regroup(dst: nat, p: nat, low: nat, r: nat, ahead: nat)
    ensures dst + p * (low + r * ahead) == (dst + low * p) + p * r * ahead
  {
    assert p * (low + r * ahead) == p * low + p * (r * ahead);
    assert p * (r * ahead) == p * r * ahead;
  }

  lemma SplitScaled(q: nat, r: nat, l: nat, p: nat)
    ensures (q * r + l) * p == q * (p * r) + l * p
  {
    assert (q * r + l) * p == q * r * p + l * p;
    assert q * r * p == q * (r * p) == q * (p * r);
  }

  // ---------------------------------------------------------------- the field

  /** Dropping whole bytes divides by powers of 256. */
  lemma {:induction false} DropBytes(s: seq<byte>, k: nat)
    requires k <= |s|
    ensures Pow(2, 8 * k) > 0 && LittleEndian(s) / Pow(2, 8 * k) == LittleEndian(s[k..])
    decreases k
  {
    PowPositive(2, 8 * k);
    if k == 0 {
      assert s[0..] == s;
      Cut(LittleEndian(s), 1, LittleEndian(s), 0);
    } else {
      PowPositive(2, 8 * (k - 1));
      PowAdd(8, 8 * (k - 1));
      Pow256();
      DropBytes(s[1..], k - 1);
      assert s[1..][k - 1..] == s[k..];
      DivDiv(LittleEndian(s), 256, Pow(2, 8 * (k - 1)));
      Cut(LittleEndian(s), 256, LittleEndian(s[1..]), s[0]);
    }
  }

  lemma Pow256()
    ensures Pow(2, 8) == 256
  {
    assert Pow(2, 4) == 16;
    PowAdd(4, 4);
  }

  /** The number from bit `start` on, as the loop meets it. */
  function From(s: seq<byte>, start: nat): nat
    requires start <= 8 * |s|
  {
    PowPositive(2, start % 8);
    DivFacts(LittleEndian(s[start / 8..]), Pow(2, start % 8));
    LittleEndian(s[start / 8..]) / Pow(2, start % 8)
  }

  lemma FromIsQuotient(s: seq<byte>, start: nat)
    requires start <= 8 * |s|
    ensures Pow(2, start) > 0 && From(s, start) == LittleEndian(s) / Pow(2, start)
  {
    var k, b := start / 8, start % 8;
    assert start == 8 * k + b;
    Divided(LittleEndian(s), LittleEndian(s[k..]), 8 * k, b) by {
      DropBytes(s, k);
    }
  }

  lemma Divided(n: nat, t: nat, j: nat, b: nat)
    requires Pow(2, j) > 0 && n / Pow(2, j) == t
    ensures Pow(2, b) > 0 && Pow(2, j + b) > 0 && t / Pow(2, b) == n / Pow(2, j + b)
  {
    PowPositive(2, j + b);
    PowPositive(2, b);
    PowAdd(j, b);
    Quotient(n, Pow(2, j), Pow(2, b), Pow(2, j + b), t);
  }

  lemma Quotient(n: nat, a: nat, b: nat, c: nat, t: nat)
    requires a > 0 && b > 0 && c == a * b && t == n / a
    ensures c > 0 && t / b == n / c
  {
    DivDiv(n, a, b);
  }

  /** One byte, shifted down, and what follows it. */
  lemma ByteThenRest(s: seq<byte>, start: nat)
    requires start < 8 * |s|
    ensures var b := start % 8;
            && Pow(2, b) > 0 && 0 <= s[start / 8] / Pow(2, b) < Pow(2, 8 - b)
            && From(s, start) == s[start / 8] / Pow(2, b) + Pow(2, 8 - b) * From(s, start + (8 - b))
  {
    var k, b := start / 8, start % 8;
    var t := s[k..];
    PowPositive(2, b);
    PowPositive(2, 8 - b);
    PowAdd(b, 8 - b);
    Pow256();
    var c: nat, p, h := t[0], Pow(2, b), LittleEndian(t[1..]);
    DivFacts(c, p);
    QuotientBelow(c, p, Pow(2, 8 - b));
    assert t[1..] == s[k + 1..];
    assert (start + (8 - b)) / 8 == k + 1 && (start + (8 - b)) % 8 == 0;
    Cut(h, 1, h, 0);
    assert From(s, start + (8 - b)) == h;
    ShiftDown(c, p, Pow(2, 8 - b), h);
  }

  lemma ShiftDown(c: nat, p: nat, r: nat, h: nat)
    requires p > 0 && p * r == 256
    ensures (c + 256 * h) / p == c / p + r * h
  {
    DivFacts(c, p);
    assert 256 * h == p * r * h == r * h * p;
    assert c + 256 * h == (c / p + r * h) * p + c % p;
    Cut(c + 256 * h, p, c / p + r * h, c % p);
  }

  // ---------------------------------------------------------------- 32 bits

  lemma Pow32()
    ensures Pow(2, 32) == 0x1_0000_0000
  {
    Pow256();
    PowAdd(8, 8);
    PowAdd(16, 16);
  }

  /** A value shifted left in 32 bits keeps its low part, and or-ing it onto lower
      bits adds it. */
  lemma OrTruncated(dst: nat, low: nat, shift: nat) returns (lost: nat)
    requires shift <= 32 && dst < Pow(2, shift)
    ensures var kept := low * Pow(2, shift) % 0x1_0000_0000;
            BitOr(dst, kept) == dst + kept && low * Pow(2, shift) == kept + 0x1_0000_0000 * lost
    ensures low * Pow(2, shift) < 0x1_0000_0000 ==> lost == 0
  {
    var p, r := Pow(2, shift), Pow(2, 32 - shift);
    PowPositive(2, 32 - shift);
    PowAdd(shift, 32 - shift);
    Pow32();
    DivFacts(low, r);
    var q, l := low / r, low % r;
    lost := q;
    ScaleBounds(l, 0, p, r, 0);
    SplitScaled(q, r, l, p);
    assert r * p == p * r;
    Cut(low * p, 0x1_0000_0000, q, l * p);
    OrDisjoint(dst, l, shift);
  }

  /** What is lost above bit 31 does not show below bit `len`. */
  lemma LostAbove(x: nat, lost: nat, len: nat)
    requires len <= 32
    ensures Pow(2, len) > 0 && (x + 0x1_0000_0000 * lost) % Pow(2, len) == x % Pow(2, len)
  {
    var m, e := Pow(2, len), Pow(2, 32 - len);
    PowPositive(2, len);
    Pow32();
    PowAdd(len, 32 - len);
    assert m * e == e * m;
    ModTail(x, lost, e, m);
  }

  lemma PowBelow(a: nat, p: nat, bits: nat, shift: nat)
    requires a < Pow(2, bits) && p == Pow(2, shift) && bits + shift <= 32
    ensures a * p < 0x1_0000_0000
  {
    Pow32();
    PowPositive(2, shift);
    PowAdd(bits, shift);
    PowMonotone(2, bits + shift, 32);
    ScaleBounds(a, 0, p, Pow(2, bits), 0);
  }

  // ---------------------------------------------------------------- the loop

  /** What the loop has gathered: `shift` bits of the number, the rest still ahead. */
  ghost predicate Gathered(dst: nat, shift: nat, whole: nat, ahead: nat) {
    GatheredBelow(dst, Pow(2, shift), whole, ahead)
  }

  ghost predicate GatheredBelow(dst: nat, p: nat, whole: nat, ahead: nat) {
    dst < p && dst + p * ahead == whole
  }

  ghost predicate SameProduct(p: nat, r: nat, m: nat, e: nat) { p * r == m * e }

  lemma GatherByte(dst: nat, shift: nat, whole: nat, low: nat, bits: nat, ahead: nat)
    requires low < Pow(2, bits) && Gathered(dst, shift, whole, low + Pow(2, bits) * ahead)
    ensures Gathered(dst + low * Pow(2, shift), shift + bits, whole, ahead)
  {
    var p, r := Pow(2, shift), Pow(2, bits);
    PowAdd(shift, bits);
    ScaleBounds(low, dst, p, r, 0);
    assert r * p == p * r;
    Regroup(dst, p, low, r, ahead);
  }

  lemma MaskTail(x: nat, m: nat, e: nat, ahead: nat)
    requires m > 0
    ensures (x + m * e * ahead) % m == x % m
  {
    assert m * e == e * m;
    ModTail(x, ahead, e, m);
  }

  lemma MaskNumbers(dst: nat, p: nat, low: nat, r: nat, ahead: nat, m: nat, e: nat, whole: nat)
    requires m > 0 && p * r == m * e && whole == dst + p * (low + r * ahead)
    ensures (dst + low * p) % m == whole % m
  {
    Regroup(dst, p, low, r, ahead);
    assert p * r * ahead == m * e * ahead;
    MulMonotone(0, low, p);
    MaskTail(dst + low * p, m, e, ahead);
  }

  lemma PowCut(a: nat, b: nat, len: nat)
    requires len <= a + b
    ensures SameProduct(Pow(2, a), Pow(2, b), Pow(2, len), Pow(2, a + b - len))
  {
    PowAdd(a, b);
    PowAdd(len, a + b - len);
  }

  lemma MaskGathered(dst: nat, p: nat, whole: nat, low: nat, r: nat, ahead: nat, m: nat, e: nat)
    requires m > 0 && SameProduct(p, r, m, e) && GatheredBelow(dst, p, whole, low + r * ahead)
    ensures (dst + low * p) % m == whole % m
  {
    MaskNumbers(dst, p, low, r, ahead, m, e, whole);
  }

  /** Masking after the last byte removes the bits beyond the field. */
  lemma MaskLast(dst: nat, shift: nat, whole: nat, low: nat, bits: nat, ahead: nat, len: nat)
    requires Gathered(dst, shift, whole, low + Pow(2, bits) * ahead) && len <= shift + bits
    ensures Pow(2, len) > 0 && (dst + low * Pow(2, shift)) % Pow(2, len) == whole % Pow(2, len)
  {
    PowPositive(2, len);
    PowCut(shift, bits, len);
    MaskGathered(dst, Pow(2, shift), whole, low, Pow(2, bits), ahead, Pow(2, len), Pow(2, shift + bits - len));
  }

  /** `(int) dst` */
  function Cast(u: nat): int { if u < 0x8000_0000 then u else u - 0x1_0000_0000 }

  /** __bitfield: the field floor(number / 2^start) mod 2^len, as a signed 32-bit value;
      arguments out of range give 0. */
  method Field(s: seq<byte>, start: int, len: int) returns (r: int)
    requires 0 <= start && 0 <= len <= 32 ==> start + len <= 8 * |s|
    ensures start < 0 || len < 0 || len > 32 ==> r == 0
    ensures 0 <= start && 0 <= len <= 32 ==>
              Pow(2, start) > 0 && Pow(2, len) > 0 && r == Cast(LittleEndian(s) / Pow(2, start) % Pow(2, len))
  {
    var u := Unsigned(s, start, len);
    r := Cast(u);
  }

  /** The value of dst before the cast. */
  method Unsigned(s: seq<byte>, start0: int, len0: int) returns (r: nat)
    requires 0 <= start0 && 0 <= len0 <= 32 ==> start0 + len0 <= 8 * |s|
    ensures start0 < 0 || len0 < 0 || len0 > 32 ==> r == 0
    ensures 0 <= start0 && 0 <= len0 <= 32 ==>
              Pow(2, start0) > 0 && Pow(2, len0) > 0 && r == LittleEndian(s) / Pow(2, start0) % Pow(2, len0)
  {
    if start0 < 0 || len0 < 0 || len0 > 32 {
      return 0;
    }
    var dst: nat, shift: nat, start: nat, len: nat := 0, 0, start0, len0;
    ghost var whole := From(s, start0);
    PowPositive(2, len0);
    FromIsQuotient(s, start0);
    assert Pow(2, 0) == 1;
    Cut(0, Pow(2, len0), 0, 0);
    while len > 0
      invariant 0 <= shift && 0 <= len && start == start0 + shift && shift + len == len0
      invariant start <= 8 * |s|
      invariant if len > 0 || shift == 0 then Gathered(dst, shift, whole, From(s, start))
                else dst % Pow(2, len0) == whole % Pow(2, len0)
    {
      dst, shift, start, len := TakeByte(s, dst, shift, start, len, whole);
    }
    if shift == 0 {
      assert len0 == 0;
      Cut(whole, 1, whole, 0);
    }
    AndMask(dst, len0);
    r := BitAnd(dst, Pow(2, len0) - 1);
  }

  method TakeByte(s: seq<byte>, dst: nat, shift: nat, start: nat, len: nat, ghost whole: nat)
    returns (dst': nat, shift': nat, start': nat, len': nat)
    requires len > 0 && shift + len <= 32 && start + len <= 8 * |s|
    requires Gathered(dst, shift, whole, From(s, start))
    ensures len' < len && shift' - shift == start' - start == len - len'
    ensures len' > 0 ==> Gathered(dst', shift', whole, From(s, start'))
    ensures len' == 0 ==> Pow(2, shift + len) > 0 && dst' % Pow(2, shift + len) == whole % Pow(2, shift + len)
  {
    var bs := start % 8;
    var bc := 8 - bs;
    if bc > len {
      bc := len;
    }
    ByteThenRest(s, start);
    var low: nat := s[start / 8] / Pow(2, bs);
    ghost var ahead := From(s, start + (8 - bs));
    ghost var lost := OrTruncated(dst, low, shift);
    dst' := BitOr(dst, low * Pow(2, shift) % 0x1_0000_0000);
    shift', start', len' := shift + bc, start + bc, len - bc;
    if len' > 0 {
      PowBelow(low, Pow(2, shift), 8 - bs, shift);
      GatherByte(dst, shift, whole, low, 8 - bs, ahead);
    } else {
      MaskLast(dst, shift, whole, low, 8 - bs, ahead, shift + len);
      LostAbove(dst', lost, shift + len);
    }
  }
}
