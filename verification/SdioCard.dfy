/** Access to the Wi-Fi chip over SDIO (src/plan9_ether4330.c): a 32 KB window
    onto the chip's backplane, moved by register writes, through which data goes
    in CMD53 block and byte transfers and CMD52 single bytes.

    The card is modelled from its own side: it sees only command arguments, and
    decodes them as sections 5.1 and 5.3 of the SDIO Simplified Specification say. */
module SdioCard {
  import opened Common
  import opened Arith
  import opened Numerals
  import opened BitField

  // Sbwsize, and the Sb32bit address flag, are 0x8000; the window registers Sbaddr are at 0x1000a.

  // ---------------------------------------------------------------- splicing

  /** `s` with the bytes from `at` on replaced by `piece`. */
  function Splice(s: seq<byte>, at: nat, piece: seq<byte>): (r: seq<byte>)
    requires at + |piece| <= |s|
    ensures |r| == |s|
  {
    s[..at] + piece + s[at + |piece|..]
  }

  lemma SpliceSlices(s: seq<byte>, at: nat, piece: seq<byte>)
    requires at + |piece| <= |s|
    ensures var r := Splice(s, at, piece);
            && r[at..at + |piece|] == piece
            && r[..at] == s[..at] && r[at + |piece|..] == s[at + |piece|..]
  {
  }

  lemma SpliceTwice(s: seq<byte>, at: nat, p: seq<byte>, q: seq<byte>)
    requires at + |p| + |q| <= |s|
    ensures Splice(Splice(s, at, p), at + |p|, q) == Splice(s, at, p + q)
  {
  }

  // ---------------------------------------------------------------- command arguments

  /** A decoded IO_RW_EXTENDED argument. */
  datatype Extended = Extended(write: bool, fn: nat, block: bool, incr: bool, addr: nat, count: nat)

  function Flag(b: bool): nat { if b then 1 else 0 }

  /** The host's argument word; its fields occupy disjoint bits, so `|` is addition. */
  function ExtendedArg(write: bool, fn: nat, block: bool, incr: bool, addr: nat, count: nat): nat {
    Flag(write) * 0x8000_0000 + fn % 8 * 0x1000_0000 + Flag(block) * 0x800_0000 + Flag(incr) * 0x400_0000
    + addr % 0x20000 * 0x200 + count % 0x200
  }

  /** The card's reading of it: bits 31, 30-28, 27, 26, 25-9 and 8-0. */
  function DecodeExtended(arg: nat): Extended {
    Extended(arg / 0x8000_0000 % 2 == 1, arg / 0x1000_0000 % 8, arg / 0x800_0000 % 2 == 1,
             arg / 0x400_0000 % 2 == 1, arg / 0x200 % 0x20000, arg % 0x200)
  }

  function BlockSize(fn: nat): nat { if fn == 2 then 512 else 64 }

  /** The bytes the card moves: a byte count of 0 stands for 512. */
  function Moves(x: Extended): nat {
    if x.block then x.count * BlockSize(x.fn) else if x.count == 0 then 512 else x.count
  }

  /** An argument cut at bit 26: the six flag and function bits, and the rest. */
  lemma CutAtFlags(w: nat, fn: nat, b: nat, i: nat, low: nat, arg: nat)
    requires w < 2 && fn < 8 && b < 2 && i < 2 && low < 0x400_0000
    requires arg == w * 0x8000_0000 + fn * 0x1000_0000 + b * 0x800_0000 + i * 0x400_0000 + low
    ensures arg / 0x400_0000 % 2 == i && arg / 0x800_0000 % 2 == b
    ensures arg / 0x1000_0000 % 8 == fn && arg / 0x8000_0000 % 2 == w
  {
    assert arg / 0x400_0000 == w * 32 + fn * 4 + b * 2 + i;
    assert arg / 0x800_0000 == w * 16 + fn * 2 + b;
    assert arg / 0x1000_0000 == w * 8 + fn;
    assert arg / 0x8000_0000 == w;
  }

  /** The rest, cut at bit 9. */
  lemma CutAtCount(top: nat, addr: nat, low: nat, arg: nat)
    requires addr < 0x20000 && low < 0x200 && arg == top * 0x400_0000 + addr * 0x200 + low
    ensures arg / 0x200 % 0x20000 == addr && arg % 0x200 == low
    ensures low < 0x100 ==> arg % 0x100 == low
  {
    Cut(arg, 0x200, top * 0x20000 + addr, low);
    Cut(top * 0x20000 + addr, 0x20000, top, addr);
    if low < 0x100 {
      Cut(arg, 0x100, top * 0x40000 + addr * 2, low);
    }
  }

  lemma ExtendedRoundTrip(write: bool, fn: nat, block: bool, incr: bool, addr: nat, count: nat)
    requires fn < 8
    ensures DecodeExtended(ExtendedArg(write, fn, block, incr, addr, count)) ==
            Extended(write, fn, block, incr, addr % 0x20000, count % 0x200)
  {
    ExtendedFields(Flag(write), fn, Flag(block), Flag(incr), addr % 0x20000, count % 0x200,
                   ExtendedArg(write, fn, block, incr, addr, count));
  }

  lemma ExtendedFields(w: nat, fn: nat, b: nat, i: nat, a: nat, c: nat, arg: nat)
    requires w < 2 && fn < 8 && b < 2 && i < 2 && a < 0x20000 && c < 0x200
    requires arg == w * 0x8000_0000 + fn * 0x1000_0000 + b * 0x800_0000 + i * 0x400_0000 + a * 0x200 + c
    ensures DecodeExtended(arg) == Extended(w == 1, fn, b == 1, i == 1, a, c)
  {
    CutAtFlags(w, fn, b, i, a * 0x200 + c, arg);
    CutAtCount(w * 32 + fn * 4 + b * 2 + i, a, c, arg);
  }

  lemma Powers()
    ensures Pow(2, 8) == 0x100 && Pow(2, 9) == 0x200 && Pow(2, 17) == 0x20000 && Pow(2, 3) == 8
    ensures Pow(2, 26) == 0x400_0000 && Pow(2, 27) == 0x800_0000 && Pow(2, 28) == 0x1000_0000 && Pow(2, 31) == 0x8000_0000
  {
    Pow256();
    PowAdd(8, 9);
    PowAdd(9, 17);
    assert Pow(2, 3) == 8;
    PowAdd(28, 3);
  }

  /** The fields below bit k and those from it on, or-ed. */
  lemma OrField(low: nat, field: nat, k: nat, p: nat)
    requires Pow(2, k) == p && low < p
    ensures BitOr(low, field * p) == low + field * p
  {
    OrDisjoint(low, field, k);
  }

  /** The argument of CMD53 is the or of its masked and shifted fields. */
  lemma ExtendedIsOr(write: bool, fn: nat, block: bool, incr: bool, addr: nat, count: nat)
    ensures var count' := BitAnd(count, 0x1FF);
            var low := BitOr(count', BitAnd(addr, 0x1FFFF) * Pow(2, 9));
            var moded := BitOr(BitOr(low, Flag(incr) * Pow(2, 26)), Flag(block) * Pow(2, 27));
            ExtendedArg(write, fn, block, incr, addr, count) ==
              BitOr(BitOr(moded, BitAnd(fn, 7) * Pow(2, 28)), Flag(write) * Pow(2, 31))
  {
    Powers();
    AndMask(count, 9);
    AndMask(addr, 17);
    AndMask(fn, 3);
    var c, a, f := count % 0x200, addr % 0x20000, fn % 8;
    assert c + a * 0x200 < 0x400_0000;
    OrField(c, a, 9, 0x200);
    HighFields(c + a * 0x200, Flag(incr), Flag(block), f, Flag(write));
  }

  lemma HighFields(low: nat, i: nat, b: nat, f: nat, w: nat)
    requires low < 0x400_0000 && i < 2 && b < 2 && f < 8 && w < 2
    ensures BitOr(BitOr(BitOr(BitOr(low, i * Pow(2, 26)), b * Pow(2, 27)), f * Pow(2, 28)), w * Pow(2, 31)) ==
              w * 0x8000_0000 + f * 0x1000_0000 + b * 0x800_0000 + i * 0x400_0000 + low
  {
    Powers();
    var x := low + i * 0x400_0000;
    OrField(low, i, 26, 0x400_0000);
    var y := x + b * 0x800_0000;
    OrField(x, b, 27, 0x800_0000);
    TopFields(y, f, w);
  }

  /** The argument of CMD52, likewise. */
  lemma DirectIsOr(write: bool, fn: nat, addr: nat, data: nat)
    ensures DirectArg(write, fn, addr, data) ==
              BitOr(BitOr(BitOr(BitAnd(data, 0xFF), BitAnd(addr, 0x1FFFF) * Pow(2, 9)), BitAnd(fn, 7) * Pow(2, 28)),
                    Flag(write) * Pow(2, 31))
  {
    Powers();
    AndMask(data, 8);
    AndMask(addr, 17);
    AndMask(fn, 3);
    var d, a, f := data % 0x100, addr % 0x20000, fn % 8;
    OrField(d, a, 9, 0x200);
    assert d + a * 0x200 < 0x1000_0000;
    TopFields(d + a * 0x200, f, Flag(write));
  }

  lemma TopFields(low: nat, f: nat, w: nat)
    requires low < 0x1000_0000 && f < 8 && w < 2
    ensures BitOr(BitOr(low, f * Pow(2, 28)), w * Pow(2, 31)) == w * 0x8000_0000 + f * 0x1000_0000 + low
  {
    Powers();
    var y := low + f * 0x1000_0000;
    OrField(low, f, 28, 0x1000_0000);
    OrField(y, w, 31, 0x8000_0000);
  }

  /** In block mode a command moves blocks of 64 bytes for function 1 and 512 for function 2,
      in byte mode the count itself, with 0 for 512. */
  lemma MovesExact(write: bool, incr: bool, addr: nat, n: nat)
    ensures Moves(Extended(write, 1, true, incr, addr, n)) == 64 * n
    ensures Moves(Extended(write, 2, true, incr, addr, n)) == 512 * n
    ensures 0 < n <= 512 ==> forall fn :: Moves(Extended(write, fn, false, incr, addr, n % 512)) == n
  {
  }

  /** A decoded IO_RW_DIRECT argument. */
  datatype Direct = Direct(write: bool, fn: nat, addr: nat, data: byte)

  function DirectArg(write: bool, fn: nat, addr: nat, data: nat): nat {
    Flag(write) * 0x8000_0000 + fn % 8 * 0x1000_0000 + addr % 0x20000 * 0x200 + data % 0x100
  }

  function DecodeDirect(arg: nat): Direct {
    Direct(arg / 0x8000_0000 % 2 == 1, arg / 0x1000_0000 % 8, arg / 0x200 % 0x20000, arg % 0x100)
  }

  lemma DirectRoundTrip(write: bool, fn: nat, addr: nat, data: nat)
    requires fn < 8
    ensures DecodeDirect(DirectArg(write, fn, addr, data)) ==
            Direct(write, fn, addr % 0x20000, data % 0x100)
  {
    DirectFields(Flag(write), fn, addr % 0x20000, data % 0x100, DirectArg(write, fn, addr, data));
  }

  lemma DirectFields(w: nat, fn: nat, a: nat, d: nat, arg: nat)
    requires w < 2 && fn < 8 && a < 0x20000 && d < 0x100
    requires arg == w * 0x8000_0000 + fn * 0x1000_0000 + a * 0x200 + d
    ensures DecodeDirect(arg) == Direct(w == 1, fn, a, d)
  {
    CutAtFlags(w, fn, 0, 0, a * 0x200 + d, arg);
    CutAtCount(w * 32 + fn * 4, a, d, arg);
  }

  // ---------------------------------------------------------------- what a transfer does

  /** The card's memory, the bytes function 2 has received and still holds for
      the host, and the host's buffer. */
  datatype World = World(mem: seq<byte>, tx: seq<byte>, rx: seq<byte>, host: seq<byte>)

  /** An exhausted function-2 FIFO reads as zeros. */
  function Take(s: seq<byte>, n: nat): (r: seq<byte>)
    ensures |r| == n
  {
    if n <= |s| then s[..n] else s + seq(n - |s|, _ => 0)
  }

  function Drop(s: seq<byte>, n: nat): seq<byte> { if n <= |s| then s[n..] else [] }

  /** One byte between host[pos] and, for function 1, flat memory at `at`, or,
      for function 2, the FIFO. */
  function MovedByte(w: World, fn: nat, write: bool, pos: nat, at: nat): (r: World)
    requires pos < |w.host| && (fn == 1 ==> at < |w.mem|)
    ensures |r.host| == |w.host| && |r.mem| == |w.mem|
  {
    if fn == 1 then
      if write then w.(mem := w.mem[at := w.host[pos]]) else w.(host := w.host[pos := w.mem[at]])
    else
      if write then w.(tx := w.tx + [w.host[pos]])
      else w.(host := w.host[pos := Take(w.rx, 1)[0]], rx := Drop(w.rx, 1))
  }

  /** The effect of moving n bytes, one after the other. */
  function Moved(w: World, fn: nat, write: bool, pos: nat, n: nat, at: nat): (r: World)
    requires pos + n <= |w.host|
    requires fn == 1 ==> at + n <= |w.mem|
    ensures |r.host| == |w.host| && |r.mem| == |w.mem|
    decreases n
  {
    if n == 0 then w
    else MovedByte(Moved(w, fn, write, pos, n - 1, at), fn, write, pos + n - 1, at + n - 1)
  }

  /** A transfer may be cut anywhere. */
  lemma {:induction false} MovedInTwo(w: World, fn: nat, write: bool, pos: nat, m: nat, n: nat, at: nat, to: nat)
    requires pos + m + n <= |w.host|
    requires fn == 1 ==> at + m + n <= |w.mem| && to == at + m
    ensures Moved(Moved(w, fn, write, pos, m, at), fn, write, pos + m, n, to) ==
            Moved(w, fn, write, pos, m + n, at)
    decreases n
  {
    if n > 0 {
      MovedInTwo(w, fn, write, pos, m, n - 1, at, to);
    }
  }

  /** What writing through function 1 amounts to: a splice of memory. */
  lemma {:induction false} MovedIsStored(w: World, pos: nat, n: nat, at: nat)
    requires pos + n <= |w.host| && at + n <= |w.mem|
    ensures Moved(w, 1, true, pos, n, at) == w.(mem := Splice(w.mem, at, w.host[pos..pos + n]))
    decreases n
  {
    if n > 0 {
      MovedIsStored(w, pos, n - 1, at);
      var piece := w.host[pos..pos + n];
      assert piece[..n - 1] == w.host[pos..pos + n - 1];
      SpliceOneMore(w.mem, at, piece);
    }
  }

  /** What reading through function 1 amounts to: a splice of the buffer. */
  lemma {:induction false} MovedIsLoaded(w: World, pos: nat, n: nat, at: nat)
    requires pos + n <= |w.host| && at + n <= |w.mem|
    ensures Moved(w, 1, false, pos, n, at) == w.(host := Splice(w.host, pos, w.mem[at..at + n]))
    decreases n
  {
    if n > 0 {
      MovedIsLoaded(w, pos, n - 1, at);
      var piece := w.mem[at..at + n];
      assert piece[..n - 1] == w.mem[at..at + n - 1];
      SpliceOneMore(w.host, pos, piece);
    }
  }

  /** What function 2 amounts to: a piece of the FIFO at either end. */
  lemma {:induction false} MovedIsSent(w: World, pos: nat, n: nat, at: nat)
    requires pos + n <= |w.host|
    ensures Moved(w, 2, true, pos, n, at) == w.(tx := w.tx + w.host[pos..pos + n])
    decreases n
  {
    if n > 0 {
      MovedIsSent(w, pos, n - 1, at);
      assert w.host[pos..pos + n] == w.host[pos..pos + n - 1] + [w.host[pos + n - 1]];
    }
  }

  lemma {:induction false} MovedIsFetched(w: World, pos: nat, n: nat, at: nat)
    requires pos + n <= |w.host|
    ensures Moved(w, 2, false, pos, n, at) ==
            w.(host := Splice(w.host, pos, Take(w.rx, n)), rx := Drop(w.rx, n))
    decreases n
  {
    if n > 0 {
      MovedIsFetched(w, pos, n - 1, at);
      TakeOneMore(w.rx, n - 1);
      SpliceOneMore(w.host, pos, Take(w.rx, n));
    }
  }

  lemma SpliceOneMore(s: seq<byte>, at: nat, p: seq<byte>)
    requires |p| > 0 && at + |p| <= |s|
    ensures Splice(s, at, p) == Splice(s, at, p[..|p| - 1])[at + |p| - 1 := p[|p| - 1]]
  {
  }

  lemma TakeOneMore(s: seq<byte>, m: nat)
    ensures Take(s, m + 1)[..m] == Take(s, m) && Take(s, m + 1)[m] == Take(Drop(s, m), 1)[0]
    ensures Drop(Drop(s, m), 1) == Drop(s, m + 1)
  {
  }

  /** A request in progress: where it started from and what it is to do. */
  datatype Job = Job(before: World, fn: nat, write: bool, start: nat, len: nat, at: nat) {
    predicate Fits() {
      start + len <= |before.host| && (fn == 1 ==> at + len <= |before.mem|)
    }

    /** The world when the first `done` bytes have moved. */
    function After(done: nat): World
      requires Fits() && done <= len
    {
      Moved(before, fn, write, start, done, at)
    }
  }

  lemma JobStep(j: Job, done: nat, n: nat, mid: World, to: nat)
    requires j.Fits() && done + n <= j.len && mid == j.After(done)
    requires j.fn == 1 ==> to == j.at + done
    ensures Moved(mid, j.fn, j.write, j.start + done, n, to) == j.After(done + n)
  {
    MovedInTwo(j.before, j.fn, j.write, j.start, done, n, j.at, to);
  }

  // ---------------------------------------------------------------- the window

  function WindowBase(addr: nat): nat { addr / 0x8000 * 0x8000 }

  /** The window registers Sbaddr, Sbaddr+1, Sbaddr+2 hold address bits 8 to 31. */
  function BaseOf(regs: seq<byte>): nat
    requires |regs| == 3
  {
    WindowBase(0x100 * (regs[0] as int) + 0x10000 * (regs[1] as int) + 0x100_0000 * (regs[2] as int))
  }

  /** `ROUNDUP(off, Sbwsize) - off` in 32-bit unsigned arithmetic. */
  function ToWindowEnd(off: nat): nat {
    ((off + (0x8000 - 1)) % 0x1_0000_0000 / 0x8000 * 0x8000 - off) % 0x1_0000_0000
  }

  /** The rounding may wrap around, and the distance is right even then. */
  lemma ToWindowEndExact(off: nat)
    requires off < 0x1_0000_0000
    ensures ToWindowEnd(off) == (if off % 0x8000 == 0 then 0 else 0x8000 - off % 0x8000)
  {
    var q, r := off / 0x8000, off % 0x8000;
    assert off == q * 0x8000 + r;
    if off + (0x8000 - 1) < 0x1_0000_0000 {
      assert (off + (0x8000 - 1)) / 0x8000 == (if r == 0 then q else q + 1);
    } else {
      assert q == 0x1FFFF;
      assert (off + (0x8000 - 1)) % 0x1_0000_0000 == off + (0x8000 - 1) - 0x1_0000_0000;
    }
  }

  lemma BaseOfBytes(addr: nat)
    requires addr < 0x1_0000_0000
    ensures var a := WindowBase(addr);
            BaseOf([a / 0x100 % 0x100, a / 0x10000 % 0x100, a / 0x100_0000 % 0x100]) == a
  {
    var q := addr / 0x8000;
    var hi, mid, lo := q / 0x200, q / 2 % 0x100, q % 2;
    AddressBytes(hi, mid, lo);
    assert q == 0x200 * hi + 2 * mid + lo;
    BaseOfParts(hi, mid, lo);
  }

  lemma BaseOfParts(hi: nat, mid: nat, lo: nat)
    requires hi < 0x100 && mid < 0x100 && lo < 2
    ensures BaseOf([0x80 * lo, mid, hi]) == 0x8000 * (0x200 * hi + 2 * mid + lo)
  {
  }

  lemma AddressBytes(hi: nat, mid: nat, lo: nat)
    requires hi < 0x100 && mid < 0x100 && lo < 2
    ensures var a := 0x8000 * (0x200 * hi + 2 * mid + lo);
            && a / 0x100 % 0x100 == 0x80 * lo
            && a / 0x10000 % 0x100 == mid
            && a / 0x100_0000 % 0x100 == hi
  {
    var a := 0x8000 * (0x200 * hi + 2 * mid + lo);
    assert a / 0x100_0000 == hi;
    assert a / 0x10000 == 0x100 * hi + mid;
    assert a / 0x100 == 0x100 * (0x100 * hi + mid) + 0x80 * lo;
  }

  // ---------------------------------------------------------------- card and host

  /** The argument of a piece decodes to the bytes the host moves for it. */
  lemma PieceArgument(fn: nat, write: bool, block: bool, incr: bool, addr: nat, bcount: nat, m: nat)
    requires if block then 0 < bcount < 512 && m == bcount * BlockSize(fn) else 0 < bcount <= 512 && m == bcount
    ensures Moves(Extended(write, fn, block, incr, addr % 0x20000, bcount % 0x200)) == m
    ensures addr < 0x20000 ==> addr % 0x20000 == addr
  {
    assert bcount == 512 || bcount % 0x200 == bcount;
  }

  lemma PacketSizes(len: nat, done: nat, n: nat)
    requires done < len && done % 4 == 0 && n == if 2048 > len - done then RoundUp4(len - done) else 2048
    ensures done < done + n <= RoundUp4(len) && (done + n) % 4 == 0
    ensures done + n >= len ==> done + n == RoundUp4(len)
  {
  }

  /** The chip together with the driver's access functions. */
  class Card {
    var mem: seq<byte>        // the backplane address space
    var regs: seq<byte>       // the three window registers
    var window: nat           // the address they select, latched at each register write
    var tx: seq<byte>
    var rx: seq<byte>

    ghost predicate Valid()
      reads this
    {
      |regs| == 3 && |mem| <= 0x1_0000_0000
    }

    ghost function Value(a: array<byte>): World
      reads this, a
    {
      World(mem, tx, rx, a[..])
    }

    /** The memory address a function-1 address stands for: its low 15 bits, in the window. */
    function At(addr: nat): nat
      reads this`window
    {
      if 0x8000 <= addr < 0x10000 then window + (addr - 0x8000) else 0
    }

    constructor (mem: seq<byte>, rx: seq<byte>)
      requires |mem| <= 0x1_0000_0000
      ensures Valid() && this.mem == mem && this.rx == rx && tx == []
    {
      this.mem, this.rx, this.tx := mem, rx, [];
      this.regs, this.window := [0, 0, 0], 0;
    }

    /** CMD53, seen by the card: what moves is decided by the argument alone. */
    method Command53(arg: nat, a: array<byte>, pos: nat)
      requires Valid() && Admissible(DecodeExtended(arg), a.Length, pos)
      modifies this`mem, this`tx, this`rx, a
      ensures Valid()
      ensures var x := DecodeExtended(arg);
              Value(a) == Moved(old(Value(a)), x.fn, x.write, pos, Moves(x), At(x.addr))
    {
      Transfer(DecodeExtended(arg), a, pos);
    }

    /** Function 1 must increment and stay inside the window. */
    predicate Admissible(x: Extended, room: nat, pos: nat)
      reads this
    {
      && (x.fn == 1 || x.fn == 2) && pos + Moves(x) <= room
      && (x.fn == 1 ==> x.incr && 0x8000 <= x.addr && x.addr + Moves(x) <= 0x10000 && At(x.addr) + Moves(x) <= |mem|)
    }

    method Transfer(x: Extended, a: array<byte>, pos: nat)
      requires Valid() && Admissible(x, a.Length, pos)
      modifies this`mem, this`tx, this`rx, a
      ensures Valid()
      ensures Value(a) == Moved(old(Value(a)), x.fn, x.write, pos, Moves(x), At(x.addr))
    {
      if x.write {
        TransferIn(x, a[..], pos);
      } else {
        TransferOut(x, a, pos);
      }
    }

    method TransferIn(x: Extended, host: seq<byte>, pos: nat)
      requires Valid() && x.write && Admissible(x, |host|, pos)
      modifies this`mem, this`tx
      ensures Valid()
      ensures World(mem, tx, rx, host) ==
              Moved(World(old(mem), old(tx), rx, host), x.fn, true, pos, Moves(x), At(x.addr))
    {
      var m, at := Moves(x), At(x.addr);
      if x.fn == 1 {
        MovedIsStored(World(mem, tx, rx, host), pos, m, at);
        mem := Splice(mem, at, host[pos..pos + m]);
      } else {
        MovedIsSent(World(mem, tx, rx, host), pos, m, at);
        tx := tx + host[pos..pos + m];
      }
    }

    method TransferOut(x: Extended, a: array<byte>, pos: nat)
      requires Valid() && !x.write && Admissible(x, a.Length, pos)
      modifies this`rx, a
      ensures Valid()
      ensures Value(a) == Moved(old(Value(a)), x.fn, false, pos, Moves(x), At(x.addr))
    {
      var m, at := Moves(x), At(x.addr);
      if x.fn == 1 {
        MovedIsLoaded(Value(a), pos, m, at);
        Fill(a, pos, mem[at..at + m]);
      } else {
        MovedIsFetched(Value(a), pos, m, at);
        Fill(a, pos, Take(rx, m));
        rx := Drop(rx, m);
      }
    }

    static method Fill(a: array<byte>, pos: nat, data: seq<byte>)
      requires pos + |data| <= a.Length
      modifies a
      ensures a[..] == Splice(old(a[..]), pos, data)
    {
      for i := 0 to |data|
        invariant a[..] == Splice(old(a[..]), pos, data[..i])
      {
        SpliceOneMore(old(a[..]), pos, data[..i + 1]);
        assert data[..i + 1][..i] == data[..i];
        a[pos + i] := data[i];
      }
      assert data[..|data|] == data;
    }

    /** The next piece of a transfer: at most 511 blocks, or a tail of up to one block. */
    static method NextPiece(left: nat, bsize: nat) returns (block: bool, bcount: nat, m: nat)
      requires left > 0 && (bsize == 64 || bsize == 512)
      ensures 0 < m <= left
      ensures if block then 0 < bcount < 512 && m == bcount * bsize
              else 0 < bcount <= 512 && m == bcount
    {
      if left >= 511 * bsize {
        block, bcount, m := true, 511, 511 * bsize;
      } else if left > bsize {
        block, bcount, m := true, left / bsize, left / bsize * bsize;
      } else {
        block, bcount, m := false, left, left;
      }
    }

    /** The host's CMD53: the argument decodes to the m bytes the host expects to move. */
    method Send53(fn: nat, write: bool, block: bool, incr: bool, addr: nat, bcount: nat, a: array<byte>, pos: nat, m: nat)
      requires Valid() && fn < 8
      requires Moves(Extended(write, fn, block, incr, addr % 0x20000, bcount % 0x200)) == m
      requires Admissible(Extended(write, fn, block, incr, addr % 0x20000, bcount % 0x200), a.Length, pos)
      modifies this`mem, this`tx, this`rx, a
      ensures Valid() && Value(a) == Moved(old(Value(a)), fn, write, pos, m, At(addr % 0x20000))
    {
      ExtendedRoundTrip(write, fn, block, incr, addr, bcount);
      Command53(ExtendedArg(write, fn, block, incr, addr, bcount), a, pos);
    }

    /** One CMD53 of a longer request. */
    method RwPiece(ghost j: Job, a: array<byte>, done: nat, len: nat, fn: nat, write: bool, pos: nat, addr: nat, incr: bool)
      returns (next: nat)
      requires Valid() && j.Fits() && done < len == j.len
      requires Value(a) == j.After(done)
      requires fn == j.fn && write == j.write && pos == j.start + done && (fn == 1 || fn == 2)
      requires fn == 1 ==> incr && 0x8000 <= addr && addr + (len - done) <= 0x10000 && At(addr) == j.at + done
      modifies this`mem, this`tx, this`rx, a
      ensures Valid() && done < next <= len
      ensures Value(a) == j.After(next)
    {
      var block, bcount, m := NextPiece(len - done, BlockSize(fn));
      PieceArgument(fn, write, block, incr, addr, bcount, m);
      JobStep(j, done, m, Value(a), At(addr % 0x20000));
      next := done + m;
      Send53(fn, write, block, incr, addr, bcount, a, pos, m);
    }

    /** sdiorwext: however it is cut into block and byte transfers, the whole request moves. */
    method RwExtended(fn: nat, write: bool, a: array<byte>, start: nat, len: nat, addr: nat, incr: bool)
      requires Valid() && (fn == 1 || fn == 2)
      requires start + len <= a.Length
      requires fn == 1 ==> incr && 0x8000 <= addr && addr + len <= 0x10000 && At(addr) + len <= |mem|
      modifies this`mem, this`tx, this`rx, a
      ensures Valid()
      ensures Value(a) == Moved(old(Value(a)), fn, write, start, len, At(addr))
    {
      ghost var j := Job(Value(a), fn, write, start, len, At(addr));
      var done := 0;
      while done < len
        invariant 0 <= done <= len && Valid()
        invariant Value(a) == j.After(done)
      {
        done := RwPiece(j, a, done, len, fn, write, start + done, if incr then addr + done else addr, incr);
      }
    }

    /** CMD52: a window register, or one byte of memory through the window. */
    method Command52(arg: nat) returns (r: byte)
      requires Valid()
      requires var x := DecodeDirect(arg);
               && x.fn == 1
               && (0x1000a <= x.addr < 0x1000d || (0x8000 <= x.addr < 0x10000 && At(x.addr) < |mem|))
      modifies this`mem, this`regs, this`window
      ensures Valid()
      ensures var x := DecodeDirect(arg);
              if x.addr >= 0x1000a
              then
                && mem == old(mem)
                && regs == (if x.write then old(regs)[x.addr - 0x1000a := x.data] else old(regs))
                && window == (if x.write then BaseOf(regs) else old(window))
                && r == regs[x.addr - 0x1000a]
              else
                && window == old(window) && regs == old(regs)
                && mem == (if x.write then old(mem)[At(x.addr) := x.data] else old(mem))
                && r == mem[At(x.addr)]
    {
      var x := DecodeDirect(arg);
      if x.addr >= 0x1000a {
        if x.write {
          regs := regs[x.addr - 0x1000a := x.data];
          window := BaseOf(regs);
        }
        r := regs[x.addr - 0x1000a];
      } else {
        if x.write {
          mem := mem[At(x.addr) := x.data];
        }
        r := mem[At(x.addr)];
      }
    }

    method WriteRegister(k: nat, value: nat)
      requires Valid() && k < 3
      modifies this`mem, this`regs, this`window
      ensures Valid() && mem == old(mem) && regs == old(regs)[k := value % 0x100] && window == BaseOf(regs)
    {
      DirectRoundTrip(true, 1, 0x1000a + k, value);
      var _ := Command52(DirectArg(true, 1, 0x1000a + k, value));
    }

    /** sbwindow: after its three register writes the window covers `addr`. */
    method SetWindow(addr: nat)
      requires Valid() && addr < 0x1_0000_0000
      modifies this`mem, this`regs, this`window
      ensures Valid() && mem == old(mem) && window == WindowBase(addr)
    {
      var a := WindowBase(addr);
      WriteRegister(0, a / 0x100);
      WriteRegister(1, a / 0x10000);
      WriteRegister(2, a / 0x100_0000);
      assert regs == [a / 0x100 % 0x100, a / 0x10000 % 0x100, a / 0x100_0000 % 0x100];
      BaseOfBytes(addr);
    }

    /** One byte through the window by CMD52. */
    method Send52(write: bool, off: nat, data: byte) returns (r: byte)
      requires Valid() && off < 0x8000 && window + off < |mem|
      modifies this`mem, this`regs, this`window
      ensures Valid() && window == old(window)
      ensures mem == (if write then old(mem)[window + off := data] else old(mem)) && r == mem[window + off]
    {
      DirectRoundTrip(write, 1, off + 0x8000, data);
      r := Command52(DirectArg(write, 1, off + 0x8000, data));
    }

    method RwByte(ghost j: Job, a: array<byte>, ghost done: nat, write: bool, pos: nat, off: nat)
      requires Valid() && j.Fits() && done < j.len && Value(a) == j.After(done)
      requires j.fn == 1 && write == j.write && pos == j.start + done
      requires off < 0x8000 && window + off == j.at + done
      modifies this`mem, this`regs, this`window, a
      ensures Valid() && window == old(window)
      ensures Value(a) == j.After(done + 1)
    {
      var r := Send52(write, off, if write then a[pos] else 0);
      if !write {
        a[pos] := r;
      }
    }

    /** The whole words of a request inside the window. */
    method Words(ghost j: Job, a: array<byte>, ghost at: nat, write: bool, start: nat, len: nat, off: nat)
      requires Valid() && j.Fits() && at + len <= j.len && Value(a) == j.After(at)
      requires j.fn == 1 && write == j.write && start == j.start + at
      requires off + len <= 0x8000 && window + off == j.at + at
      modifies this`mem, this`tx, this`rx, a
      ensures Valid() && Value(a) == j.After(at + len)
    {
      JobStep(j, at, len, Value(a), window + off);
      RwExtended(1, write, a, start, len, off + 0x8000, true);
    }

    /** sbrw: words by CMD53, the last bytes by CMD52, all inside the window. */
    method WindowRw(ghost j: Job, a: array<byte>, ghost at: nat, write: bool, start: nat, len: nat, off: nat)
      requires Valid() && j.Fits() && at + len <= j.len && Value(a) == j.After(at)
      requires j.fn == 1 && write == j.write && start == j.start + at
      requires off + len <= 0x8000 && window + off == j.at + at
      modifies this, a
      ensures Valid() && Value(a) == j.After(at + len)
    {
      var done := 0;
      if len >= 4 {
        done := len / 4 * 4;
        Words(j, a, at, write, start, done, off);
      }
      while done < len
        invariant 0 <= done <= len && Valid() && window == old(window)
        invariant Value(a) == j.After(at + done)
      {
        RwByte(j, a, at + done, write, start + done, off + done);
        done := done + 1;
      }
    }

    /** The part of a request that lies in one window. */
    method MemoryPiece(ghost j: Job, a: array<byte>, done: nat, n: nat, write: bool, start: nat, off: nat) returns (next: nat)
      requires Valid() && j.Fits() && done + n <= j.len && Value(a) == j.After(done)
      requires j.fn == 1 && j.write == write && j.start == start && j.at == off
      requires 0 < n <= 0x8000 - (off + done) % 0x8000 && |mem| == |j.before.mem|
      modifies this, a
      ensures Valid() && next == done + n && |mem| == |j.before.mem|
      ensures Value(a) == j.After(next)
    {
      next := done + n;
      SetWindow(off + done);
      assert window + (off + done) % 0x8000 == off + done;
      WindowRw(j, a, done, write, start + done, n, (off + done) % 0x8000);
    }

    /** The room from `off` to the end of its window. */
    static method FirstPiece(off: nat) returns (n: nat)
      requires off < 0x1_0000_0000
      ensures n == 0x8000 - off % 0x8000
    {
      ToWindowEndExact(off);
      n := ToWindowEnd(off);
      if n == 0 {
        n := 0x8000;
      }
    }

    /** sbmem: windowed access is flat memory access. */
    method Memory(write: bool, a: array<byte>, start: nat, len: nat, off: nat)
      requires Valid() && start + len <= a.Length && off + len <= |mem|
      modifies this, a
      ensures Valid() && Value(a) == Moved(old(Value(a)), 1, write, start, len, off)
    {
      ghost var j := Job(Value(a), 1, write, start, len, off);
      if len == 0 {
        return;
      }
      var n := FirstPiece(off);
      var done := 0;
      while done < len
        invariant 0 <= done <= len && Valid() && |mem| == |j.before.mem|
        invariant n == 0x8000 - (off + done) % 0x8000 || done == len
        invariant Value(a) == j.After(done)
      {
        if n > len - done {
          n := len - done;
        }
        done := MemoryPiece(j, a, done, n, write, start, off);
        n := 0x8000;
      }
    }

    /** The next piece of a packet: 2048 bytes, or the rest rounded up to words. */
    method PacketPiece(ghost j: Job, a: array<byte>, done: nat, len: nat, write: bool, start: nat) returns (next: nat)
      requires Valid() && j.Fits() && done < len && j.len == RoundUp4(len) && done % 4 == 0
      requires j.fn == 2 && j.write == write && j.start == start && Value(a) == j.After(done)
      modifies this`mem, this`tx, this`rx, a
      ensures Valid() && done < next <= j.len && next % 4 == 0
      ensures next >= len ==> next == j.len
      ensures Value(a) == j.After(next)
    {
      var n := if 2048 > len - done then RoundUp4(len - done) else 2048;
      next := done + n;
      PacketSizes(len, done, n);
      JobStep(j, done, n, Value(a), At(0x1800_0000));
      RwExtended(2, write, a, start + done, n, 0x1800_0000, false);
    }

    /** packetrw: function 2 moves the packet rounded up to words. */
    method PacketRw(write: bool, a: array<byte>, start: nat, len: nat)
      requires Valid() && start + RoundUp4(len) <= a.Length
      modifies this`mem, this`tx, this`rx, a
      ensures Valid() && Value(a) == Moved(old(Value(a)), 2, write, start, RoundUp4(len), 0)
    {
      ghost var total := RoundUp4(len);
      ghost var j := Job(Value(a), 2, write, start, total, 0);
      var done := 0;
      while done < len
        invariant 0 <= done <= total && done % 4 == 0 && Valid()
        invariant done >= len ==> done == total
        invariant Value(a) == j.After(done)
      {
        done := PacketPiece(j, a, done, len, write, start);
      }
    }
  }

  function RoundUp4(n: nat): nat { (n + 3) / 4 * 4 }
}
