/** Loading the Wi-Fi firmware and its configuration into the chip's memory and
    reading it back (src/plan9_ether4330.c: read_file_in_buffer, upload, fwload). */
module Firmware {
  import opened Common
  import opened SdioCard
  import opened Condense
  import opened Arith
  import opened BitField

  // ---------------------------------------------------------------- plain memory access

  method Store(card: Card, a: array<byte>, len: nat, off: nat)
    requires card.Valid() && len <= a.Length && off + len <= |card.mem|
    modifies card, a
    ensures card.Valid() && a[..] == old(a[..])
    ensures card.mem == Splice(old(card.mem), off, old(a[..len]))
  {
    MovedIsStored(card.Value(a), 0, len, off);
    assert a[..][0..len] == a[..len];
    card.Memory(true, a, 0, len, off);
  }

  method Load(card: Card, a: array<byte>, len: nat, off: nat)
    requires card.Valid() && len <= a.Length && off + len <= |card.mem|
    modifies card, a
    ensures card.Valid() && card.mem == old(card.mem)
    ensures a[..len] == card.mem[off..off + len]
  {
    MovedIsLoaded(card.Value(a), 0, len, off);
    SpliceSlices(a[..], 0, card.mem[off..off + len]);
    ghost var piece := card.mem[off..off + len];
    card.Memory(false, a, 0, len, off);
    assert a[..][0..|piece|] == piece;
  }

  // ---------------------------------------------------------------- the files

  function Least(a: nat, b: nat): nat { if a < b then a else b }

  /** read_file_in_buffer */
  method ReadFile(file: seq<byte>, buffer: array<byte>, size: nat, offset: nat) returns (count: nat)
    requires 0 < size <= buffer.Length
    modifies buffer
    ensures count == (if offset >= |file| then 0 else Least(size, |file| - offset))
    ensures count > 0 ==> buffer[..count] == file[offset..offset + count]
  {
    if offset >= |file| {
      return 0;
    }
    count := 0;
    while true
      invariant 0 <= count < Least(size, |file| - offset)
      invariant buffer[..count] == file[offset..offset + count]
      decreases size - count
    {
      buffer[count] := file[offset + count];
      count := count + 1;
      if count == size || offset + count == |file| {
        break;
      }
    }
  }

  lemma ChunkOfImage(file: seq<byte>, off: nat, m: nat)
    requires off % 4 == 0 && off + m <= |file| && (m % 4 == 0 || off + m == |file|)
    ensures off + RoundUp4(m) <= |PadTo4(file)|
    ensures PadTo4(file)[off..off + RoundUp4(m)] == PadTo4(file[off..off + m])
  {
  }

  /** One chunk of a file, padded with nulls to whole words, as upload reads it. */
  method ReadChunk(file: seq<byte>, buf: array<byte>, off: nat) returns (n: nat)
    requires buf.Length == 2048 && off % 4 == 0 && off <= |PadTo4(file)|
    modifies buf
    ensures n > 0 <==> off < |PadTo4(file)|
    ensures off + n <= |PadTo4(file)| && n % 4 == 0 && n <= buf.Length
    ensures buf[..n] == PadTo4(file)[off..off + n]
  {
    var m := ReadFile(file, buf, 2048, off);
    ChunkSize(file, off, m);
    if m > 0 {
      ChunkOfImage(file, off, m);
    }
    n := PadWords(buf, m);
  }

  lemma ChunkSize(file: seq<byte>, off: nat, m: nat)
    requires off % 4 == 0 && off <= |PadTo4(file)| && m == if off >= |file| then 0 else Least(2048, |file| - off)
    ensures RoundUp4(m) <= 2048 && RoundUp4(m) % 4 == 0
    ensures off < |PadTo4(file)| <==> m > 0
    ensures m % 4 == 0 || off + m == |file|
  {
  }

  // ---------------------------------------------------------------- upload

  lemma SpliceOn(mem: seq<byte>, base: nat, image: seq<byte>, off: nat, n: nat)
    requires off + n <= |image| && base + |image| <= |mem|
    ensures Splice(Splice(mem, base, image[..off]), base + off, image[off..off + n]) == Splice(mem, base, image[..off + n])
  {
    SpliceTwice(mem, base, image[..off], image[off..off + n]);
    assert image[..off + n] == image[..off] + image[off..off + n];
  }

  method UploadChunk(card: Card, file: seq<byte>, base: nat, buf: array<byte>, off: nat, ghost mem: seq<byte>)
    returns (next: nat)
    requires card.Valid() && buf.Length == 2048 && off % 4 == 0 && off <= |PadTo4(file)|
    requires base + |PadTo4(file)| <= |mem| && card.mem == Splice(mem, base, PadTo4(file)[..off])
    modifies card, buf
    ensures card.Valid() && next % 4 == 0 && off <= next <= |PadTo4(file)|
    ensures next == off <==> off == |PadTo4(file)|
    ensures card.mem == Splice(mem, base, PadTo4(file)[..next])
  {
    ghost var image := PadTo4(file);
    var n := ReadChunk(file, buf, off);
    next := off + n;
    SpliceOn(mem, base, image, off, n);
    if n > 0 {
      Store(card, buf, n, base + off);
    }
  }

  /** upload of a binary file: all of it, in chunks, wherever the windows lie. */
  method UploadBinary(card: Card, file: seq<byte>, base: nat)
    requires card.Valid() && base + |PadTo4(file)| <= |card.mem|
    modifies card
    ensures card.Valid() && card.mem == Splice(old(card.mem), base, PadTo4(file))
  {
    ghost var image, mem := PadTo4(file), card.mem;
    var buf := new byte[2048];
    var off := 0;
    while true
      invariant 0 <= off <= |image| && off % 4 == 0 && card.Valid() && fresh(buf)
      invariant card.mem == Splice(mem, base, image[..off])
      decreases |image| - off
    {
      var next := UploadChunk(card, file, base, buf, off, mem);
      if next == off {
        break;
      }
      off := next;
    }
    assert image[..off] == image;
  }

  lemma SliceOfSlice(s: seq<byte>, at: nat, len: nat, off: nat, n: nat)
    requires at + len <= |s| && off + n <= len
    ensures s[at..at + len][off..off + n] == s[at + off..at + off + n]
  {
    var p, q := s[at..at + len][off..off + n], s[at + off..at + off + n];
    forall i | 0 <= i < n ensures p[i] == q[i] {
      assert p[i] == s[at..at + len][off + i];
    }
  }

  method CompareChunk(card: Card, file: seq<byte>, base: nat, buf: array<byte>, cbuf: array<byte>, off: nat)
    returns (n: nat, same: bool)
    requires card.Valid() && buf.Length == cbuf.Length == 2048 && buf != cbuf
    requires off % 4 == 0 && off <= |PadTo4(file)| && base + |PadTo4(file)| <= |card.mem|
    modifies card, buf, cbuf
    ensures card.Valid() && card.mem == old(card.mem)
    ensures n > 0 <==> off < |PadTo4(file)|
    ensures off + n <= |PadTo4(file)| && n % 4 == 0
    ensures same <==> card.mem[base + off..base + off + n] == PadTo4(file)[off..off + n]
  {
    n := ReadChunk(file, buf, off);
    Load(card, cbuf, n, base + off);
    same := buf[..n] == cbuf[..n];
  }

  lemma SameSoFar(mem: seq<byte>, image: seq<byte>, base: nat, off: nat, n: nat)
    requires off + n <= |image| && base + |image| <= |mem|
    requires mem[base..base + off] == image[..off] && mem[base + off..base + off + n] == image[off..off + n]
    ensures mem[base..base + (off + n)] == image[..off + n]
  {
    assert mem[base..base + (off + n)] == mem[base..base + off] + mem[base + off..base + off + n];
    assert image[..off + n] == image[..off] + image[off..off + n];
  }

  /** upload's compare pass over a binary file: it succeeds exactly when the
      memory holds the padded file. */
  method CompareBinary(card: Card, file: seq<byte>, base: nat) returns (ok: bool)
    requires card.Valid() && base + |PadTo4(file)| <= |card.mem|
    modifies card
    ensures card.Valid() && card.mem == old(card.mem)
    ensures ok <==> card.mem[base..base + |PadTo4(file)|] == PadTo4(file)
  {
    ghost var image, mem := PadTo4(file), card.mem;
    var buf, cbuf := new byte[2048], new byte[2048];
    var off := 0;
    while true
      invariant 0 <= off <= |image| && off % 4 == 0 && card.Valid() && card.mem == mem
      invariant mem[base..base + off] == image[..off]
      invariant fresh(buf) && fresh(cbuf) && buf != cbuf
      decreases |image| - off
    {
      var n, same := CompareChunk(card, file, base, buf, cbuf, off);
      if n == 0 {
        break;
      }
      if !same {
        SliceOfSlice(mem, base, |image|, off, n);
        return false;
      }
      SameSoFar(mem, image, base, off, n);
      off := off + n;
    }
    return true;
  }

  /** upload of a binary file with its compare pass, which then succeeds. */
  method UploadAndCompare(card: Card, file: seq<byte>, base: nat) returns (ok: bool)
    requires card.Valid() && base + |PadTo4(file)| <= |card.mem|
    modifies card
    ensures card.Valid() && ok && card.mem == Splice(old(card.mem), base, PadTo4(file))
  {
    SpliceSlices(card.mem, base, PadTo4(file));
    UploadBinary(card, file, base);
    ok := CompareBinary(card, file, base);
  }

  /** What upload makes of a configuration file: its first 2048 bytes, condensed. */
  function ConfigList(cfg: seq<byte>): seq<byte> {
    if cfg == [] then [] else Condensed(cfg[..Least(2048, |cfg|)])
  }

  /** The whole file counts up to 2048 bytes, and nothing behind them. */
  lemma ConfigRead(cfg: seq<byte>, more: seq<byte>)
    requires cfg != []
    ensures |cfg| <= 2048 ==> ConfigList(cfg) == Condensed(cfg)
    ensures |cfg| == 2048 ==> ConfigList(cfg + more) == Condensed(cfg)
  {
    if |cfg| <= 2048 {
      assert cfg[..|cfg|] == cfg;
    }
    if |cfg| == 2048 {
      assert (cfg + more)[..2048] == cfg;
    }
  }

  /** A list can be four bytes longer than the 2048 asked of kernel_allocate; the block
      it gives for them is of the 0x1000 bucket. */
  lemma ConfigFits(cfg: seq<byte>)
    ensures |ConfigList(cfg)| <= 2052
  {
    if cfg != [] {
      CondensedFits(cfg[..Least(2048, |cfg|)]);
    }
  }

  /** The configuration file read and condensed into a buffer. */
  method ReadConfig(cfg: seq<byte>, buf: array<byte>) returns (n: nat)
    requires buf.Length >= 2052
    modifies buf
    ensures n == |ConfigList(cfg)| <= buf.Length && buf[..n] == ConfigList(cfg)
  {
    ConfigFits(cfg);
    n := ReadFile(cfg, buf, 2048, 0);
    if n > 0 {
      assert cfg[0..0 + n] == cfg[..n];
      n := CondenseInPlace(buf, n);
    }
  }

  /** upload of a configuration file: the list ends 4 bytes below the top of RAM. */
  method UploadConfig(card: Card, cfg: seq<byte>, top: nat) returns (n: nat, ok: bool)
    requires card.Valid() && top <= |card.mem|
    requires |ConfigList(cfg)| + 4 <= top
    modifies card
    ensures card.Valid() && n == |ConfigList(cfg)| && ok
    ensures card.mem == Splice(old(card.mem), top - 4 - |ConfigList(cfg)|, ConfigList(cfg))
  {
    ghost var list := ConfigList(cfg);
    var buf, cbuf := new byte[0x1000], new byte[0x1000];
    ConfigFits(cfg);
    n := ReadConfig(cfg, buf);
    SpliceSlices(card.mem, top - 4 - |list|, list);
    Store(card, buf, n, top - 4 - n);
    Load(card, cbuf, n, top - 4 - n);
    ok := buf[..n] == cbuf[..n];
  }

  // ---------------------------------------------------------------- fwload

  /** `(n & 0xFFFF) | (~n << 16)`: the word count and, above it, its complement. */
  function Footer(words: nat): nat { words % 0x10000 + 0x10000 * (0xFFFF - words % 0x10000) }

  /** The chip reads the count in the low half and its complement in the high half. */
  lemma FooterHalves(words: nat)
    requires words < 0x10000
    ensures var f := Put4(Footer(words));
            && 0x100 * (f[1] as int) + (f[0] as int) == words
            && 0x100 * (f[3] as int) + (f[2] as int) == 0xFFFF - words
  {
    var v, hi := Footer(words), 0xFFFF - words;
    Cut(v, 0x10000, hi, words);
    Cut(v, 0x100, hi * 0x100 + words / 0x100, words % 0x100);
    Cut(hi * 0x100 + words / 0x100, 0x100, hi, words / 0x100);
    Cut(v, 0x100_0000, hi / 0x100, hi % 0x100 * 0x10000 + words);
  }

  /** The memory the firmware finds, as the four writes leave it: a cleared last
      word, the image, the list below the last word, and the footer. */
  function Loaded(mem: seq<byte>, base: nat, top: nat, image: seq<byte>, list: seq<byte>): (r: seq<byte>)
    requires base + |image| <= |mem| && |list| + 4 <= top <= |mem|
    ensures |r| == |mem|
  {
    var m1 := Splice(mem, top - 4, [0, 0, 0, 0]);
    var m2 := Splice(m1, base, image);
    var m3 := Splice(m2, top - 4 - |list|, list);
    Splice(m3, top - 4, Put4(Footer(|list| / 4)))
  }

  /** One byte of the loaded memory. */
  function ByteAt(mem: seq<byte>, base: nat, image: seq<byte>, at: nat, list: seq<byte>, top: nat, foot: seq<byte>, k: nat): byte
    requires |foot| == 4 && base + |image| <= at && at + |list| == top - 4 && top <= |mem| && k < |mem|
  {
    if top - 4 <= k < top then foot[k - (top - 4)]
    else if at <= k < top - 4 then list[k - at]
    else if base <= k < base + |image| then image[k - base]
    else mem[k]
  }

  /** Four splices, byte by byte. */
  lemma FourSplices(mem: seq<byte>, base: nat, image: seq<byte>, at: nat, list: seq<byte>, top: nat, foot: seq<byte>)
    requires |foot| == 4 && base + |image| <= at && at + |list| == top - 4 && top <= |mem|
    ensures var m := Splice(Splice(Splice(Splice(mem, top - 4, [0, 0, 0, 0]), base, image), at, list), top - 4, foot);
            forall k :: 0 <= k < |mem| ==> m[k] == ByteAt(mem, base, image, at, list, top, foot, k)
  {
    var m1 := Splice(mem, top - 4, [0, 0, 0, 0]);
    var m2 := Splice(m1, base, image);
    var m3 := Splice(m2, at, list);
    forall k | 0 <= k < |mem|
      ensures Splice(m3, top - 4, foot)[k] == ByteAt(mem, base, image, at, list, top, foot, k)
    {
      SpliceByte(mem, top - 4, [0, 0, 0, 0], k);
      SpliceByte(m1, base, image, k);
      SpliceByte(m2, at, list, k);
      SpliceByte(m3, top - 4, foot, k);
    }
  }

  lemma SpliceByte(s: seq<byte>, at: nat, piece: seq<byte>, k: nat)
    requires at + |piece| <= |s| && k < |s|
    ensures Splice(s, at, piece)[k] == if at <= k < at + |piece| then piece[k - at] else s[k]
  {
  }

  /** The slices of a memory known byte by byte. */
  lemma Slices(m: seq<byte>, mem: seq<byte>, base: nat, image: seq<byte>, at: nat, list: seq<byte>, top: nat, foot: seq<byte>)
    requires |m| == |mem| && |foot| == 4 && base + |image| <= at && at + |list| == top - 4 && top <= |mem|
    requires forall k :: 0 <= k < |mem| ==> m[k] == ByteAt(mem, base, image, at, list, top, foot, k)
    ensures m[base..base + |image|] == image && m[at..top - 4] == list && m[top - 4..top] == foot
    ensures m[..base] == mem[..base] && m[top..] == mem[top..]
    ensures m[base + |image|..at] == mem[base + |image|..at]
  {
  }

  /** Firmware image: where file and configuration do not overlap, the padded file
      lies at the base of RAM, the condensed configuration ends 4 bytes below its
      top, the footer is its last word, and nothing else has changed. */
  lemma ImageInPlace(mem: seq<byte>, base: nat, top: nat, image: seq<byte>, list: seq<byte>)
    requires base + |image| + |list| + 4 <= top <= |mem|
    ensures var m, n := Loaded(mem, base, top, image, list), |image|;
            && m[base..base + n] == image
            && m[top - 4 - |list|..top - 4] == list
            && m[top - 4..top] == Put4(Footer(|list| / 4))
            && m[..base] == mem[..base] && m[top..] == mem[top..]
            && m[base + n..top - 4 - |list|] == mem[base + n..top - 4 - |list|]
  {
    var foot := Put4(Footer(|list| / 4));
    FourSplices(mem, base, image, top - 4 - |list|, list, top, foot);
    Slices(Loaded(mem, base, top, image, list), mem, base, image, top - 4 - |list|, list, top, foot);
  }

  /** put4 and sbmem of one word. */
  method StoreWord(card: Card, word: seq<byte>, off: nat)
    requires card.Valid() && |word| == 4 && off + 4 <= |card.mem|
    modifies card
    ensures card.Valid() && card.mem == Splice(old(card.mem), off, word)
  {
    var buf := new byte[4];
    buf[0], buf[1], buf[2], buf[3] := word[0], word[1], word[2], word[3];
    assert buf[..4] == word;
    Store(card, buf, 4, off);
  }

  lemma FourWrites(mem: seq<byte>, base: nat, top: nat, image: seq<byte>, list: seq<byte>,
                   m1: seq<byte>, m2: seq<byte>, m3: seq<byte>, m4: seq<byte>)
    requires base + |image| <= |mem| && |list| + 4 <= top <= |mem|
    requires m1 == Splice(mem, top - 4, [0, 0, 0, 0]) && m2 == Splice(m1, base, image)
    requires m3 == Splice(m2, top - 4 - |list|, list) && m4 == Splice(m3, top - 4, Put4(Footer(|list| / 4)))
    ensures m4 == Loaded(mem, base, top, image, list)
  {
  }

  /** fwload, up to the start of the processor, with `top` the end of RAM
      (rambase + socramsize); both compare passes succeed. */
  method FwLoad(card: Card, rambase: nat, top: nat, fw: seq<byte>, cfg: seq<byte>) returns (ok: bool)
    requires card.Valid() && top <= |card.mem| && rambase + |PadTo4(fw)| <= |card.mem|
    requires |ConfigList(cfg)| + 4 <= top
    modifies card
    ensures card.Valid() && ok
    ensures card.mem == Loaded(old(card.mem), rambase, top, PadTo4(fw), ConfigList(cfg))
  {
    ghost var image, list, mem := PadTo4(fw), ConfigList(cfg), card.mem;
    StoreWord(card, [0, 0, 0, 0], top - 4);
    ghost var m1 := card.mem;
    var same := UploadAndCompare(card, fw, rambase);
    ghost var m2 := card.mem;
    var n, sameConfig := UploadConfig(card, cfg, top);
    ghost var m3 := card.mem;
    StoreWord(card, Put4(Footer(n / 4)), top - 4);
    FourWrites(mem, rambase, top, image, list, m1, m2, m3, card.mem);
    ok := same && sameConfig;
  }
}
