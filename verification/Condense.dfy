/** condense of src/plan9_ether4330.c: a configuration file rewritten in place to
    a list of null-terminated entries, against its meaning line by line. */
module Condense {
  import opened Common
  import opened SdioCard

  const HASH: byte := 35
  const CR: byte := 13

  predicate IsEnd(c: byte) { c == 0 || c == 10 }

  function PadTo4(s: seq<byte>): (r: seq<byte>)
    ensures |r| == RoundUp4(|s|) && s <= r
  {
    s + Nulls(RoundUp4(|s|) - |s|)
  }

  // ---------------------------------------------------------------- meaning

  /** The lines of a text; the last one is what follows the last line end. */
  function Lines(s: seq<byte>): (ls: seq<seq<byte>>)
    ensures |ls| >= 1
  {
    if s == [] then [[]]
    else
      var ls, c := Lines(s[..|s| - 1]), s[|s| - 1];
      if IsEnd(c) then ls + [[]] else ls[..|ls| - 1] + [ls[|ls| - 1] + [c]]
  }

  /** A line without its comment and carriage returns. */
  function Stripped(line: seq<byte>): seq<byte> {
    if line == [] || line[0] == HASH then []
    else if line[0] == CR then Stripped(line[1..])
    else [line[0]] + Stripped(line[1..])
  }

  /** A line's contribution: blank lines have none. */
  function Entry(line: seq<byte>): seq<byte> {
    if Stripped(line) == [] then [] else Stripped(line) + [0]
  }

  function Entries(ls: seq<seq<byte>>): seq<byte> {
    if ls == [] then [] else Entries(ls[..|ls| - 1]) + Entry(ls[|ls| - 1])
  }

  /** The documented result: every non-blank line's entry, a null, padding. */
  function Meaning(s: seq<byte>): seq<byte> { PadTo4(Entries(Lines(s)) + [0]) }

  // ---------------------------------------------------------------- what the code computes

  /** The loop's variables: what is written, how much of it belongs to the
      current line, and whether a comment is being skipped. */
  datatype Scan = Scan(out: seq<byte>, open: nat, skipping: bool)

  function Step(st: Scan, c: byte): Scan {
    if c == HASH then st.(skipping := true)
    else if IsEnd(c) then Scan(if st.open > 0 then st.out + [0] else st.out, 0, false)
    else if c == CR || st.skipping then st
    else st.(out := st.out + [c], open := st.open + 1)
  }

  function Scanned(s: seq<byte>): Scan {
    if s == [] then Scan([], 0, false) else Step(Scanned(s[..|s| - 1]), s[|s| - 1])
  }

  function Finished(st: Scan): seq<byte> {
    PadTo4((if !st.skipping && st.open > 0 then st.out + [0] else st.out) + [0])
  }

  function Condensed(s: seq<byte>): seq<byte> { Finished(Scanned(s)) }

  function LastLine(s: seq<byte>): seq<byte> { Lines(s)[|Lines(s)| - 1] }

  /** The input ends inside a comment behind some text. */
  predicate OpenComment(s: seq<byte>) { HASH in LastLine(s) && Stripped(LastLine(s)) != [] }

  /** How many bytes the finished lines' entries and the last line's text take. */
  function TextLength(s: seq<byte>): nat {
    |Entries(Lines(s)[..|Lines(s)| - 1])| + |Stripped(LastLine(s))|
  }

  /** The null that ends the list is missing and the padding does not make up for it. */
  predicate LosesNull(s: seq<byte>) { OpenComment(s) && (TextLength(s) + 1) % 4 == 0 }

  lemma ScannedSnoc(s: seq<byte>, c: byte)
    ensures Scanned(s + [c]) == Step(Scanned(s), c)
  {
    assert (s + [c])[..|s + [c]| - 1] == s;
  }

  // ---------------------------------------------------------------- the code against the meaning

  lemma EntriesSnoc(ls: seq<seq<byte>>, l: seq<byte>)
    ensures Entries(ls + [l]) == Entries(ls) + Entry(l)
  {
    assert (ls + [l])[..|ls + [l]| - 1] == ls;
  }

  lemma {:induction false} StrippedSnoc(l: seq<byte>, c: byte)
    ensures Stripped(l + [c]) == Stripped(l) + (if HASH in l || c == HASH || c == CR then [] else [c])
  {
    if l == [] {
      assert l + [c] == [c] && [c][1..] == [];
    } else {
      assert (l + [c])[1..] == l[1..] + [c];
      if l[0] != HASH {
        StrippedSnoc(l[1..], c);
      }
    }
  }

  /** The scan holds the entries of the finished lines and the stripped last line. */
  predicate Holds(st: Scan, done: seq<byte>, last: seq<byte>) {
    && st.out == done + Stripped(last)
    && st.open == |Stripped(last)|
    && st.skipping == (HASH in last)
  }

  lemma StepHolds(st: Scan, done: seq<byte>, last: seq<byte>, c: byte)
    requires Holds(st, done, last)
    ensures if IsEnd(c) then Holds(Step(st, c), done + Entry(last), []) else Holds(Step(st, c), done, last + [c])
  {
    StrippedSnoc(last, c);
    if IsEnd(c) {
      assert done + Entry(last) == if st.open > 0 then st.out + [0] else st.out;
      assert Stripped([]) == [];
    } else if c != CR && c != HASH && !st.skipping {
      assert done + Stripped(last + [c]) == st.out + [c];
    }
  }

  lemma {:induction false} ScanHolds(s: seq<byte>)
    ensures var ls := Lines(s);
            Holds(Scanned(s), Entries(ls[..|ls| - 1]), ls[|ls| - 1])
  {
    if s != [] {
      var t, c := s[..|s| - 1], s[|s| - 1];
      var ls := Lines(t);
      ScanHolds(t);
      StepHolds(Scanned(t), Entries(ls[..|ls| - 1]), ls[|ls| - 1], c);
      if IsEnd(c) {
        assert Lines(s)[..|Lines(s)| - 1] == ls == ls[..|ls| - 1] + [ls[|ls| - 1]];
        EntriesSnoc(ls[..|ls| - 1], ls[|ls| - 1]);
      } else {
        assert Lines(s)[..|Lines(s)| - 1] == ls[..|ls| - 1];
      }
    }
  }

  lemma EntriesByScan(s: seq<byte>)
    ensures var st := Scanned(s);
            Entries(Lines(s)) == if st.open > 0 then st.out + [0] else st.out
  {
    ScanHolds(s);
    LastEntry(Lines(s));
  }

  lemma LastEntry(ls: seq<seq<byte>>)
    requires |ls| > 0
    ensures Entries(ls) == Entries(ls[..|ls| - 1]) + Entry(ls[|ls| - 1])
  {
  }

  lemma PadMakesUp(b: seq<byte>)
    ensures PadTo4(b + [0]) == PadTo4(b + [0] + [0]) <==> (|b| + 1) % 4 != 0
  {
    if (|b| + 1) % 4 != 0 {
      assert RoundUp4(|b| + 1) == RoundUp4(|b| + 2);
    } else {
      assert |PadTo4(b + [0])| < |PadTo4(b + [0] + [0])|;
    }
  }

  /** The code computes the documented result exactly when the input does not
      end in a comment behind text, or when the padding makes up for the null
      that is then missing: a condition on the text alone. */
  lemma CondenseExact(s: seq<byte>)
    ensures Condensed(s) == Meaning(s) <==> !LosesNull(s)
  {
    var st := Scanned(s);
    assert LosesNull(s) <==> Losing(st) by {
      OpenByScan(s);
      LengthByScan(s);
    }
    EntriesByScan(s);
    FinishedExact(st, Entries(Lines(s)));
  }

  /** The same on the loop's variables. */
  predicate Losing(st: Scan) { st.skipping && st.open > 0 && (|st.out| + 1) % 4 == 0 }

  lemma OpenByScan(s: seq<byte>)
    ensures OpenComment(s) <==> Scanned(s).skipping && Scanned(s).open > 0
  {
    ScanHolds(s);
  }

  lemma LengthByScan(s: seq<byte>)
    ensures TextLength(s) == |Scanned(s).out|
  {
    ScanHolds(s);
  }

  lemma FinishedExact(st: Scan, w: seq<byte>)
    requires w == if st.open > 0 then st.out + [0] else st.out
    ensures Finished(st) == PadTo4(w + [0]) <==> !Losing(st)
  {
    PadMakesUp(st.out);
  }

  /** In particular for every input that ends with a line end. */
  lemma TerminatedIsExact(s: seq<byte>, c: byte)
    requires IsEnd(c)
    ensures Condensed(s + [c]) == Meaning(s + [c])
  {
    ScannedSnoc(s, c);
    CondenseExact(s + [c]);
  }

  /** "abc#" without a line end loses the null that should end the list. */
  lemma CondenseWitness()
    ensures var s := [97, 98, 99, HASH]; Condensed(s) != Meaning(s)
  {
    var s := [97, 98, 99, HASH];
    assert s[..3] == [97, 98, 99] && s[..3][..2] == [97, 98] && s[..3][..2][..1] == [97];
    assert Scanned([97]) == Scan([97], 1, false);
    assert Scanned([97, 98]) == Scan([97, 98], 2, false);
    assert Scanned([97, 98, 99]) == Scan([97, 98, 99], 3, false);
    assert Scanned(s) == Scan([97, 98, 99], 3, true);
    ScanHolds(s);
    CondenseExact(s);
  }

  /** "a", a carriage return, "#b", newline, "c", newline. */
  lemma CondenseExample()
    ensures Condensed([97, 13, 35, 98, 10, 99, 10]) == [97, 0, 99, 0, 0, 0, 0, 0]
  {
    var s0: seq<byte> := [];
    assert Scanned(s0) == Scan([], 0, false);
    Scanning(s0, 97, [97], Scan([], 0, false), Scan([97], 1, false));
    Scanning([97], 13, [97, 13], Scan([97], 1, false), Scan([97], 1, false));
    Scanning([97, 13], 35, [97, 13, 35], Scan([97], 1, false), Scan([97], 1, true));
    Scanning([97, 13, 35], 98, [97, 13, 35, 98], Scan([97], 1, true), Scan([97], 1, true));
    Scanning([97, 13, 35, 98], 10, [97, 13, 35, 98, 10], Scan([97], 1, true), Scan([97, 0], 0, false));
    Scanning([97, 13, 35, 98, 10], 99, [97, 13, 35, 98, 10, 99], Scan([97, 0], 0, false), Scan([97, 0, 99], 1, false));
    Scanning([97, 13, 35, 98, 10, 99], 10, [97, 13, 35, 98, 10, 99, 10], Scan([97, 0, 99], 1, false), Scan([97, 0, 99, 0], 0, false));
    assert RoundUp4(5) == 8 && Nulls(3) == [0, 0, 0];
  }

  lemma Scanning(s: seq<byte>, c: byte, t: seq<byte>, st: Scan, st': Scan)
    requires t == s + [c] && Scanned(s) == st && Step(st, c) == st'
    ensures Scanned(t) == st'
  {
    ScannedSnoc(s, c);
  }

  lemma {:induction false} OutputFits(s: seq<byte>)
    ensures |Scanned(s).out| <= |s|
    ensures Scanned(s).open <= |Scanned(s).out|
  {
    if s != [] {
      OutputFits(s[..|s| - 1]);
    }
  }

  /** How much room the result can take. */
  lemma CondensedFits(s: seq<byte>)
    ensures |Condensed(s)| <= RoundUp4(|s| + 2)
  {
    OutputFits(s);
  }

  // ---------------------------------------------------------------- condensing twice

  /** No line ends but nulls, no comments, no carriage returns, no blank lines. */
  predicate Tidy(s: seq<byte>) {
    s == [] ||
    (var t, c := s[..|s| - 1], s[|s| - 1];
     Tidy(t) && c != 10 && c != HASH && c != CR && (c == 0 ==> EndsOpen(t)))
  }

  /** The last line has some text. */
  predicate EndsOpen(s: seq<byte>) { s != [] && s[|s| - 1] != 0 }

  lemma TidySnoc(s: seq<byte>, c: byte)
    requires Tidy(s) && c != 10 && c != HASH && c != CR && (c == 0 ==> EndsOpen(s))
    ensures Tidy(s + [c])
  {
    assert (s + [c])[..|s + [c]| - 1] == s;
  }

  predicate TidyScan(st: Scan) { Tidy(st.out) && (st.open > 0 <==> EndsOpen(st.out)) }

  lemma StepTidy(st: Scan, c: byte)
    requires TidyScan(st)
    ensures TidyScan(Step(st, c))
  {
    if IsEnd(c) {
      if st.open > 0 {
        TidySnoc(st.out, 0);
      }
    } else if c != HASH && c != CR {
      TidySnoc(st.out, c);
    }
  }

  lemma {:induction false} OutputTidy(s: seq<byte>)
    ensures TidyScan(Scanned(s))
  {
    if s != [] {
      OutputTidy(s[..|s| - 1]);
      StepTidy(Scanned(s[..|s| - 1]), s[|s| - 1]);
    }
  }

  lemma {:induction false} TidyIsFixed(s: seq<byte>)
    requires Tidy(s)
    ensures Scanned(s).out == s && !Scanned(s).skipping
  {
    if s != [] {
      var t, c := s[..|s| - 1], s[|s| - 1];
      TidyIsFixed(t);
      OutputTidy(t);
      assert Step(Scanned(t), c).out == t + [c];
      assert t + [c] == s;
    }
  }

  lemma {:induction false} NullsAddNothing(s: seq<byte>, k: nat)
    requires Scanned(s).open == 0 && !Scanned(s).skipping
    ensures Scanned(s + Nulls(k)) == Scanned(s)
  {
    if k == 0 {
      assert s + Nulls(k) == s;
    } else {
      assert s + Nulls(k) == (s + Nulls(k - 1)) + [0];
      NullsAddNothing(s, k - 1);
      ScannedSnoc(s + Nulls(k - 1), 0);
    }
  }

  /** Condensing a tidy, closed list with nulls behind it leaves the list. */
  lemma CondenseTidy(w: seq<byte>, k: nat)
    requires Tidy(w) && !EndsOpen(w)
    ensures Condensed(w + Nulls(k)) == PadTo4(w + [0])
  {
    TidyIsFixed(w);
    OutputTidy(w);
    NullsAddNothing(w, k);
  }

  /** The first pass leaves the list of entries with nulls behind it. */
  lemma FirstPass(st: Scan, w: seq<byte>)
    requires w == if st.open > 0 then st.out + [0] else st.out
    ensures |w| <= |Finished(st)| && Finished(st) == w + Nulls(|Finished(st)| - |w|)
  {
  }

  /** Condensing any input twice gives its documented meaning, so condensing is
      idempotent exactly where it is right the first time. */
  lemma CondenseTwice(s: seq<byte>)
    ensures Condensed(Condensed(s)) == Meaning(s)
    ensures Condensed(Condensed(s)) == Condensed(s) <==> !LosesNull(s)
  {
    SecondPass(s);
    CondenseExact(s);
  }

  lemma SecondPass(s: seq<byte>)
    ensures Condensed(Condensed(s)) == Meaning(s)
  {
    var w := Entries(Lines(s));
    var k := |Condensed(s)| - |w|;
    assert k >= 0 && Condensed(s) == w + Nulls(k) by {
      EntriesByScan(s);
      FirstPass(Scanned(s), w);
    }
    EntriesTidy(s);
    CondenseTidy(w, k);
  }

  lemma EntriesTidy(s: seq<byte>)
    ensures Tidy(Entries(Lines(s))) && !EndsOpen(Entries(Lines(s)))
  {
    EntriesByScan(s);
    OutputTidy(s);
    if Scanned(s).open > 0 {
      TidySnoc(Scanned(s).out, 0);
    }
  }

  // ---------------------------------------------------------------- in place

  /** `*op++ = c` */
  method Append(buf: array<byte>, op: nat, c: byte)
    requires op < buf.Length
    modifies buf
    ensures buf[..op + 1] == old(buf[..op]) + [c]
    ensures forall k :: op < k < buf.Length ==> buf[k] == old(buf[k])
  {
    buf[op] := c;
  }

  /** One turn of the loop: byte p is read before anything is written over it. */
  method Turn(buf: array<byte>, p: nat, op: nat, lp: nat, skipping: bool, ghost st: Scan)
    returns (op': nat, lp': nat, skipping': bool)
    requires lp <= op <= p < buf.Length
    requires Scan(buf[..op], op - lp, skipping) == st
    modifies buf
    ensures lp' <= op' <= p + 1
    ensures forall k :: p < k < buf.Length ==> buf[k] == old(buf[k])
    ensures Scan(buf[..op'], op' - lp', skipping') == Step(st, old(buf[p]))
  {
    var c := buf[p];
    op', lp', skipping' := op, lp, skipping;
    if c == HASH {
      skipping' := true;
    } else if c == 0 || c == 10 {
      skipping' := false;
      if op != lp {
        Append(buf, op, 0);
        op' := op + 1;
        lp' := op';
      }
    } else if c == CR {
    } else if !skipping {
      Append(buf, op, c);
      op' := op + 1;
    }
  }

  lemma ScannedNext(s: seq<byte>, p: nat)
    requires p < |s|
    ensures Scanned(s[..p + 1]) == Step(Scanned(s[..p]), s[p])
  {
    ScannedSnoc(s[..p], s[p]);
    assert s[..p + 1] == s[..p] + [s[p]];
  }

  /** condense itself. */
  method CondenseInPlace(buf: array<byte>, n: nat) returns (m: nat)
    requires n <= buf.Length && |Condensed(buf[..n])| <= buf.Length
    modifies buf
    ensures m <= buf.Length && buf[..m] == Condensed(old(buf[..n]))
  {
    ghost var s := buf[..n];
    var p, op, lp, skipping := 0, 0, 0, false;
    while p < n
      invariant 0 <= lp <= op <= p <= n
      invariant forall k :: p <= k < n ==> buf[k] == s[k]
      invariant Scan(buf[..op], op - lp, skipping) == Scanned(s[..p])
    {
      ScannedNext(s, p);
      op, lp, skipping := Turn(buf, p, op, lp, skipping, Scanned(s[..p]));
      p := p + 1;
    }
    assert s[..p] == s;
    m := Finish(buf, op, !skipping && op != lp);
  }

  /** `while (n & 3) buf[n++] = 0`, here and in upload. */
  method PadWords(buf: array<byte>, m: nat) returns (n: nat)
    requires RoundUp4(m) <= buf.Length
    modifies buf
    ensures n == RoundUp4(m) && buf[..n] == PadTo4(old(buf[..m]))
  {
    n := m;
    while n % 4 != 0
      invariant m <= n <= RoundUp4(m)
      invariant buf[..n] == old(buf[..m]) + Nulls(n - m)
      decreases RoundUp4(m) - n
    {
      WordsAhead(m, n);
      buf[n] := 0;
      assert buf[..n + 1] == buf[..n] + [0] && Nulls(n + 1 - m) == Nulls(n - m) + [0];
      n := n + 1;
    }
    WordsAhead(m, n);
  }

  lemma WordsAhead(m: nat, n: nat)
    requires m <= n <= RoundUp4(m)
    ensures n % 4 == 0 <==> n == RoundUp4(m)
  {
  }

  /** The nulls behind the last line. */
  method Finish(buf: array<byte>, end: nat, open: bool) returns (m: nat)
    requires end <= buf.Length
    requires |PadTo4((if open then buf[..end] + [0] else buf[..end]) + [0])| <= buf.Length
    modifies buf
    ensures m <= buf.Length
    ensures buf[..m] == PadTo4((if open then old(buf[..end]) + [0] else old(buf[..end])) + [0])
  {
    var op := end;
    if open {
      Append(buf, op, 0);
      op := op + 1;
    }
    Append(buf, op, 0);
    m := PadWords(buf, op + 1);
  }
}
