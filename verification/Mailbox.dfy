/**
 * The property mailbox buffer of `src/rpi-mailbox-interface.c`: tags are laid end to
 * end in an array of 8192 words, and RPI_PropertyGet walks the size words to find one.
 *
 * A word is a signed 32-bit value. The VideoCore's answer is an arbitrary rewrite of
 * the buffer that keeps every tag and size word.
 */
module Mailbox {
  import opened Common
  import opened BitField

  // One value word of a request: written, or passed over with its old content.
  datatype Slot = Argument(position: nat) | Zero | Stale

  // A tag's value words, in order; the size word is four bytes for each.
  type Shape = seq<Slot>

  function Arguments(n: nat): (r: Shape)
    ensures |r| == n
  {
    seq(n, i requires 0 <= i < n => Argument(i))
  }

  function Room(n: nat): (r: Shape)
    ensures |r| == n
  {
    seq(n, _ => Stale)
  }

  /** The switch of RPI_PropertyAddTag; None is its default branch. */
  function ShapeOf(tag: int): (r: Option<Shape>)
    ensures r.Some? ==> tag != 0 && 1 <= |r.value| <= 64
  {
    if tag in {0x1, 0x10001, 0x10002, 0x10003, 0x10004, 0x10005, 0x10006, 0x60001} then Some(Room(2))
    else if tag in {0x10007, 0x50001} then Some(Room(64))
    else if tag in {0x20001, 0x40001, 0x30004, 0x30007, 0x30002} then Some([Argument(0), Zero])
    else if tag in {0x38002, 0x3000C} then Some(Arguments(3))
    else if tag in {0x48003, 0x44003, 0x48004, 0x44004, 0x48009, 0x28001} then Some(Arguments(2))
    else if tag in {0x40003, 0x40004, 0x40009} then Some(Room(2))
    else if tag in {0x48005, 0x48006, 0x48007, 0x30012, 0x3000D, 0x3000E, 0x3000F} then Some(Arguments(1))
    else if tag in {0x40005, 0x40006, 0x40007, 0x40008} then Some(Room(1))
    else if tag in {0x4800A, 0x30011} then Some(Arguments(4))
    else if tag == 0x4000A then Some(Room(4))
    else if tag == 0x30010 then Some(Arguments(7))
    else None
  }

  /** The tags supported. */
  lemma TagsSupported(tag: int)
    ensures ShapeOf(tag).Some? <==>
              tag in {0x1, 0x10001, 0x10002, 0x10003, 0x10004, 0x10005, 0x10006, 0x10007, 0x20001, 0x28001,
                      0x30002, 0x30004, 0x30007, 0x3000C, 0x3000D, 0x3000E, 0x3000F, 0x30010, 0x30011, 0x30012, 0x38002,
                      0x40001, 0x40003, 0x40004, 0x40005, 0x40006, 0x40007, 0x40008, 0x40009, 0x4000A,
                      0x44003, 0x44004, 0x48003, 0x48004, 0x48005, 0x48006, 0x48007, 0x48009, 0x4800A, 0x50001, 0x60001}
  {
  }

  /** The bytes of value that go with each tag. */
  lemma TagBytes(tag: int)
    requires ShapeOf(tag).Some?
    ensures 4 * |ShapeOf(tag).value| ==
              if tag in {0x10007, 0x50001} then 256
              else if tag == 0x30010 then 28
              else if tag in {0x4000A, 0x4800A, 0x30011} then 16
              else if tag in {0x38002, 0x3000C} then 12
              else if tag in {0x40005, 0x40006, 0x40007, 0x40008, 0x48005, 0x48006, 0x48007,
                              0x30012, 0x3000D, 0x3000E, 0x3000F} then 4
              else 8
  {
  }

  /** Which words the caller gives: all for a setter, the first, before a zero, for a query
      with an id, and none for the others. */
  lemma TagArguments(tag: int, j: nat)
    requires ShapeOf(tag).Some? && j < |ShapeOf(tag).value|
    ensures ShapeOf(tag).value[j] ==
              if tag in {0x38002, 0x48003, 0x48004, 0x48009, 0x44003, 0x44004, 0x28001, 0x48005, 0x48006, 0x48007,
                         0x4800A, 0x3000C, 0x3000D, 0x3000E, 0x3000F, 0x30010, 0x30011, 0x30012} then Argument(j)
              else if tag in {0x20001, 0x40001, 0x30002, 0x30004, 0x30007} then (if j == 0 then Argument(0) else Zero)
              else Stale
  {
  }

  // A tag in the list and the number of its value words.
  datatype Entry = Entry(tag: int, words: nat)

  // ---------------------------------------------------------------- layout

  /** Where entry k of the list starts; past the last one, where the list ends. */
  function Start(es: seq<Entry>, k: nat): (i: nat)
    requires k <= |es|
  {
    if k == 0 then 2 else Start(es, k - 1) + 3 + es[k - 1].words
  }

  function End(es: seq<Entry>): (i: nat) { Start(es, |es|) }

  /** The words a walker relies on: each tag with its size in bytes, and the null tag at the end. */
  ghost predicate Laid(pt: seq<int>, es: seq<Entry>) {
    && End(es) < |pt| && pt[End(es)] == 0
    && forall k {:trigger EntryAt(pt, Start(es, k), es[k])} :: 0 <= k < |es| ==> EntryAt(pt, Start(es, k), es[k])
  }

  ghost predicate EntryAt(pt: seq<int>, i: nat, e: Entry) {
    i + 3 + e.words < |pt| && pt[i] == e.tag && pt[i + 1] == 4 * e.words
  }

  lemma {:induction false} StartsGrow(es: seq<Entry>, j: nat, k: nat)
    requires j < k <= |es|
    ensures Start(es, j) + 3 + es[j].words <= Start(es, k)
    decreases k
  {
    if j < k - 1 {
      StartsGrow(es, j, k - 1);
    }
  }

  lemma {:induction false} StartsStay(es: seq<Entry>, e: Entry, k: nat)
    requires k <= |es|
    ensures Start(es + [e], k) == Start(es, k)
  {
    if k > 0 {
      StartsStay(es, e, k - 1);
    }
  }

  lemma EntryStays(pt: seq<int>, es: seq<Entry>, k: nat, after: seq<int>)
    requires Laid(pt, es) && |after| == |pt| && k < |es|
    requires forall i :: 0 <= i < End(es) ==> after[i] == pt[i]
    ensures EntryAt(after, Start(es, k), es[k])
  {
    assert EntryAt(pt, Start(es, k), es[k]);
    StartsGrow(es, k, |es|);
  }

  /** Words written from the end on leave the entries before them in place. */
  lemma LaidGrows(pt: seq<int>, es: seq<Entry>, e: Entry, after: seq<int>)
    requires Laid(pt, es) && |after| == |pt|
    requires forall i :: 0 <= i < End(es) ==> after[i] == pt[i]
    requires EntryAt(after, End(es), e) && after[End(es) + 3 + e.words] == 0
    ensures Laid(after, es + [e]) && End(es + [e]) == End(es) + 3 + e.words
  {
    var more := es + [e];
    StartsStay(es, e, |es|);
    forall k {:trigger EntryAt(after, Start(more, k), more[k])} | 0 <= k < |more|
      ensures EntryAt(after, Start(more, k), more[k])
    {
      if k < |es| {
        StartsStay(es, e, k);
        EntryStays(pt, es, k, after);
      }
    }
  }

  // ---------------------------------------------------------------- walk

  // index += (pt[index + 1] >> 2) + 3; `>>` on a signed word rounds down, as `/` does here.
  function NextIndex(pt: seq<int>, i: nat): (r: int)
    requires i + 1 < |pt|
  {
    i + pt[i + 1] / 4 + 3
  }

  /** From one entry the walker goes to the next. */
  lemma StepsToNext(pt: seq<int>, es: seq<Entry>, k: nat)
    requires Laid(pt, es) && k < |es|
    ensures Start(es, k) + 3 < |pt| && pt[Start(es, k)] == es[k].tag
    ensures NextIndex(pt, Start(es, k)) == Start(es, k + 1) <= End(es)
  {
    assert EntryAt(pt, Start(es, k), es[k]);
    if k + 1 < |es| {
      StartsGrow(es, k + 1, |es|);
    }
  }

  /** The loop of RPI_PropertyGet: at an index, stopped at a match, ended without one, or
      about to read outside the array. */
  datatype Walker = At(i: nat) | Match(i: nat) | Gone | Astray

  function Turn(pt: seq<int>, tag: int, w: Walker): (r: Walker)
    requires |pt| > 0
  {
    if !w.At? then w
    else if w.i >= pt[0] / 4 then Gone
    else if w.i >= |pt| then Astray
    else if pt[w.i] == tag then Match(w.i)
    else if w.i + 1 >= |pt| then Astray
    else
      var j := NextIndex(pt, w.i);
      if j < 0 then Astray else At(j)
  }

  function Walk(pt: seq<int>, tag: int, w: Walker, turns: nat): (r: Walker)
    requires |pt| > 0
    decreases turns
  {
    if turns == 0 then w else Walk(pt, tag, Turn(pt, tag, w), turns - 1)
  }

  lemma {:induction false} WalkOn(pt: seq<int>, tag: int, w: Walker, a: nat, b: nat)
    requires |pt| > 0
    ensures Walk(pt, tag, w, a + b) == Walk(pt, tag, Walk(pt, tag, w, a), b)
    decreases a
  {
    if a > 0 {
      WalkOn(pt, tag, Turn(pt, tag, w), a - 1, b);
    }
  }

  // The size word counts the list and its null tag, which is not the buffer's last word.
  ghost predicate Counted(pt: seq<int>, es: seq<Entry>) {
    Laid(pt, es) && End(es) + 1 < |pt| && pt[0] == 4 * (End(es) + 1)
  }

  lemma TurnAtEntry(pt: seq<int>, es: seq<Entry>, tag: int, k: nat)
    requires Counted(pt, es) && k < |es|
    ensures Turn(pt, tag, At(Start(es, k))) == if es[k].tag == tag then Match(Start(es, k)) else At(Start(es, k + 1))
  {
    StepsToNext(pt, es, k);
    StartsGrow(es, k, |es|);
  }

  /** Up to the first entry with the tag the walk meets exactly the starts of the entries. */
  lemma {:induction false} MeetsStarts(pt: seq<int>, es: seq<Entry>, tag: int, k: nat)
    requires Counted(pt, es) && k <= FirstIndex(es, tag)
    ensures Walk(pt, tag, At(2), k) == At(Start(es, k))
  {
    if k > 0 {
      MeetsStarts(pt, es, tag, k - 1);
      WalkOn(pt, tag, At(2), k - 1, 1);
      TurnAtEntry(pt, es, tag, k - 1);
    }
  }

  /** A tag that is in the list is found at its first occurrence. */
  lemma PresentTag(pt: seq<int>, es: seq<Entry>, tag: int)
    requires Counted(pt, es) && FirstIndex(es, tag) < |es|
    ensures var k := FirstIndex(es, tag); Walk(pt, tag, At(2), k + 1) == Match(Start(es, k))
  {
    var k := FirstIndex(es, tag);
    MeetsStarts(pt, es, tag, k);
    WalkOn(pt, tag, At(2), k, 1);
    TurnAtEntry(pt, es, tag, k);
  }

  // Where the walk goes from the null tag, by the word behind the list.
  function Landing(pt: seq<int>, es: seq<Entry>): (j: int)
    requires End(es) + 1 < |pt|
  {
    NextIndex(pt, End(es))
  }

  lemma FromTheEnd(pt: seq<int>, es: seq<Entry>, tag: int, t: nat)
    requires Counted(pt, es) && tag != 0 && FirstIndex(es, tag) == |es|
    ensures var j := Landing(pt, es);
            Walk(pt, tag, At(2), |es| + 1 + t) == Walk(pt, tag, if j < 0 then Astray else At(j), t)
  {
    MeetsStarts(pt, es, tag, |es|);
    WalkOn(pt, tag, At(2), |es|, 1 + t);
  }

  /** The loop ends without a match, so the caller gets NULL. */
  ghost predicate GivesNull(pt: seq<int>, tag: int, from: Walker)
    requires |pt| > 0
  {
    exists turns: nat :: Walk(pt, tag, from, turns) == Gone
  }

  lemma {:induction false} GoneStays(pt: seq<int>, tag: int, w: Walker, turns: nat)
    requires |pt| > 0 && !w.At?
    ensures Walk(pt, tag, w, turns) == w
    decreases turns
  {
    if turns > 0 {
      GoneStays(pt, tag, w, turns - 1);
    }
  }

  ghost function Below(n: nat): (r: set<nat>)
    ensures |r| == n && forall x: nat :: x in r <==> x < n
  {
    if n == 0 then {} else Below(n - 1) + {n - 1}
  }

  // The walk from w ends without a match after exactly t turns.
  ghost predicate GoneAfter(pt: seq<int>, tag: int, w: Walker, t: nat)
    requires |pt| > 0
  {
    Walk(pt, tag, w, t) == Gone && forall u :: 0 <= u < t ==> Walk(pt, tag, w, u) != Gone
  }

  lemma {:induction false} FirstGone(pt: seq<int>, tag: int, w: Walker, turns: nat) returns (t: nat)
    requires |pt| > 0 && Walk(pt, tag, w, turns) == Gone
    ensures t <= turns && GoneAfter(pt, tag, w, t)
    decreases turns
  {
    t := turns;
    if u :| 0 <= u < turns && Walk(pt, tag, w, u) == Gone {
      t := FirstGone(pt, tag, w, u);
    }
  }

  /** A walk that ends does so before it meets an index twice; `ahead` holds the indices of
      the list that it can still meet. */
  lemma {:induction false} EndsSoon(pt: seq<int>, tag: int, i: nat, t: nat, end: nat, ahead: set<nat>)
    requires |pt| > 0 && pt[0] == 4 * (end + 1) && GoneAfter(pt, tag, At(i), t)
    requires forall u, x: nat :: 0 <= u < t && Walk(pt, tag, At(i), u) == At(x) && x <= end ==> x in ahead
    ensures t <= |ahead| + 1
    decreases t
  {
    assert Walk(pt, tag, At(i), 0) == At(i);
    assert t > 0;
    if i > end {
      assert Walk(pt, tag, At(i), 1) == Gone;
    } else {
      var next := Turn(pt, tag, At(i));
      GoneStays(pt, tag, Astray, t - 1);
      GoneStays(pt, tag, Match(i), t - 1);
      assert Walk(pt, tag, At(i), 1) == next && next.At?;
      forall u | 0 <= u < t - 1 ensures Walk(pt, tag, next, u) != Gone {
        assert Walk(pt, tag, At(i), u + 1) == Walk(pt, tag, next, u);
      }
      forall u, x: nat | 0 <= u < t - 1 && Walk(pt, tag, next, u) == At(x) && x <= end ensures x in ahead - {i} {
        assert Walk(pt, tag, At(i), u + 1) == At(x);
        if x == i {
          WalkOn(pt, tag, At(i), u + 1, t - (u + 1));
          assert false;
        }
      }
      EndsSoon(pt, tag, next.i, t - 1, end, ahead - {i});
    }
  }

  /** Whether the loop ends without a match is decided after as many turns as the list has
      words, and two: more turns change nothing. */
  lemma Decided(pt: seq<int>, tag: int, i: nat, end: nat)
    requires |pt| > 0 && pt[0] == 4 * (end + 1)
    ensures GivesNull(pt, tag, At(i)) <==> Walk(pt, tag, At(i), end + 2) == Gone
  {
    if GivesNull(pt, tag, At(i)) {
      var turns: nat :| Walk(pt, tag, At(i), turns) == Gone;
      var t := FirstGone(pt, tag, At(i), turns);
      EndsSoon(pt, tag, i, t, end, Below(end + 1));
      WalkOn(pt, tag, At(i), t, end + 2 - t);
      GoneStays(pt, tag, Gone, end + 2 - t);
    }
  }

  /**
   * A tag that is not in the list gives NULL if and only if the word behind the list,
   * which no request wrote, is at least -8, or is below -12 and sends the walk back to a
   * place from which it ends within as many turns as the list has words, and two.
   */
  lemma AbsentTag(pt: seq<int>, es: seq<Entry>, tag: int)
    requires Counted(pt, es) && tag != 0 && FirstIndex(es, tag) == |es|
    ensures var word, j := pt[End(es) + 1], Landing(pt, es);
            && (word >= -8 ==> Walk(pt, tag, At(2), |es| + 2) == Gone)
            && (GivesNull(pt, tag, At(2)) <==>
                  word >= -8 || (word < -12 && j >= 0 && Walk(pt, tag, At(j), End(es) + 2) == Gone))
  {
    AbsentByLanding(pt, es, tag);
    if Landing(pt, es) >= 0 {
      Decided(pt, tag, Landing(pt, es), End(es));
    }
  }

  lemma AbsentByLanding(pt: seq<int>, es: seq<Entry>, tag: int)
    requires Counted(pt, es) && tag != 0 && FirstIndex(es, tag) == |es|
    ensures var word, j := pt[End(es) + 1], Landing(pt, es);
            && (word >= -8 ==> Walk(pt, tag, At(2), |es| + 2) == Gone)
            && (GivesNull(pt, tag, At(2)) <==>
                  word >= -8 || (word < -12 && j >= 0 && GivesNull(pt, tag, At(j))))
  {
    var word, j := pt[End(es) + 1], Landing(pt, es);
    FromTheEnd(pt, es, tag, 1);
    if word >= -8 {
      assert Walk(pt, tag, At(j), 1) == Turn(pt, tag, At(j)) == Gone;
    } else {
      if GivesNull(pt, tag, At(2)) {
        var turns: nat :| Walk(pt, tag, At(2), turns) == Gone;
        if turns <= |es| {
          MeetsStarts(pt, es, tag, turns);
        } else {
          FromTheEnd(pt, es, tag, turns - |es| - 1);
          GoneStays(pt, tag, Astray, turns - |es| - 1);
        }
      }
      if word >= -12 {
        NeverEnds(pt, es, tag, |es|);
      } else if j >= 0 && GivesNull(pt, tag, At(j)) {
        var t: nat :| Walk(pt, tag, At(j), t) == Gone;
        FromTheEnd(pt, es, tag, t);
      }
    }
  }

  /** If the step from the null tag leads back to an entry, or to the null tag itself, as
      for -12 to -9, the loop never ends. */
  lemma NeverEnds(pt: seq<int>, es: seq<Entry>, tag: int, k: nat)
    requires Counted(pt, es) && tag != 0 && FirstIndex(es, tag) == |es|
    requires k <= |es| && Landing(pt, es) == Start(es, k)
    ensures forall turns: nat :: Walk(pt, tag, At(2), turns).At?
    ensures !GivesNull(pt, tag, At(2))
  {
    forall turns: nat ensures Walk(pt, tag, At(2), turns).At? {
      GoesRound(pt, es, tag, k, 0, turns);
    }
  }

  lemma {:induction false} GoesRound(pt: seq<int>, es: seq<Entry>, tag: int, k: nat, j: nat, turns: nat)
    requires Counted(pt, es) && tag != 0 && FirstIndex(es, tag) == |es|
    requires k <= |es| && j <= |es| && Landing(pt, es) == Start(es, k)
    ensures Walk(pt, tag, At(Start(es, j)), turns).At?
    decreases turns
  {
    if turns > 0 {
      if j < |es| {
        TurnAtEntry(pt, es, tag, j);
        GoesRound(pt, es, tag, k, j + 1, turns - 1);
      } else {
        GoesRound(pt, es, tag, k, k, turns - 1);
      }
    }
  }

  /** The buffer that StaleRequest leaves with -9 as the third argument: every tag but the
      one in the list is looked for without end. */
  lemma StuckWitness(pt: seq<int>, tag: int)
    requires Counted(pt, [Entry(0x40008, 1)]) && pt[7] == -9 && tag != 0 && tag != 0x40008
    ensures forall turns: nat :: Walk(pt, tag, At(2), turns).At?
  {
    var es := [Entry(0x40008, 1)];
    assert Start(es, 1) == 6 && Landing(pt, es) == 6;
    assert FirstIndex(es, tag) == 1;
    NeverEnds(pt, es, tag, 1);
  }

  /** With -16 there the walk steps back to a value word; if that is the number of the tag
      asked for, an absent tag is found. */
  lemma FalseMatchWitness(pt: seq<int>, tag: int)
    requires Counted(pt, [Entry(0x40008, 1)]) && pt[7] == -16 && pt[5] == tag && tag != 0 && tag != 0x40008
    ensures Walk(pt, tag, At(2), 3) == Match(5)
  {
    var es := [Entry(0x40008, 1)];
    assert Start(es, 1) == 6 && Landing(pt, es) == 5;
    assert FirstIndex(es, tag) == 1;
    FromTheEnd(pt, es, tag, 1);
    assert Walk(pt, tag, At(5), 1) == Turn(pt, tag, At(5));
  }

  ghost function FirstIndex(es: seq<Entry>, tag: int): (k: nat)
    ensures k <= |es| && forall j :: 0 <= j < k ==> es[j].tag != tag
    ensures k < |es| ==> es[k].tag == tag
  {
    if es == [] || es[0].tag == tag then 0 else 1 + FirstIndex(es[1..], tag)
  }

  // Byte n of the words, least significant byte of each word first.
  function ByteAt(pt: seq<int>, n: nat): (b: byte)
    requires n < 4 * |pt|
  {
    var w := pt[n / 4] % 0x1_0000_0000;
    var q := match n % 4 case 0 => w case 1 => w / 0x100 case 2 => w / 0x1_0000 case _ => w / 0x100_0000;
    q % 256
  }

  // The bytes the answer says it holds for the tag at i.
  function AnswerLength(pt: seq<int>, i: nat): (n: nat)
    requires i + 2 < |pt|
  {
    pt[i + 2] % 0x1_0000
  }

  function Payload(pt: seq<int>, i: nat): (r: seq<byte>)
    requires i + 2 < |pt| && 4 * (i + 3) + AnswerLength(pt, i) <= 4 * |pt|
    ensures |r| == AnswerLength(pt, i)
  {
    seq<byte>(AnswerLength(pt, i), j requires 0 <= j < AnswerLength(pt, i) => ByteAt(pt, 4 * (i + 3) + j))
  }

  /** The four bytes of a word are its little-endian number, modulo 2^32. */
  lemma WordBytes(pt: seq<int>, i: nat)
    requires i < |pt|
    ensures LittleEndian([ByteAt(pt, 4 * i), ByteAt(pt, 4 * i + 1), ByteAt(pt, 4 * i + 2), ByteAt(pt, 4 * i + 3)])
            == pt[i] % 0x1_0000_0000
  {
    var w := pt[i] % 0x1_0000_0000;
    ByteOfWord(pt, i, 0);
    ByteOfWord(pt, i, 1);
    ByteOfWord(pt, i, 2);
    ByteOfWord(pt, i, 3);
    assert [ByteAt(pt, 4 * i), ByteAt(pt, 4 * i + 1), ByteAt(pt, 4 * i + 2), ByteAt(pt, 4 * i + 3)] == Put4(w);
    Put4Reads(w);
  }

  lemma ByteOfWord(pt: seq<int>, i: nat, j: nat)
    requires i < |pt| && j < 4
    ensures ByteAt(pt, 4 * i + j) == Put4(pt[i] % 0x1_0000_0000)[j]
  {
    assert (4 * i + j) / 4 == i && (4 * i + j) % 4 == j;
  }

  /** The answer's length is the number in the low two bytes of its word. */
  lemma AnswerLengthBytes(pt: seq<int>, i: nat)
    requires i + 2 < |pt|
    ensures AnswerLength(pt, i) == ByteAt(pt, 4 * (i + 2)) + 0x100 * ByteAt(pt, 4 * (i + 2) + 1)
  {
    var n := 4 * (i + 2);
    assert n / 4 == (n + 1) / 4 == i + 2 && n % 4 == 0 && (n + 1) % 4 == 1;
    LowHalf(pt[i + 2]);
  }

  lemma LowHalf(w: int)
    ensures w % 0x1_0000 == w % 0x1_0000_0000 % 256 + 0x100 * (w % 0x1_0000_0000 / 0x100 % 256)
  {
    var u := w % 0x1_0000_0000;
    assert w == w / 0x1_0000_0000 * 0x1_0000_0000 + u;
    assert w % 0x1_0000 == u % 0x1_0000;
  }

  /** Each whole word of a payload is the value word the answer holds there. */
  lemma PayloadWords(pt: seq<int>, i: nat, w: nat)
    requires i + 2 < |pt| && 4 * (i + 3) + AnswerLength(pt, i) <= 4 * |pt| && 4 * w + 4 <= AnswerLength(pt, i)
    ensures LittleEndian(Payload(pt, i)[4 * w..4 * w + 4]) == pt[i + 3 + w] % 0x1_0000_0000
  {
    var at := i + 3 + w;
    WordBytes(pt, at);
    assert Payload(pt, i)[4 * w..4 * w + 4] ==
           [ByteAt(pt, 4 * at), ByteAt(pt, 4 * at + 1), ByteAt(pt, 4 * at + 2), ByteAt(pt, 4 * at + 3)];
  }

  // The answer lies inside the buffer, and inside the 256 bytes of the property.
  ghost predicate AnswerFits(pt: seq<int>, i: nat) {
    i + 2 < |pt| && 4 * (i + 3) + AnswerLength(pt, i) <= 4 * |pt| && AnswerLength(pt, i) <= 256
  }

  // ---------------------------------------------------------------- the buffer

  function SlotValue(s: Slot, arguments: seq<int>, old_: int): (v: int)
    requires s.Argument? ==> s.position < |arguments|
  {
    match s
    case Argument(p) => arguments[p]
    case Zero => 0
    case Stale => old_
  }

  ghost predicate Given(shape: Shape, arguments: seq<int>) {
    forall j :: 0 <= j < |shape| && shape[j].Argument? ==> shape[j].position < |arguments|
  }

  class Properties {
    const pt: array<int>
    var index: nat
    ghost var entries: seq<Entry>

    ghost predicate Valid()
      reads this, pt
    {
      pt.Length == 8192 && index == End(entries) && Laid(pt[..], entries)
    }

    ghost predicate Sized()
      reads this, pt
    {
      pt.Length > 0 && pt[0] == 4 * (index + 1)
    }

    // RPI_PropertyInit, on a buffer with any earlier content.
    constructor (words: array<int>)
      requires words.Length == 8192
      modifies words
      ensures Valid() && Sized() && pt == words && entries == []
      ensures pt[1] == 0 && pt[3..] == old(words[3..])
    {
      pt := words;
      words[0] := 12;
      words[1] := 0;
      index := 2;
      words[2] := 0;
      entries := [];
    }

    method PutSlots(shape: Shape, arguments: seq<int>)
      requires index + |shape| < pt.Length && Given(shape, arguments)
      modifies this`index, pt
      ensures index == old(index) + |shape|
      ensures forall i :: 0 <= i < old(index) || index <= i < pt.Length ==> pt[i] == old(pt[i])
      ensures forall i :: old(index) <= i < index ==> pt[i] == SlotValue(shape[i - old(index)], arguments, old(pt[i]))
    {
      var j: nat := 0;
      while j < |shape|
        invariant j <= |shape| && index == old(index) + j
        invariant forall i :: 0 <= i < old(index) || index <= i < pt.Length ==> pt[i] == old(pt[i])
        invariant forall i :: old(index) <= i < index ==> pt[i] == SlotValue(shape[i - old(index)], arguments, old(pt[i]))
        decreases |shape| - j
      {
        pt[index] := SlotValue(shape[j], arguments, pt[index]);
        index := index + 1;
        j := j + 1;
      }
    }

    // The supported branches: size, request code and value words after the tag.
    method Lay(tag: int, shape: Shape, arguments: seq<int>)
      requires Valid() && index + 3 + |shape| < pt.Length && Given(shape, arguments)
      modifies this, pt
      ensures Valid() && entries == old(entries) + [Entry(tag, |shape|)]
      ensures forall i :: 0 <= i < old(index) || index < i < pt.Length ==> pt[i] == old(pt[i])
      ensures index == old(index) + 3 + |shape| && pt[old(index) + 2] == 0
      ensures forall i :: old(index) + 3 <= i < index ==>
        pt[i] == SlotValue(shape[i - old(index) - 3], arguments, old(pt[i]))
    {
      ghost var before := pt[..];
      pt[index] := tag;
      index := index + 1;
      pt[index] := 4 * |shape|;
      index := index + 1;
      pt[index] := 0;
      index := index + 1;
      PutSlots(shape, arguments);
      pt[index] := 0;
      LaidGrows(before, entries, Entry(tag, |shape|), pt[..]);
      entries := entries + [Entry(tag, |shape|)];
    }

    /** RPI_PropertyAddTag: an unsupported tag leaves the list and every word as they were. */
    method AddTag(tag: int, arguments: seq<int>)
      requires Valid()
      requires ShapeOf(tag).Some? ==>
        index + 3 + |ShapeOf(tag).value| < pt.Length && Given(ShapeOf(tag).value, arguments)
      modifies this, pt
      ensures Valid()
      ensures ShapeOf(tag).None? ==> entries == old(entries) && index == old(index) && pt[..] == old(pt[..])
      ensures ShapeOf(tag).Some? ==> entries == old(entries) + [Entry(tag, |ShapeOf(tag).value|)]
      ensures forall i :: 0 <= i < old(index) || index < i < pt.Length ==> pt[i] == old(pt[i])
      ensures ShapeOf(tag).Some? ==>
        && index == old(index) + 3 + |ShapeOf(tag).value|
        && pt[old(index) + 2] == 0
        && forall i :: old(index) + 3 <= i < index ==>
          pt[i] == SlotValue(ShapeOf(tag).value[i - old(index) - 3], arguments, old(pt[i]))
    {
      match ShapeOf(tag)
      case Some(shape) => Lay(tag, shape, arguments);
      case None =>
        pt[index] := tag;
        pt[index] := 0;
        assert pt[..] == old(pt[..]);
    }

    /**
     * RPI_PropertyProcess: the size word counts the list and its null tag; the answer
     * replaces the buffer and keeps the tags and their sizes.
     */
    method Process(answer: seq<int>)
      requires Valid()
      requires Laid(answer, entries) && |answer| == pt.Length && answer[0] == 4 * (index + 1)
      modifies pt
      ensures Valid() && Sized() && pt[..] == answer
    {
      pt[0] := 4 * (index + 1);
      pt[1] := 0;
      forall i | 0 <= i < pt.Length {
        pt[i] := answer[i];
      }
      assert pt[..] == answer;
    }

    /** The loop of RPI_PropertyGet, when it ends inside the buffer. */
    method Find(tag: int, ghost turns: nat) returns (r: Option<nat>)
      requires Valid() && Sized()
      requires var w := Walk(pt[..], tag, At(2), turns); w.Match? || w == Gone
      ensures Walk(pt[..], tag, At(2), turns) == if r == None then Gone else Match(r.value)
    {
      var i: nat := 2;
      ghost var left := turns;
      while i < pt[0] / 4
        invariant Walk(pt[..], tag, At(i), left) == Walk(pt[..], tag, At(2), turns)
        decreases left
      {
        GoneStays(pt[..], tag, Astray, left - 1);
        if pt[i] == tag {
          GoneStays(pt[..], tag, Match(i), left - 1);
          return Some(i);
        }
        i := i + pt[i + 1] / 4 + 3;
        left := left - 1;
      }
      GoneStays(pt[..], tag, Gone, if left > 0 then left - 1 else 0);
      return None;
    }

    /** RPI_PropertyGet: the bytes answered to the first occurrence of the tag, if it is in
        the list; NULL if it is not and the word behind the list is at least -8. */
    method Get(tag: int, property: array<byte>) returns (length: Option<nat>)
      requires Valid() && Sized() && tag != 0 && index + 1 < pt.Length && property.Length == 256
      requires FirstIndex(entries, tag) == |entries| ==> pt[index + 1] >= -8
      requires FirstIndex(entries, tag) < |entries| ==> AnswerFits(pt[..], Start(entries, FirstIndex(entries, tag)))
      modifies property
      ensures FirstIndex(entries, tag) == |entries| ==> length == None && property[..] == old(property[..])
      ensures FirstIndex(entries, tag) < |entries| ==>
        var i := Start(entries, FirstIndex(entries, tag));
        && AnswerFits(pt[..], i) && length == Some(AnswerLength(pt[..], i))
        && property[..length.value] == Payload(pt[..], i)
        && property[length.value..] == old(property[length.value..])
    {
      ghost var first := FirstIndex(entries, tag);
      if first < |entries| {
        PresentTag(pt[..], entries, tag);
      } else {
        AbsentTag(pt[..], entries, tag);
      }
      var found := Find(tag, if first < |entries| then first + 1 else first + 2);
      if found == None {
        return None;
      }
      var i := found.value;
      ghost var whole := pt[..];
      var payload := Payload(pt[..], i);
      forall j | 0 <= j < |payload| {
        property[j] := payload[j];
      }
      assert pt[..] == whole && property[..|payload|] == payload;
      return Some(|payload|);
    }
  }

  lemma SizeWordApart(pt: seq<int>, es: seq<Entry>, size: int)
    requires Laid(pt, es)
    ensures Laid(pt[0 := size], es)
  {
    var after := pt[0 := size];
    forall k {:trigger EntryAt(after, Start(es, k), es[k])} | 0 <= k < |es|
      ensures EntryAt(after, Start(es, k), es[k])
    {
      assert EntryAt(pt, Start(es, k), es[k]);
    }
  }

  /** A request for code to be run, whose arguments stay in the buffer. */
  method FirstRequest(words: array<int>, arguments: seq<int>)
    requires words.Length == 8192 && |arguments| == 7
    modifies words
    ensures words[3..][2] == arguments[0] && words[3..][4] == arguments[2]
  {
    var first := new Properties(words);
    assert ShapeOf(0x30010) == Some(Arguments(7));
    first.AddTag(0x30010, arguments);
    assert words[5] == arguments[0] && words[7] == arguments[2];
  }

  /** Two requests in a row, the second answered by nothing but its size word: the third
      argument of the first is left behind the list of the second. */
  method StaleRequest(words: array<int>, arguments: seq<int>) returns (p: Properties)
    requires words.Length == 8192 && |arguments| == 7
    modifies words
    ensures p.Valid() && p.Sized() && p.pt == words && p.entries == [Entry(0x40008, 1)]
    ensures Counted(words[..], p.entries) && words[5] == arguments[0] && words[7] == arguments[2]
  {
    FirstRequest(words, arguments);
    p := new Properties(words);
    assert words[5] == words[3..][2] && words[7] == words[3..][4];
    assert ShapeOf(0x40008) == Some(Room(1));
    p.AddTag(0x40008, []);
    assert words[5] == arguments[0] && words[7] == arguments[2];
    SizeWordApart(words[..], p.entries, 4 * (p.index + 1));
    p.Process(words[..][0 := 4 * (p.index + 1)]);
  }
}
