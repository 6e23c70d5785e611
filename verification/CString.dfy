/** String replacement over a growing buffer (src/cstring.c: ReserveSpace, PutChar,
    PutString, replace_in_cstring; src/string.c: strchr, strcpy). */
module CString {
  const NUL: char := '\0'

  // ---------------------------------------------------------------- replacement

  predicate Starts(text: seq<char>, old': seq<char>) {
    |old'| <= |text| && text[..|old'|] == old'
  }

  lemma StartsAt(text: seq<char>, at: nat, old': seq<char>)
    requires at <= |text|
    ensures Starts(text[at..], old') <==>
              at + |old'| <= |text| && forall k :: 0 <= k < |old'| ==> text[at + k] == old'[k]
  {
    if at + |old'| <= |text| {
      var p := text[at..][..|old'|];
      assert forall k :: 0 <= k < |old'| ==> p[k] == text[at + k];
    }
  }

  /** Leftmost non-overlapping replacement. */
  function Replace(text: seq<char>, old': seq<char>, new': seq<char>): seq<char>
    requires old' != []
    decreases |text|
  {
    if text == [] then []
    else if Starts(text, old') then new' + Replace(text[|old'|..], old', new')
    else [text[0]] + Replace(text[1..], old', new')
  }

  /** How many times. */
  function Count(text: seq<char>, old': seq<char>): nat
    requires old' != []
    decreases |text|
  {
    if text == [] then 0
    else if Starts(text, old') then 1 + Count(text[|old'|..], old')
    else Count(text[1..], old')
  }

  // ---------------------------------------------------------------- what it means

  /** The text between the replaced occurrences. */
  function Pieces(text: seq<char>, old': seq<char>): (ps: seq<seq<char>>)
    requires old' != []
    ensures |ps| > 0
    decreases |text|
  {
    if text == [] then [[]]
    else if Starts(text, old') then [[]] + Pieces(text[|old'|..], old')
    else
      var ps := Pieces(text[1..], old');
      [[text[0]] + ps[0]] + ps[1..]
  }

  function Join(ps: seq<seq<char>>, sep: seq<char>): seq<char>
    requires |ps| > 0
  {
    if |ps| == 1 then ps[0] else ps[0] + sep + Join(ps[1..], sep)
  }

  lemma JoinCons(c: char, ps: seq<seq<char>>, sep: seq<char>)
    requires |ps| > 0
    ensures Join([[c] + ps[0]] + ps[1..], sep) == [c] + Join(ps, sep)
  {
    var qs := [[c] + ps[0]] + ps[1..];
    if |ps| > 1 {
      assert qs[1..] == ps[1..];
      assert [c] + ps[0] + sep + Join(ps[1..], sep) == [c] + (ps[0] + sep + Join(ps[1..], sep));
    }
  }

  lemma JoinFirst(ps: seq<seq<char>>, sep: seq<char>)
    requires |ps| > 0
    ensures Join([[]] + ps, sep) == sep + Join(ps, sep)
  {
    assert ([[]] + ps)[1..] == ps;
    assert [] + sep + Join(ps, sep) == sep + Join(ps, sep);
  }

  /** The pieces joined by the pattern are the text; joined by the replacement they
      are the result; and there is one more of them than replacements. */
  lemma {:induction false} ReplaceJoins(text: seq<char>, old': seq<char>, new': seq<char>)
    requires old' != []
    ensures Join(Pieces(text, old'), old') == text
    ensures Join(Pieces(text, old'), new') == Replace(text, old', new')
    ensures |Pieces(text, old')| == Count(text, old') + 1
    decreases |text|
  {
    if text == [] {
    } else if Starts(text, old') {
      var rest := text[|old'|..];
      ReplaceJoins(rest, old', new');
      JoinFirst(Pieces(rest, old'), old');
      JoinFirst(Pieces(rest, old'), new');
      assert text == old' + rest;
    } else {
      ReplaceJoins(text[1..], old', new');
      var ps := Pieces(text[1..], old');
      JoinCons(text[0], ps, old');
      JoinCons(text[0], ps, new');
    }
  }

  predicate OccursAt(s: seq<char>, at: nat, old': seq<char>) { at <= |s| && Starts(s[at..], old') }

  predicate NoneIn(s: seq<char>, n: nat, old': seq<char>) { forall at :: 0 <= at < n ==> !OccursAt(s, at, old') }

  /** The first piece, and the separator behind it if there is one. */
  function FirstPart(ps: seq<seq<char>>, sep: seq<char>): (s: seq<char>)
    requires |ps| > 0
    ensures |s| >= |ps[0]|
  {
    if |ps| == 1 then ps[0] else ps[0] + sep
  }

  /** No occurrence of the pattern begins inside a piece: every replaced occurrence
      is the leftmost one behind the previous, and none is left over. */
  predicate NoneEarlier(ps: seq<seq<char>>, old': seq<char>)
    requires |ps| > 0
    decreases |ps|
  {
    && NoneIn(FirstPart(ps, old'), |ps[0]|, old')
    && (|ps| > 1 ==> NoneEarlier(ps[1..], old'))
  }

  lemma {:induction false} PiecesLeftmost(text: seq<char>, old': seq<char>)
    requires old' != []
    ensures NoneEarlier(Pieces(text, old'), old')
    decreases |text|
  {
    if text == [] {
    } else if Starts(text, old') {
      PiecesLeftmost(text[|old'|..], old');
      assert ([[]] + Pieces(text[|old'|..], old'))[1..] == Pieces(text[|old'|..], old');
    } else {
      PiecesLeftmost(text[1..], old');
      ReplaceJoins(text[1..], old', []);
      ConsLeftmost(text, Pieces(text[1..], old'), old');
    }
  }

  lemma ConsLeftmost(text: seq<char>, ps: seq<seq<char>>, old': seq<char>)
    requires |ps| > 0 && |text| > 0 && !Starts(text, old') && old' != []
    requires NoneEarlier(ps, old') && Join(ps, old') == text[1..]
    ensures NoneEarlier([[text[0]] + ps[0]] + ps[1..], old')
  {
    var qs := [[text[0]] + ps[0]] + ps[1..];
    assert qs[1..] == ps[1..];
    FirstPartGrows(text[0], ps, qs, old');
    JoinStarts(ps, old');
    NoneFurther(text, FirstPart(ps, old'), |ps[0]|, old');
  }

  lemma FirstPartGrows(c: char, ps: seq<seq<char>>, qs: seq<seq<char>>, sep: seq<char>)
    requires |qs| == |ps| > 0 && qs[0] == [c] + ps[0]
    ensures FirstPart(qs, sep) == [c] + FirstPart(ps, sep)
  {
  }

  lemma JoinStarts(ps: seq<seq<char>>, sep: seq<char>)
    requires |ps| > 0
    ensures FirstPart(ps, sep) <= Join(ps, sep)
  {
  }

  lemma NoneFurther(text: seq<char>, p: seq<char>, m: nat, old': seq<char>)
    requires |text| > 0 && p <= text[1..] && m <= |p| && !Starts(text, old') && NoneIn(p, m, old')
    ensures NoneIn([text[0]] + p, m + 1, old')
  {
    var q := [text[0]] + p;
    assert q <= text && q[0..] == q;
    forall at | 0 < at < m + 1 ensures !OccursAt(q, at, old') {
      OneFurther(text[0], p, at, old');
      assert !OccursAt(p, at - 1, old');
    }
  }

  lemma OneFurther(c: char, p: seq<char>, at: nat, old': seq<char>)
    requires 0 < at <= |p| + 1
    ensures OccursAt([c] + p, at, old') <==> OccursAt(p, at - 1, old')
  {
    assert ([c] + p)[at..] == p[at - 1..];
  }

  // ---------------------------------------------------------------- the scan

  lemma {:induction false} NoneLeft(text: seq<char>, old': seq<char>, new': seq<char>)
    requires old' != [] && old'[0] !in text
    ensures Replace(text, old', new') == text && Count(text, old') == 0
    decreases |text|
  {
    if text != [] {
      assert text[0] in text;
      assert forall c :: c in text[1..] ==> c in text;
      StartsAt(text, 0, old');
      assert text[0..] == text;
      NoneLeft(text[1..], old', new');
      assert text == [text[0]] + text[1..];
    }
  }

  /** strchr from r on; |text| stands for its null pointer. */
  method Strchr(text: seq<char>, r: nat, c: char) returns (found: nat)
    requires r <= |text|
    ensures r <= found <= |text| && c !in text[r..found]
    ensures found < |text| ==> text[found] == c
  {
    found := r;
    while found < |text| && text[found] != c
      invariant r <= found <= |text| && c !in text[r..found]
    {
      assert text[r..found + 1] == text[r..found] + [text[found]];
      found := found + 1;
    }
  }

  /** The comparison loop, behind a matching first character. */
  method Matches(text: seq<char>, at: nat, old': seq<char>) returns (yes: bool)
    requires old' != [] && at < |text| && text[at] == old'[0]
    ensures yes == Starts(text[at..], old')
  {
    var k := 1;
    while k < |old'| && at + k < |text| && text[at + k] == old'[k]
      invariant 1 <= k <= |old'| && at + k <= |text|
      invariant forall j :: 0 <= j < k ==> text[at + j] == old'[j]
    {
      k := k + 1;
    }
    yes := k == |old'|;
    StartsAt(text, at, old');
  }

  // ---------------------------------------------------------------- the buffer

  /** c_string_t: the buffer and the offset of m_pInPtr in it. */
  class Buffer {
    var buf: array<char>
    var inPtr: nat

    ghost predicate Valid()
      reads this, buf
    {
      inPtr < buf.Length && NUL !in buf[..inPtr]
    }

    ghost function Contents(): seq<char>
      requires Valid()
      reads this, buf
    {
      buf[..inPtr]
    }

    /** Room for FORMAT_RESERVE characters. */
    constructor ()
      ensures Valid() && fresh(buf) && Contents() == []
    {
      buf := new char[64];
      inPtr := 0;
    }

    /** strcpy: everything up to the null, and the null. */
    static method Strcpy(to: array<char>, at: nat, from: seq<char>)
      requires at + |from| < to.Length && NUL !in from
      modifies to
      ensures to[at..at + |from|] == from && to[at + |from|] == NUL
      ensures to[..at] == old(to[..at])
    {
      var i := 0;
      while i < |from|
        invariant 0 <= i <= |from| && to[at..at + i] == from[..i] && to[..at] == old(to[..at])
      {
        to[at + i] := from[i];
        i := i + 1;
      }
      to[at + i] := NUL;
    }

    /** ReserveSpace: afterwards n more characters and a null fit. */
    method Reserve(n: nat)
      requires Valid()
      modifies this, buf
      ensures Valid() && (buf == old(buf) || fresh(buf))
      ensures Contents() == old(Contents()) && inPtr + n < buf.Length
    {
      if n == 0 {
        return;
      }
      var size := inPtr + n + 1;
      if buf.Length >= size {
        return;
      }
      var bigger := new char[size + 64];
      buf[inPtr] := NUL;
      Strcpy(bigger, 0, buf[..inPtr]);
      assert bigger[0..0 + inPtr] == bigger[..inPtr];
      buf := bigger;
    }

    /** PutChar with a count. */
    method PutChar(c: char, n: nat)
      requires Valid() && c != NUL
      modifies this, buf
      ensures Valid() && (buf == old(buf) || fresh(buf))
      ensures Contents() == old(Contents()) + seq(n, _ => c)
    {
      Reserve(n);
      for i := 0 to n
        invariant Valid() && inPtr + (n - i) < buf.Length && (buf == old(buf) || fresh(buf))
        invariant Contents() == old(Contents()) + seq(i, _ => c)
      {
        buf[inPtr] := c;
        inPtr := inPtr + 1;
        assert buf[..inPtr] == old(Contents()) + seq(i + 1, _ => c);
      }
    }

    method PutString(s: seq<char>)
      requires Valid() && NUL !in s
      modifies this, buf
      ensures Valid() && (buf == old(buf) || fresh(buf))
      ensures Contents() == old(Contents()) + s
    {
      Reserve(|s|);
      ghost var before := buf[..inPtr];
      Strcpy(buf, inPtr, s);
      assert buf[..inPtr + |s|] == before + s;
      inPtr := inPtr + |s|;
    }
  }

  // ---------------------------------------------------------------- replace_in_cstring

  /** What has been written, followed by the replacement of what is still unread. */
  ghost predicate Underway(out: seq<char>, n: nat, text: seq<char>, r: nat, old': seq<char>, new': seq<char>)
    requires old' != [] && r <= |text|
  {
    && out + Replace(text[r..], old', new') == Replace(text, old', new')
    && n + Count(text[r..], old') == Count(text, old')
  }

  lemma CopyKeeps(out: seq<char>, n: nat, text: seq<char>, r: nat, old': seq<char>, new': seq<char>)
    requires old' != [] && r < |text| && Underway(out, n, text, r, old', new') && !Starts(text[r..], old')
    ensures Underway(out + [text[r]], n, text, r + 1, old', new')
  {
    assert text[r..][1..] == text[r + 1..];
    var rest := Replace(text[r + 1..], old', new');
    assert out + ([text[r]] + rest) == (out + [text[r]]) + rest;
  }

  lemma ReplaceKeeps(out: seq<char>, n: nat, text: seq<char>, r: nat, old': seq<char>, new': seq<char>)
    requires old' != [] && r < |text| && Underway(out, n, text, r, old', new') && Starts(text[r..], old')
    ensures Underway(out + new', n + 1, text, r + |old'|, old', new')
  {
    assert text[r..][|old'|..] == text[r + |old'|..];
    var rest := Replace(text[r + |old'|..], old', new');
    assert out + (new' + rest) == (out + new') + rest;
  }

  /** Characters before the next candidate are copied. */
  method CopyUpTo(b: Buffer, text: seq<char>, from: nat, to: nat, old': seq<char>, ghost new': seq<char>, ghost n: nat)
    requires b.Valid() && old' != [] && from <= to <= |text| && NUL !in text && old'[0] !in text[from..to]
    requires Underway(b.Contents(), n, text, from, old', new')
    modifies b, b.buf
    ensures b.Valid() && (b.buf == old(b.buf) || fresh(b.buf))
    ensures Underway(b.Contents(), n, text, to, old', new')
  {
    var r := from;
    while r < to
      invariant from <= r <= to && b.Valid() && (b.buf == old(b.buf) || fresh(b.buf))
      invariant Underway(b.Contents(), n, text, r, old', new')
    {
      assert text[r] == text[from..to][r - from];
      StartsAt(text, r, old');
      assert text[r + 0] != old'[0];
      CopyKeeps(b.Contents(), n, text, r, old', new');
      assert seq(1, _ => text[r]) == [text[r]];
      b.PutChar(text[r], 1);
      r := r + 1;
    }
  }

  /** One turn of the loop, at a candidate. */
  method ReplaceStep(b: Buffer, text: seq<char>, at: nat, old': seq<char>, new': seq<char>, n: nat)
    returns (r: nat, n': nat)
    requires b.Valid() && old' != [] && at < |text| && text[at] == old'[0] && NUL !in text && NUL !in new'
    requires Underway(b.Contents(), n, text, at, old', new')
    modifies b, b.buf
    ensures b.Valid() && (b.buf == old(b.buf) || fresh(b.buf))
    ensures at < r <= |text| && Underway(b.Contents(), n', text, r, old', new')
  {
    var yes := Matches(text, at, old');
    if yes {
      ReplaceKeeps(b.Contents(), n, text, at, old', new');
      b.PutString(new');
      r, n' := at + |old'|, n + 1;
    } else {
      CopyKeeps(b.Contents(), n, text, at, old', new');
      assert seq(1, _ => text[at]) == [text[at]];
      b.PutChar(text[at], 1);
      r, n' := at + 1, n;
    }
  }

  lemma UnderwayStarts(text: seq<char>, old': seq<char>, new': seq<char>)
    requires old' != []
    ensures Underway([], 0, text, 0, old', new')
  {
    assert text[0..] == text;
  }

  lemma UnderwayEnds(out: seq<char>, n: nat, text: seq<char>, r: nat, old': seq<char>, new': seq<char>)
    requires old' != [] && r <= |text| && Underway(out, n, text, r, old', new') && old'[0] !in text[r..|text|]
    ensures n == Count(text, old') && out + text[r..] == Replace(text, old', new')
  {
    assert text[r..|text|] == text[r..];
    NoneLeft(text[r..], old', new');
  }

  /** replace_in_cstring with a non-empty pattern, on the emptied buffer: leftmost
      non-overlapping replacement and its count; every write stays inside the
      buffer, its last one the closing null. */
  method ReplaceInto(b: Buffer, text: seq<char>, old': seq<char>, new': seq<char>) returns (n: nat)
    requires b.Valid() && b.Contents() == [] && old' != [] && NUL !in text && NUL !in new'
    modifies b, b.buf
    ensures b.Valid() && n == Count(text, old') && b.Contents() == Replace(text, old', new')
    ensures b.buf[b.inPtr] == NUL
  {
    n := 0;
    var r := 0;
    UnderwayStarts(text, old', new');
    var found := Strchr(text, r, old'[0]);
    while found < |text|
      invariant 0 <= r <= found <= |text| && b.Valid() && (b.buf == old(b.buf) || fresh(b.buf))
      invariant old'[0] !in text[r..found] && (found < |text| ==> text[found] == old'[0])
      invariant Underway(b.Contents(), n, text, r, old', new')
      decreases |text| - r
    {
      CopyUpTo(b, text, r, found, old', new', n);
      r, n := ReplaceStep(b, text, found, old', new', n);
      found := Strchr(text, r, old'[0]);
    }
    UnderwayEnds(b.Contents(), n, text, r, old', new');
    b.PutString(text[r..]);
    b.buf[b.inPtr] := NUL;
  }

  /** replace_in_cstring: an empty pattern leaves the string alone. */
  method ReplaceInCString(text: seq<char>, old': seq<char>, new': seq<char>) returns (s: seq<char>, n: nat)
    requires NUL !in text && NUL !in new'
    ensures if old' == [] then n == 0 && s == text else n == Count(text, old') && s == Replace(text, old', new')
  {
    if old' == [] {
      return text, 0;
    }
    var b := new Buffer();
    n := ReplaceInto(b, text, old', new');
    s := b.buf[..b.inPtr];
  }
}
