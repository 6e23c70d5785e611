/** The page-frame allocator of src/frame_alloc.c: a bitmap of used frames in
    32-bit words, scanned word by word.

    `used` is the memory from the bitmap's first word on, bit by bit.  The first
    `total` bits are the bitmap; what follows is other memory, which the scans
    reach because their end, total_frames, is used as a word index.  A 32-bit
    address names 2^20 frames; the address of a bit beyond that wraps around. */
module FrameAllocator {
  datatype Frames = Frames(used: seq<bool>, total: nat, reserved: nat, available: int, next: nat)

  /** How many frames of [lo, hi) are free. */
  function Clear(used: seq<bool>, lo: nat, hi: nat): nat
    requires lo <= hi <= |used|
  {
    if lo == hi then 0 else Clear(used, lo, hi - 1) + (if used[hi - 1] then 0 else 1)
  }

  predicate AllClear(used: seq<bool>, lo: nat, n: nat) {
    lo + n <= |used| && forall i :: lo <= i < lo + n ==> !used[i]
  }

  /** Word index w is 0xFFFFFFFF. */
  predicate Full(used: seq<bool>, p: nat) {
    p + 32 <= |used| && forall i :: p <= i < p + 32 ==> used[i]
  }

  predicate Shape(s: Frames) {
    s.total % 32 == 0 && s.total <= |s.used| && s.total <= 0x100000 && 0 < s.reserved < s.total
  }

  /** The scans, up to word index total, stay inside the memory modelled. */
  predicate Scannable(s: Frames) {
    Shape(s) && 32 * s.total <= |s.used| && 0 < s.next <= s.total
  }

  /** The count is right and the kernel's frames are taken. */
  predicate Ok(s: Frames) {
    && Shape(s) && s.available == Clear(s.used, 0, s.total)
    && forall i :: 0 <= i < s.reserved ==> s.used[i]
  }

  // ---------------------------------------------------------------- counting

  lemma {:induction false} ClearFlip(used: seq<bool>, lo: nat, hi: nat, f: nat, b: bool)
    requires lo <= hi <= |used| && f < |used|
    ensures Clear(used[f := b], lo, hi) ==
              Clear(used, lo, hi) + (if lo <= f < hi && used[f] && !b then 1 else 0)
                                  - (if lo <= f < hi && !used[f] && b then 1 else 0)
    decreases hi
  {
    if lo < hi {
      ClearFlip(used, lo, hi - 1, f, b);
    }
  }

  lemma {:induction false} ClearSome(used: seq<bool>, lo: nat, hi: nat)
    requires lo <= hi <= |used|
    ensures Clear(used, lo, hi) > 0 <==> exists i :: lo <= i < hi && !used[i]
    ensures Clear(used, lo, hi) <= hi - lo
    decreases hi
  {
    if lo < hi {
      ClearSome(used, lo, hi - 1);
    }
  }

  // ---------------------------------------------------------------- single frames

  /** mark_as_used and mark_as_free */
  function MarkUsed(s: Frames, f: nat): Frames
    requires f < |s.used|
  {
    s.(used := s.used[f := true], available := s.available - 1)
  }

  function MarkFree(s: Frames, f: nat): Frames
    requires f < |s.used|
  {
    s.(used := s.used[f := false], available := s.available + 1)
  }

  /** The first free bit of [p, end), or 0: find_free_frame_in_rage on whole words. */
  function FindFree(used: seq<bool>, p: nat, end: nat): (r: nat)
    requires end <= |used|
    ensures r != 0 ==> p <= r < end && !used[r] && forall i :: p <= i < r ==> used[i]
    ensures r == 0 && p > 0 ==> forall i :: p <= i < end ==> used[i]
    decreases end - p
  {
    if p >= end then 0 else if !used[p] then p else FindFree(used, p + 1, end)
  }

  /** The frame that the 32-bit address of a bit names. */
  function Named(b: nat): nat { b % 0x100000 }

  /** find_free_frame: from next_idx to the word index total_frames, and then from a
      frame count taken as a word index up to next_idx - 1. */
  function FindFrame(s: Frames): nat
    requires Scannable(s)
  {
    var r := Named(FindFree(s.used, 32 * s.next, 32 * s.total));
    if r == 0 && s.available != 0 then Named(FindFree(s.used, 32 * s.reserved, 32 * (s.next - 1))) else r
  }

  /** alloc_frame; 0 is no frame. */
  function AllocFrame(s: Frames): (r: (Frames, nat))
    requires Scannable(s)
    ensures |r.0.used| == |s.used| && r.1 < |s.used|
  {
    if s.available == 0 then (s, 0)
    else
      var f := FindFrame(s);
      if f == 0 then (s, 0) else (MarkUsed(s, f).(next := f / 32), f)
  }

  /** dealloc_frame */
  function DeallocFrame(s: Frames, f: nat): Frames
    requires f < |s.used|
  {
    if f <= s.reserved then s else MarkFree(s.(next := f / 32), f)
  }

  lemma MarkUsedExact(s: Frames, f: nat)
    requires Ok(s) && f < |s.used|
    ensures Ok(MarkUsed(s, f)) <==> f < s.total && !s.used[f]
  {
    ClearFlip(s.used, 0, s.total, f, true);
  }

  /** next_idx is a word of the bitmap or the first one behind it. */
  predicate Placed(s: Frames) { Scannable(s) && 32 * (s.next - 1) <= s.total }

  /** Where the scan of alloc_frame leaves the count right, in terms of the bitmap and
      of the memory behind it: a frame ahead of next_idx is free; or nothing at all is
      clear ahead, up to word total_frames; or the address of the first clear bit
      wraps around, to null or by chance to a free frame. */
  predicate ScanStays(s: Frames)
    requires Scannable(s)
  {
    || s.available == 0
    || (exists i :: 32 * s.next <= i < s.total && !s.used[i])
    || (forall i :: 32 * s.next <= i < 32 * s.total ==> s.used[i])
    || Wraps(s, FindFree(s.used, 32 * s.next, 32 * s.total))
  }

  predicate Wraps(s: Frames, b: nat)
    requires Shape(s)
  {
    0x100000 <= b && (Named(b) == 0 || (Named(b) < s.total && !s.used[Named(b)]))
  }

  /** alloc_frame takes one bit, or fails without a change. */
  lemma AllocFrameTakes(s: Frames)
    requires Ok(s) && Scannable(s)
    ensures var (s', f) := AllocFrame(s);
            if f == 0 then s' == s
            else s'.used == s.used[f := true] && (Ok(s') <==> f < s.total && !s.used[f])
  {
    var f := FindFrame(s);
    if s.available != 0 && f != 0 {
      MarkUsedExact(s, f);
      var t := MarkUsed(s, f);
      assert t.(next := f / 32).used == t.used;
    }
  }

  /** alloc_frame keeps the count right exactly when its scan stays where it should:
      then the frame it hands out was free and is not the kernel's.  Otherwise it hands
      out a frame the machine does not have, or one already in use. */
  lemma AllocFrameExact(s: Frames)
    requires Ok(s) && Placed(s)
    ensures var (s', f) := AllocFrame(s);
            && (Ok(s') <==> ScanStays(s))
            && (f != 0 && ScanStays(s) ==> s.reserved <= f < s.total && !s.used[f])
            && (!ScanStays(s) ==> f != 0 && (f >= s.total || s.used[f]))
  {
    AllocFrameTakes(s);
    if s.available != 0 {
      FrameFound(s);
    }
  }

  lemma FrameFound(s: Frames)
    requires Ok(s) && Placed(s) && s.available != 0
    ensures var f := FindFrame(s);
            if f == 0 then ScanStays(s) else f < |s.used| && (ScanStays(s) <==> f < s.total && !s.used[f])
  {
    BitAhead(s.used, 32 * s.next, s.total, 32 * s.total);
    var b := FindFree(s.used, 32 * s.next, 32 * s.total);
    var c := FindFree(s.used, 32 * s.reserved, 32 * (s.next - 1));
    BelowNamed(b);
    BelowNamed(c);
    assert c < s.total;
  }

  lemma BelowNamed(b: nat)
    ensures b < 0x100000 ==> Named(b) == b
    ensures b >= 0x100000 ==> Named(b) < 0x100000
  {
  }

  /** The first clear bit, against the end of the bitmap. */
  lemma BitAhead(used: seq<bool>, p: nat, mid: nat, end: nat)
    requires 0 < p && mid <= end <= |used|
    ensures var b := FindFree(used, p, end);
            && (b == 0 <==> forall i :: p <= i < end ==> used[i])
            && (0 < b < mid <==> exists i :: p <= i < mid && !used[i])
  {
  }

  /** b is the first clear bit of the range. */
  predicate FirstClear(used: seq<bool>, p: nat, end: nat, b: nat)
    requires end <= |used|
  {
    p <= b < end && !used[b] && forall i :: p <= i < b ==> used[i]
  }

  /** The first clear bit of the range, if there is one, has an address that is not null. */
  ghost predicate Gives(used: seq<bool>, p: nat, end: nat)
    requires end <= |used|
  {
    exists b :: FirstClear(used, p, end, b) && Named(b) != 0
  }

  /** A scan on the bits alone. */
  lemma ScanResult(used: seq<bool>, p: nat, end: nat)
    requires 0 < p && end <= |used|
    ensures Named(FindFree(used, p, end)) != 0 <==> Gives(used, p, end)
    ensures forall b :: FirstClear(used, p, end, b) ==> FindFree(used, p, end) == b
  {
    var r := FindFree(used, p, end);
    if r != 0 {
      assert FirstClear(used, p, end, r);
    }
  }

  /** When alloc_frame fails and what it returns, on the bits alone: the frame that the
      first clear bit ahead of next_idx names, else the one behind; and next_idx is then
      the word of that frame.  A failure changes nothing. */
  lemma AllocFrameResult(s: Frames)
    requires Scannable(s)
    ensures var (s', f) := AllocFrame(s);
            var p, end, p', end' := 32 * s.next, 32 * s.total, 32 * s.reserved, 32 * (s.next - 1);
            && (f == 0 <==> s.available == 0 || (!Gives(s.used, p, end) && !Gives(s.used, p', end')))
            && (f == 0 ==> s' == s)
            && (s.available != 0 && Gives(s.used, p, end) ==> forall b :: FirstClear(s.used, p, end, b) ==> f == Named(b))
            && (s.available != 0 && !Gives(s.used, p, end) ==>
                  forall b :: FirstClear(s.used, p', end', b) ==> f == Named(b))
            && (f != 0 ==> s'.used == s.used[f := true] && s'.available == s.available - 1
                           && 32 * s'.next <= f < 32 * s'.next + 32)
  {
    ScanResult(s.used, 32 * s.next, 32 * s.total);
    ScanResult(s.used, 32 * s.reserved, 32 * (s.next - 1));
  }

  /** A free frame of the bitmap in either range makes it succeed. */
  lemma AllocFrameSucceeds(s: Frames, i: nat)
    requires Placed(s) && s.available != 0 && i < s.total && !s.used[i]
    requires 32 * s.next <= i || 32 * s.reserved <= i < 32 * (s.next - 1)
    ensures AllocFrame(s).1 != 0
  {
    AllocFrameResult(s);
    if 32 * s.next <= i {
      GivesBelow(s.used, 32 * s.next, 32 * s.total, i);
    } else {
      GivesBelow(s.used, 32 * s.reserved, 32 * (s.next - 1), i);
    }
  }

  lemma GivesBelow(used: seq<bool>, p: nat, end: nat, i: nat)
    requires 0 < p <= i < end <= |used| && !used[i] && i < 0x100000
    ensures Gives(used, p, end)
  {
    var b := FindFree(used, p, end);
    assert p <= b <= i;
    assert FirstClear(used, p, end, b) && Named(b) == b;
  }

  /** The case the source's own words speak of: free frames, none of them ahead of
      next_idx, are found behind it only if no memory behind the bitmap is clear. */
  lemma ScanPastBitmap(s: Frames)
    requires Ok(s) && Placed(s) && s.available > 0 && 32 * s.next <= s.total
    requires forall i :: 32 * s.next <= i < s.total ==> s.used[i]
    ensures Ok(AllocFrame(s).0) <==>
              (forall i :: s.total <= i < 32 * s.total ==> s.used[i]) || Wraps(s, FindFree(s.used, s.total, 32 * s.total))
  {
    AllocFrameExact(s);
    UsedHasNone(s.used, 32 * s.next, s.total, 32 * s.total);
  }

  lemma {:induction false} UsedHasNone(used: seq<bool>, p: nat, q: nat, end: nat)
    requires p <= q <= end <= |used| && forall i :: p <= i < q ==> used[i]
    ensures FindFree(used, p, end) == FindFree(used, q, end)
    decreases q - p
  {
    if p < q {
      UsedHasNone(used, p + 1, q, end);
    }
  }

  /** Freeing keeps the count exactly for a used frame of the bitmap above the
      kernel's, or for a frame it refuses. */
  lemma DeallocFrameExact(s: Frames, f: nat)
    requires Ok(s) && f < |s.used|
    ensures Ok(DeallocFrame(s, f)) <==> f <= s.reserved || (f < s.total && s.used[f])
    ensures forall i :: 0 <= i <= s.reserved ==> DeallocFrame(s, f).used[i] == s.used[i]
    ensures f <= s.reserved ==> DeallocFrame(s, f) == s
    ensures f > s.reserved ==>
              var t := DeallocFrame(s, f);
              t.used == s.used[f := false] && t.available == s.available + 1 && 32 * t.next <= f < 32 * t.next + 32
  {
    ClearFlip(s.used, 0, s.total, f, false);
  }

  /** Allocating and freeing a frame restores bitmap and count, except that the
      first frame above the kernel's is never taken back. */
  lemma AllocThenFree(s: Frames)
    requires Ok(s) && Placed(s) && ScanStays(s) && AllocFrame(s).1 != 0
    ensures var (s', f) := AllocFrame(s);
            var t := DeallocFrame(s', f);
            t.used == s.used && t.available == s.available <==> f != s.reserved
  {
    AllocFrameExact(s);
    AllocFrameTakes(s);
    var (s', f) := AllocFrame(s);
    assert s'.used[f := false] == s.used;
  }

  // ---------------------------------------------------------------- runs of frames

  /** start_address as the bit it belongs to, and count. */
  datatype Run = Run(start: nat, count: nat)

  /** is_aligned, for an alignment of k pages. */
  predicate Aligned(f: nat, k: nat)
    requires k > 0
  {
    k == 1 || f == 0 || f % k == 0
  }

  /** A run that ends at or before bit p. */
  predicate Behind(run: Run, p: nat) {
    if run.start == 0 then run.count == 0 else 0 < run.count && run.start + run.count <= p
  }

  /** A run can start at this bit: start_address, the 32-bit address of the frame, is then
      aligned and not null. */
  predicate Startable(p: nat, k: nat)
    requires k > 0
  {
    Aligned(p, k) && Named(p) != 0
  }

  /** One bit of the inner loop. */
  function Step(run: Run, taken: bool, p: nat, k: nat): Run
    requires k > 0
  {
    if taken then (if run.start != 0 then Run(0, 0) else run)
    else
      var start := if run.start == 0 && Startable(p, k) then p else run.start;
      Run(start, if start != 0 then run.count + 1 else run.count)
  }

  /** find_contiguous_frames_in_ranges from bit p on: a full word is skipped with the
      run left as it is. */
  function FindRun(used: seq<bool>, p: nat, end: nat, n: nat, k: nat, run: Run): (r: nat)
    requires end <= |used| && k > 0 && Behind(run, p)
    ensures r != 0 ==> n > 0 && r + n <= end && (r == run.start || (r >= p && Named(r) != 0))
    decreases end - p
  {
    if p >= end then 0
    else if p % 32 == 0 && Full(used, p) then FindRun(used, p + 32, end, n, k, run)
    else
      var run' := Step(run, used[p], p, k);
      if run'.count == n then run'.start else FindRun(used, p + 1, end, n, k, run')
  }

  /** The search in which a full word ends the run, as a used bit does. */
  function FindWhole(used: seq<bool>, p: nat, end: nat, n: nat, k: nat, run: Run): (r: nat)
    requires end <= |used| && k > 0
    ensures r != 0 ==> r == run.start || r >= p
    decreases end - p
  {
    if p >= end then 0
    else if p % 32 == 0 && Full(used, p) then FindWhole(used, p + 32, end, n, k, Run(0, 0))
    else
      var run' := Step(run, used[p], p, k);
      if run'.count == n then run'.start else FindWhole(used, p + 1, end, n, k, run')
  }

  /** The run so far, gathered without a gap. */
  predicate Whole(used: seq<bool>, p: nat, k: nat, run: Run)
    requires k > 0
  {
    if run.start == 0 then run.count == 0
    else run.count > 0 && Startable(run.start, k) && run.start + run.count == p <= |used|
         && AllClear(used, run.start, run.count)
  }

  lemma StepWhole(used: seq<bool>, p: nat, k: nat, run: Run)
    requires k > 0 && 0 < p < |used| && Whole(used, p, k, run)
    ensures Whole(used, p + 1, k, Step(run, used[p], p, k))
  {
  }

  /** The gapless search returns 0 or an aligned run of n free frames of the range. */
  lemma {:induction false} FindWholeRight(used: seq<bool>, p: nat, end: nat, n: nat, k: nat, run: Run)
    requires 0 < p && end <= |used| && k > 0 && n > 0 && Whole(used, p, k, run)
    ensures var r := FindWhole(used, p, end, n, k, run);
            r != 0 ==> Startable(r, k) && AllClear(used, r, n) && r + n <= end
    decreases end - p
  {
    if p < end {
      if p % 32 == 0 && Full(used, p) {
        FindWholeRight(used, p + 32, end, n, k, Run(0, 0));
      } else {
        StepWhole(used, p, k, run);
        var run' := Step(run, used[p], p, k);
        if run'.count != n {
          FindWholeRight(used, p + 1, end, n, k, run');
        }
      }
    }
  }

  /** The range holds n free frames from an aligned one on. */
  predicate Fit(used: seq<bool>, p: nat, end: nat, n: nat, k: nat)
    requires k > 0
  {
    exists r :: p <= r && r + n <= end && Startable(r, k) && AllClear(used, r, n)
  }

  /** The gapless search misses nothing: `r` starts a free run in what it has gathered
      or has still to look at. */
  lemma {:induction false} FindWholeFinds(used: seq<bool>, p: nat, end: nat, n: nat, k: nat, run: Run, r: nat)
    requires 0 < p && end <= |used| && k > 0 && n > 0 && Whole(used, p, k, run) && run.count < n
    requires (if run.start != 0 then run.start else p) <= r && r + n <= end && Startable(r, k) && AllClear(used, r, n)
    ensures FindWhole(used, p, end, n, k, run) != 0
    decreases end - p
  {
    if p < end {
      if p % 32 == 0 && Full(used, p) {
        assert used[p] && r > p;
        assert !used[r];
        assert r >= p + 32;
        FindWholeFinds(used, p + 32, end, n, k, Run(0, 0), r);
      } else {
        StepWhole(used, p, k, run);
        var run' := Step(run, used[p], p, k);
        if run'.count != n {
          FindWholeFinds(used, p + 1, end, n, k, run', r);
        }
      }
    }
  }

  /** The gapless search fails exactly when there is nothing to find. */
  lemma FindWholeExact(used: seq<bool>, p: nat, end: nat, n: nat, k: nat)
    requires 0 < p && end <= |used| && k > 0 && n > 0
    ensures FindWhole(used, p, end, n, k, Run(0, 0)) != 0 <==> Fit(used, p, end, n, k)
  {
    var r := FindWhole(used, p, end, n, k, Run(0, 0));
    FindWholeRight(used, p, end, n, k, Run(0, 0));
    if Fit(used, p, end, n, k) {
      var q :| p <= q && q + n <= end && Startable(q, k) && AllClear(used, q, n);
      FindWholeFinds(used, p, end, n, k, Run(0, 0), q);
    }
  }

  /** It returns the first such run. */
  lemma {:induction false} FindWholeFirst(used: seq<bool>, p: nat, end: nat, n: nat, k: nat, run: Run, q: nat)
    requires 0 < p && end <= |used| && k > 0 && n > 0 && Whole(used, p, k, run) && run.count < n
    requires (if run.start != 0 then run.start else p) <= q && q + n <= end && Startable(q, k) && AllClear(used, q, n)
    ensures 0 < FindWhole(used, p, end, n, k, run) <= q
    decreases end - p
  {
    if p < end {
      if p % 32 == 0 && Full(used, p) {
        assert used[p] && q > p;
        assert !used[q];
        assert q >= p + 32;
        FindWholeFirst(used, p + 32, end, n, k, Run(0, 0), q);
      } else {
        StepWhole(used, p, k, run);
        var run' := Step(run, used[p], p, k);
        if run'.count != n {
          FindWholeFirst(used, p + 1, end, n, k, run', q);
        }
      }
    }
  }

  /** A run carried over a full word: one of its frames is taken. */
  ghost predicate Carried(used: seq<bool>, run: Run) {
    run.start != 0 && run.count > 0 && exists q :: run.start < q <= run.start + run.count && q < |used| && used[q]
  }

  /** How the two searches stand at the same bit: alike, or the code's run has been
      carried over a full word and is ahead. */
  ghost predicate Related(used: seq<bool>, p: nat, k: nat, code: Run, whole: Run)
    requires k > 0
  {
    && Whole(used, p, k, whole)
    && (code == whole || (Carried(used, code) && Startable(code.start, k) && whole.count < code.count))
  }

  lemma StepRelated(used: seq<bool>, p: nat, k: nat, code: Run, whole: Run)
    requires k > 0 && 0 < p < |used| && Related(used, p, k, code, whole)
    ensures Related(used, p + 1, k, Step(code, used[p], p, k), Step(whole, used[p], p, k))
    ensures Step(code, used[p], p, k) != Step(whole, used[p], p, k) ==>
              var c := Step(code, used[p], p, k);
              exists q :: c.start < q < c.start + c.count && q < |used| && used[q]
  {
    StepWhole(used, p, k, whole);
  }

  lemma SkipRelated(used: seq<bool>, p: nat, k: nat, code: Run, whole: Run)
    requires k > 0 && 0 < p && Full(used, p) && Related(used, p, k, code, whole)
    ensures Related(used, p + 32, k, code, Run(0, 0))
  {
    if code == whole && code.start != 0 {
      assert used[p];
      assert code.start < p <= code.start + code.count;
    }
  }

  /** The code's answer is that of the gapless search, or it is a run with a taken
      frame in it. */
  lemma {:induction false} FindRunRelated(used: seq<bool>, p: nat, end: nat, n: nat, k: nat, code: Run, whole: Run)
    requires 0 < p && end <= |used| && k > 0 && Related(used, p, k, code, whole)
    requires code.count < n && Behind(code, p)
    ensures var r, w := FindRun(used, p, end, n, k, code), FindWhole(used, p, end, n, k, whole);
            r == w || (r != 0 && !AllClear(used, r, n))
    decreases end - p
  {
    if p < end {
      if p % 32 == 0 && Full(used, p) {
        SkipRelated(used, p, k, code, whole);
        FindRunRelated(used, p + 32, end, n, k, code, Run(0, 0));
      } else {
        StepRelated(used, p, k, code, whole);
        var code', whole' := Step(code, used[p], p, k), Step(whole, used[p], p, k);
        if code'.count != n {
          FindRunRelated(used, p + 1, end, n, k, code', whole');
        }
      }
    }
  }

  /** Exactly when the contiguous search is right: its answer is an aligned run of
      free frames, or 0, if and only if it is the answer of the gapless search. */
  lemma FindRunExact(used: seq<bool>, p: nat, end: nat, n: nat, k: nat)
    requires 0 < p && end <= |used| && k > 0 && n > 0
    ensures var r := FindRun(used, p, end, n, k, Run(0, 0));
            (r != 0 ==> Startable(r, k) && AllClear(used, r, n)) <==> r == FindWhole(used, p, end, n, k, Run(0, 0))
  {
    FindWholeRight(used, p, end, n, k, Run(0, 0));
    FindRunRelated(used, p, end, n, k, Run(0, 0), Run(0, 0));
  }

  /** Whether the range lets a request be met by a run that was open when a full word
      was passed over: `carried` says so of the current run. */
  predicate Bridges(used: seq<bool>, p: nat, end: nat, n: nat, k: nat, run: Run, carried: bool)
    requires end <= |used| && k > 0
    decreases end - p
  {
    if p >= end then false
    else if p % 32 == 0 && Full(used, p) then Bridges(used, p + 32, end, n, k, run, run.start != 0)
    else
      var run', carried' := Step(run, used[p], p, k), carried && !used[p];
      if run'.count == n then carried' else Bridges(used, p + 1, end, n, k, run', carried')
  }

  lemma StepCarried(used: seq<bool>, p: nat, k: nat, run: Run)
    requires k > 0 && p < |used| && Carried(used, run)
    ensures var run' := Step(run, used[p], p, k);
            if used[p] then run' == Run(0, 0)
            else Carried(used, run') && run'.start == run.start && !AllClear(used, run'.start, run'.count)
  {
  }

  /** The answer has a taken frame in it if and only if a run that was left open at a
      full word meets the request; otherwise it is 0 or an aligned run of free frames. */
  lemma {:induction false} BridgesExact(used: seq<bool>, p: nat, end: nat, n: nat, k: nat, run: Run, carried: bool)
    requires 0 < p && end <= |used| && k > 0 && n > 0 && Behind(run, p) && run.count < n
    requires if carried then Carried(used, run) else Whole(used, p, k, run)
    ensures var r := FindRun(used, p, end, n, k, run);
            if Bridges(used, p, end, n, k, run, carried) then r != 0 && !AllClear(used, r, n)
            else r != 0 ==> Startable(r, k) && AllClear(used, r, n)
    decreases end - p
  {
    if p < end {
      if p % 32 == 0 && Full(used, p) {
        if run.start != 0 && !carried {
          assert used[p] && run.start < p <= run.start + run.count;
        }
        BridgesExact(used, p + 32, end, n, k, run, run.start != 0);
      } else {
        if carried {
          StepCarried(used, p, k, run);
        } else {
          StepWhole(used, p, k, run);
        }
        var run' := Step(run, used[p], p, k);
        if run'.count != n {
          BridgesExact(used, p + 1, end, n, k, run', carried && !used[p]);
        }
      }
    }
  }

  /** When the contiguous search is right, in terms of the bitmap alone. */
  lemma FindRunRight(used: seq<bool>, p: nat, end: nat, n: nat, k: nat)
    requires 0 < p && end <= |used| && k > 0 && n > 0
    ensures var r := FindRun(used, p, end, n, k, Run(0, 0));
            (r != 0 ==> Startable(r, k) && AllClear(used, r, n)) <==> !Bridges(used, p, end, n, k, Run(0, 0), false)
  {
    BridgesExact(used, p, end, n, k, Run(0, 0), false);
  }

  /** In particular when every full word of the range follows a taken frame. */
  lemma {:induction false} NoOpenEdge(used: seq<bool>, p: nat, end: nat, n: nat, k: nat, run: Run)
    requires 0 < p && end <= |used| && k > 0 && Whole(used, p, k, run)
    requires forall w :: p <= w < end && w % 32 == 0 && Full(used, w) ==> used[w - 1]
    ensures FindRun(used, p, end, n, k, run) == FindWhole(used, p, end, n, k, run)
    decreases end - p
  {
    if p < end {
      if p % 32 == 0 && Full(used, p) {
        assert run == Run(0, 0);
        NoOpenEdge(used, p + 32, end, n, k, run);
      } else {
        StepWhole(used, p, k, run);
        NoOpenEdge(used, p + 1, end, n, k, Step(run, used[p], p, k));
      }
    }
  }

  /** The code returning a run with a taken word in the middle: 2 free frames, a
      full word, 1 free frame, and a request for 3. */
  lemma CarriedWitness(used: seq<bool>)
    requires |used| == 128 && Full(used, 64) && !used[62] && !used[63] && !used[96] && used[61]
    requires forall i :: 32 <= i < 62 ==> used[i]
    ensures FindRun(used, 32, 128, 3, 1, Run(0, 0)) == 62 && !AllClear(used, 62, 3)
  {
    assert !Full(used, 32) by { assert !used[62]; }
    SkipTaken(used, 32, 62, 128, 3, 1);
    assert !Full(used, 96) by { assert !used[96]; }
    assert FindRun(used, 96, 128, 3, 1, Run(62, 2)) == 62;
    assert FindRun(used, 64, 128, 3, 1, Run(62, 2)) == 62;
    assert FindRun(used, 63, 128, 3, 1, Run(62, 1)) == 62;
    assert FindRun(used, 62, 128, 3, 1, Run(0, 0)) == 62;
    assert used[64];
  }

  lemma {:induction false} SkipTaken(used: seq<bool>, p: nat, q: nat, end: nat, n: nat, k: nat)
    requires p <= q < end <= |used| && k > 0 && n > 0 && q < p / 32 * 32 + 32
    requires p % 32 == 0 ==> !Full(used, p)
    requires forall i :: p <= i < q ==> used[i]
    ensures FindRun(used, p, end, n, k, Run(0, 0)) == FindRun(used, q, end, n, k, Run(0, 0))
    decreases q - p
  {
    if p < q {
      assert used[p] && Step(Run(0, 0), used[p], p, k) == Run(0, 0);
      assert FindRun(used, p, end, n, k, Run(0, 0)) == FindRun(used, p + 1, end, n, k, Run(0, 0));
      SameWord(p, q);
      SkipTaken(used, p + 1, q, end, n, k);
    }
  }

  lemma SameWord(p: nat, q: nat)
    requires p < q < p / 32 * 32 + 32
    ensures (p + 1) / 32 == p / 32 && (p + 1) % 32 != 0
  {
  }

  // ---------------------------------------------------------------- contiguous allocation

  /** Frame i is one of those that the n bits from r on name. */
  predicate Covers(r: nat, n: nat, i: nat) { i < 0x100000 && (i - r) % 0x100000 < n }

  lemma CoversLast(r: nat, n: nat, i: nat)
    requires n > 0
    ensures Covers(r, n, i) <==> Covers(r, n - 1, i) || i == Named(r + n - 1)
    ensures n <= 0x100000 ==> !Covers(r, n - 1, Named(r + n - 1))
  {
    LastNamed(r, n - 1);
    if Covers(r, n, i) && !Covers(r, n - 1, i) {
      assert (i - r) % 0x100000 == n - 1;
      SameNamed(r, n - 1, i);
    }
  }

  lemma LastNamed(r: nat, m: nat)
    ensures (Named(r + m) - r) % 0x100000 == m % 0x100000
  {
  }

  lemma SameNamed(r: nat, m: nat, i: nat)
    requires i < 0x100000 && (i - r) % 0x100000 == m
    ensures i == Named(r + m)
  {
  }

  /** The marking loop of alloc_cont_aligned_frames, over 32-bit addresses. */
  function MarkRun(s: Frames, r: nat, n: nat): (t: Frames)
    requires r + n <= |s.used|
    ensures |t.used| == |s.used| && t.total == s.total && t.reserved == s.reserved && t.next == s.next
    ensures forall i :: 0 <= i < |s.used| ==> t.used[i] == (s.used[i] || Covers(r, n, i))
  {
    if n == 0 then s
    else
      CoversAll(r, n);
      MarkUsed(MarkRun(s, r, n - 1), Named(r + n - 1))
  }

  /** The frames that n bits from b on name are free ones of the bitmap. */
  predicate NamesFree(s: Frames, b: nat, n: nat)
    requires Shape(s)
  {
    forall i :: b <= i < b + n ==> Named(i) < s.total && !s.used[Named(i)]
  }

  lemma NamesFreeLast(s: Frames, b: nat, n: nat)
    requires Shape(s) && n > 0
    ensures NamesFree(s, b, n) <==>
              NamesFree(s, b, n - 1) && Named(b + n - 1) < s.total && !s.used[Named(b + n - 1)]
  {
    if NamesFree(s, b, n - 1) && Named(b + n - 1) < s.total && !s.used[Named(b + n - 1)] {
      forall i | b <= i < b + n ensures Named(i) < s.total && !s.used[Named(i)] {
        assert i < b + n - 1 || i == b + n - 1;
      }
    }
  }

  /** Below 2^20 a bit names the frame of its own number. */
  lemma NamesFreeBelow(s: Frames, b: nat, n: nat)
    requires Shape(s) && b + n <= 0x100000 && n > 0
    ensures NamesFree(s, b, n) <==> AllClear(s.used, b, n) && b + n <= s.total
  {
    if NamesFree(s, b, n) {
      assert Named(b + n - 1) == b + n - 1 < s.total;
      forall i | b <= i < b + n ensures !s.used[i] {
        assert Named(i) == i;
      }
    }
    if AllClear(s.used, b, n) && b + n <= s.total {
      forall i | b <= i < b + n ensures Named(i) < s.total && !s.used[Named(i)] {
        assert Named(i) == i;
      }
    }
  }

  /** The frames named do not depend on how often the address has wrapped around. */
  lemma NamedAgain(b: nat, i: nat)
    ensures Named(Named(b) + i) == Named(b + i)
  {
  }

  lemma NamesFreeAgain(s: Frames, b: nat, n: nat)
    requires Shape(s)
    ensures NamesFree(s, Named(b), n) <==> NamesFree(s, b, n)
  {
    if NamesFree(s, b, n) {
      forall i | Named(b) <= i < Named(b) + n ensures Named(i) < s.total && !s.used[Named(i)] {
        NamedAgain(b, i - Named(b));
        assert Named(i) == Named(b + (i - Named(b)));
      }
    }
    if NamesFree(s, Named(b), n) {
      forall j | b <= j < b + n ensures Named(j) < s.total && !s.used[Named(j)] {
        NamedAgain(b, j - b);
        assert Named(j) == Named(Named(b) + (j - b));
      }
    }
  }

  /** A search that finds something in the first part of its range stops there. */
  lemma {:induction false} FindRunStops(used: seq<bool>, p: nat, mid: nat, end: nat, n: nat, k: nat, run: Run)
    requires mid <= end <= |used| && k > 0 && Behind(run, p)
    requires FindRun(used, p, mid, n, k, run) != 0
    ensures FindRun(used, p, end, n, k, run) == FindRun(used, p, mid, n, k, run)
    decreases end - p
  {
    if p % 32 == 0 && Full(used, p) {
      FindRunStops(used, p + 32, mid, end, n, k, run);
    } else {
      var run' := Step(run, used[p], p, k);
      if run'.count != n {
        FindRunStops(used, p + 1, mid, end, n, k, run');
      }
    }
  }

  /** What the search as written does on a range, in terms of the bitmap alone. */
  lemma FindRunByBitmap(used: seq<bool>, p: nat, end: nat, n: nat, k: nat)
    requires 0 < p && end <= |used| && k > 0 && n > 0
    ensures var r, bad := FindRun(used, p, end, n, k, Run(0, 0)), Bridges(used, p, end, n, k, Run(0, 0), false);
            && (r == 0 <==> !bad && !Fit(used, p, end, n, k))
            && (bad <==> r != 0 && !AllClear(used, r, n))
            && (r != 0 && !bad ==> Aligned(r, k) && p <= r && r + n <= end)
  {
    BridgesExact(used, p, end, n, k, Run(0, 0), false);
    FindRunExact(used, p, end, n, k);
    FindWholeExact(used, p, end, n, k);
  }

  /** The bit at which the scan from next_idx on finds a run, and the second scan. */
  function FoundAhead(s: Frames, n: nat, k: nat): (b: nat)
    requires Scannable(s) && k > 0
    ensures b != 0 ==> 0 < n && b + n <= |s.used| && 0 < Named(b) <= b
  {
    FindRun(s.used, 32 * s.next, 32 * s.total, n, k, Run(0, 0))
  }

  function FoundBehind(s: Frames, n: nat, k: nat): (c: nat)
    requires Scannable(s) && k > 0
    ensures c != 0 ==> 0 < n && c + n <= |s.used| && 0 < Named(c) <= c
  {
    FindRun(s.used, 32 * s.reserved, 32 * (s.next - 1), n, k, Run(0, 0))
  }

  /** find_contiguous_frames: the frame that the start of the run found names. */
  function FindRunOfFrames(s: Frames, n: nat, k: nat): (r: nat)
    requires Scannable(s) && k > 0
    ensures r != 0 ==> n > 0 && r + n <= |s.used|
  {
    var r := Named(FoundAhead(s, n, k));
    if r == 0 && s.available >= n then Named(FoundBehind(s, n, k)) else r
  }

  /** alloc_cont_aligned_frames, for an alignment of k pages. */
  function AllocRun(s: Frames, n: nat, k: nat): (Frames, nat)
    requires Scannable(s) && k > 0
  {
    if n > s.available then (s, 0)
    else
      var r := FindRunOfFrames(s, n, k);
      if r == 0 then (s, 0) else (MarkRun(s, r, n).(next := Named(r + n - 1) / 32), r)
  }

  /** Marking keeps the count exactly when the frames named are free ones of the bitmap. */
  lemma {:induction false} MarkRunDrift(s: Frames, r: nat, n: nat)
    requires Shape(s) && r + n <= |s.used| && n <= 0x100000
    ensures var t := MarkRun(s, r, n);
            var drift := t.available - Clear(t.used, 0, s.total) - (s.available - Clear(s.used, 0, s.total));
            drift <= 0 && (drift == 0 <==> NamesFree(s, r, n))
  {
    if n > 0 {
      var t, f := MarkRun(s, r, n - 1), Named(r + n - 1);
      MarkRunDrift(s, r, n - 1);
      ClearFlip(t.used, 0, s.total, f, true);
      CoversLast(r, n, f);
      NamesFreeLast(s, r, n);
    }
  }

  lemma MarkRunExact(s: Frames, r: nat, n: nat)
    requires Ok(s) && r + n <= |s.used| && 0 < n <= 0x100000
    ensures Ok(MarkRun(s, r, n)) <==> NamesFree(s, r, n)
  {
    MarkRunDrift(s, r, n);
  }

  lemma AvailableBelow(s: Frames)
    requires Ok(s)
    ensures s.available <= s.total
  {
    ClearSome(s.used, 0, s.total);
  }

  /** Contiguous allocation returns 0 and changes nothing, or marks n frames. */
  lemma AllocRunTakes(s: Frames, n: nat, k: nat)
    requires Ok(s) && Scannable(s) && k > 0
    ensures var (s', r) := AllocRun(s, n, k);
            if r == 0 then s' == s
            else
              && n > 0 && r + n <= |s.used| && |s'.used| == |s.used|
              && (forall i :: 0 <= i < |s.used| ==> s'.used[i] == (s.used[i] || Covers(r, n, i)))
              && (Ok(s') <==> NamesFree(s, r, n))
  {
    var r := FindRunOfFrames(s, n, k);
    if n <= s.available && r != 0 {
      AvailableBelow(s);
      MarkRunExact(s, r, n);
      var t := MarkRun(s, r, n);
      assert Ok(t.(next := Named(r + n - 1) / 32)) <==> Ok(t);
    }
  }

  /** A run of n free frames lies ahead of next_idx, in the bitmap or, with
      end == 32 * total, in the memory the scan goes on to. */
  predicate FitsAhead(s: Frames, end: nat, n: nat, k: nat)
    requires k > 0
  {
    Fit(s.used, 32 * s.next, end, n, k)
  }

  /** The scan from next_idx to `end` meets the request across a full word. */
  predicate BridgesAhead(s: Frames, end: nat, n: nat, k: nat)
    requires k > 0 && end <= |s.used|
  {
    Bridges(s.used, 32 * s.next, end, n, k, Run(0, 0), false)
  }

  predicate BridgesBehind(s: Frames, n: nat, k: nat)
    requires Scannable(s) && k > 0
  {
    Bridges(s.used, 32 * s.reserved, 32 * (s.next - 1), n, k, Run(0, 0), false)
  }

  /** The run found ahead reaches beyond bit 2^20, and the frames its addresses name once
      they have wrapped around are by chance all free ones of the bitmap. */
  predicate RunWraps(s: Frames, n: nat, b: nat)
    requires Shape(s)
  {
    b != 0 && b + n > 0x100000 && NamesFree(s, b, n)
  }

  /** Where the scans of alloc_cont_aligned_frames leave the count right: a run lies
      ahead in the bitmap and is met without a full word in it; or there is none ahead
      even in the memory behind the bitmap, and the second scan bridges nothing; or the
      addresses wrap around to free frames. */
  predicate RunStays(s: Frames, n: nat, k: nat)
    requires Scannable(s) && k > 0
  {
    || n == 0 || n > s.available
    || (FitsAhead(s, s.total, n, k) && !BridgesAhead(s, s.total, n, k))
    || (!FitsAhead(s, 32 * s.total, n, k) && !BridgesAhead(s, 32 * s.total, n, k) && !BridgesBehind(s, n, k))
    || RunWraps(s, n, FoundAhead(s, n, k))
  }

  /** What the scan ahead finds is right exactly when it is a run of the bitmap met
      without a full word in it, or wraps around to free frames. */
  lemma AheadExact(s: Frames, n: nat, k: nat)
    requires Ok(s) && Scannable(s) && k > 0 && n > 0
    ensures var b, good := FoundAhead(s, n, k), FitsAhead(s, s.total, n, k) && !BridgesAhead(s, s.total, n, k);
            && (b == 0 <==> !FitsAhead(s, 32 * s.total, n, k) && !BridgesAhead(s, 32 * s.total, n, k))
            && (good ==> b != 0 && b + n <= s.total && Aligned(b, k))
            && (b != 0 ==> (NamesFree(s, b, n) <==> RunWraps(s, n, b) || good))
  {
    var p := 32 * s.next;
    FindRunByBitmap(s.used, p, s.total, n, k);
    FindRunByBitmap(s.used, p, 32 * s.total, n, k);
    var a, b := FindRun(s.used, p, s.total, n, k, Run(0, 0)), FoundAhead(s, n, k);
    if a != 0 {
      FindRunStops(s.used, p, s.total, 32 * s.total, n, k, Run(0, 0));
      NamesFreeBelow(s, a, n);
    } else if b != 0 && b + n <= 0x100000 {
      NamesFreeBelow(s, b, n);
      assert AllClear(s.used, b, n) ==> !(b + n <= s.total);
    }
  }

  /** The second scan, inside the bitmap. */
  lemma BehindExact(s: Frames, n: nat, k: nat)
    requires Ok(s) && Placed(s) && k > 0 && n > 0
    ensures var c := FoundBehind(s, n, k);
            && Named(c) == c && (c == 0 ==> !BridgesBehind(s, n, k))
            && (c != 0 ==> c + n <= s.total && (NamesFree(s, c, n) <==> !BridgesBehind(s, n, k)))
            && (c != 0 && !BridgesBehind(s, n, k) ==> Aligned(c, k))
  {
    RangeExact(s, 32 * s.reserved, 32 * (s.next - 1), n, k);
    BelowNamed(FoundBehind(s, n, k));
  }

  /** A scan that stays inside the bitmap. */
  lemma RangeExact(s: Frames, p: nat, end: nat, n: nat, k: nat)
    requires Shape(s) && 0 < p && end <= s.total && k > 0 && n > 0
    ensures var c, bad := FindRun(s.used, p, end, n, k, Run(0, 0)), Bridges(s.used, p, end, n, k, Run(0, 0), false);
            && (c == 0 ==> !bad)
            && (c != 0 ==> c + n <= end && (NamesFree(s, c, n) <==> !bad))
            && (c != 0 && !bad ==> Aligned(c, k))
  {
    FindRunByBitmap(s.used, p, end, n, k);
    var c := FindRun(s.used, p, end, n, k, Run(0, 0));
    if c != 0 {
      NamesFreeBelow(s, c, n);
    }
  }

  /** Contiguous allocation keeps the count right exactly then, and the frames it hands
      out, by their addresses, are then free and none of them the kernel's. */
  lemma AllocRunExact(s: Frames, n: nat, k: nat)
    requires Ok(s) && Placed(s) && k > 0
    ensures var (s', r) := AllocRun(s, n, k);
            && (Ok(s') <==> RunStays(s, n, k))
            && (r != 0 && RunStays(s, n, k) ==>
                  NamesFree(s, r, n) && forall i :: r <= i < r + n ==> Named(i) >= s.reserved)
  {
    AllocRunTakes(s, n, k);
    var r := AllocRun(s, n, k).1;
    if 0 < n <= s.available {
      FoundExact(s, n, k);
      if NamesFree(s, r, n) {
        AboveKernel(s, r, n);
      }
    }
  }

  lemma AboveKernel(s: Frames, r: nat, n: nat)
    requires Ok(s) && NamesFree(s, r, n)
    ensures forall i :: r <= i < r + n ==> Named(i) >= s.reserved
  {
    forall i | r <= i < r + n ensures Named(i) >= s.reserved {
      assert !s.used[Named(i)];
    }
  }

  lemma FoundExact(s: Frames, n: nat, k: nat)
    requires Ok(s) && Placed(s) && k > 0 && 0 < n <= s.available
    ensures var r := FindRunOfFrames(s, n, k);
            if r == 0 then RunStays(s, n, k) else NamesFree(s, r, n) <==> RunStays(s, n, k)
  {
    AheadExact(s, n, k);
    NamesFreeAgain(s, FoundAhead(s, n, k), n);
    if FoundAhead(s, n, k) == 0 {
      BehindExact(s, n, k);
    }
  }

  /** The first bit from which the range holds n free frames, if the scan bridges nothing. */
  predicate FirstFit(used: seq<bool>, p: nat, end: nat, n: nat, k: nat, b: nat)
    requires k > 0
  {
    && p <= b && b + n <= end && Startable(b, k) && AllClear(used, b, n)
    && forall q :: p <= q < b && q + n <= end ==> !(Startable(q, k) && AllClear(used, q, n))
  }

  lemma FindRunFirst(used: seq<bool>, p: nat, end: nat, n: nat, k: nat)
    requires 0 < p && end <= |used| && k > 0 && n > 0
    requires Fit(used, p, end, n, k) && !Bridges(used, p, end, n, k, Run(0, 0), false)
    ensures FirstFit(used, p, end, n, k, FindRun(used, p, end, n, k, Run(0, 0)))
  {
    FindRunExact(used, p, end, n, k);
    FindRunByBitmap(used, p, end, n, k);
    FindWholeRight(used, p, end, n, k, Run(0, 0));
    var b := FindRun(used, p, end, n, k, Run(0, 0));
    assert b == FindWhole(used, p, end, n, k, Run(0, 0)) by {
      BridgesExact(used, p, end, n, k, Run(0, 0), false);
    }
    forall q | p <= q < b && q + n <= end ensures !(Startable(q, k) && AllClear(used, q, n)) {
      if Startable(q, k) && AllClear(used, q, n) {
        FindWholeFirst(used, p, end, n, k, Run(0, 0), q);
      }
    }
  }

  /** What a scan of a range gives: nothing exactly when the range holds no run and none is
      met across a full word, and the first run unless one is met across a full word. */
  predicate RunGiven(used: seq<bool>, p: nat, end: nat, n: nat, k: nat, b: nat)
    requires end <= |used| && k > 0
  {
    var bad := Bridges(used, p, end, n, k, Run(0, 0), false);
    && (b == 0 <==> !bad && !Fit(used, p, end, n, k))
    && (b != 0 && !bad ==> FirstFit(used, p, end, n, k, b))
  }

  lemma RunScanned(used: seq<bool>, p: nat, end: nat, n: nat, k: nat)
    requires 0 < p && end <= |used| && k > 0 && n > 0
    ensures RunGiven(used, p, end, n, k, FindRun(used, p, end, n, k, Run(0, 0)))
  {
    FindRunByBitmap(used, p, end, n, k);
    if Fit(used, p, end, n, k) && !Bridges(used, p, end, n, k, Run(0, 0), false) {
      FindRunFirst(used, p, end, n, k);
    }
  }

  /** When contiguous allocation fails and what it returns: the frame named by the run that
      the range ahead gives, else by the one behind; next_idx is then the word of its last
      frame.  A failure changes nothing. */
  lemma AllocRunResult(s: Frames, n: nat, k: nat)
    requires Scannable(s) && k > 0 && 0 < n <= s.available
    ensures exists b, c ::
              && RunGiven(s.used, 32 * s.next, 32 * s.total, n, k, b)
              && RunGiven(s.used, 32 * s.reserved, 32 * (s.next - 1), n, k, c)
              && AllocRun(s, n, k).1 == if b != 0 then Named(b) else Named(c)
    ensures var (s', r) := AllocRun(s, n, k);
            if r == 0 then s' == s else 32 * s'.next <= Named(r + n - 1) < 32 * s'.next + 32
  {
    RunScanned(s.used, 32 * s.next, 32 * s.total, n, k);
    RunScanned(s.used, 32 * s.reserved, 32 * (s.next - 1), n, k);
    var b, c := FoundAhead(s, n, k), FoundBehind(s, n, k);
    RunReturned(s, n, k, b, c);
    assert RunGiven(s.used, 32 * s.next, 32 * s.total, n, k, b);
    assert RunGiven(s.used, 32 * s.reserved, 32 * (s.next - 1), n, k, c);
  }

  lemma RunReturned(s: Frames, n: nat, k: nat, b: nat, c: nat)
    requires Scannable(s) && k > 0 && 0 < n <= s.available && b == FoundAhead(s, n, k) && c == FoundBehind(s, n, k)
    ensures var (s', r) := AllocRun(s, n, k);
            && r == (if b != 0 then Named(b) else Named(c))
            && if r == 0 then s' == s else 32 * s'.next <= Named(r + n - 1) < 32 * s'.next + 32
  {
  }

  /** A run can start at any bit whose number is a multiple of the alignment in pages, but
      not where the 32-bit address is null. */
  lemma StartableExact(p: nat, k: nat)
    requires k > 0
    ensures Startable(p, k) <==> p % k == 0 && p % 0x100000 != 0
  {
  }

  /** An aligned run of free frames in either range of the bitmap makes it succeed. */
  lemma AllocRunSucceeds(s: Frames, n: nat, k: nat, r: nat)
    requires Placed(s) && k > 0 && 0 < n <= s.available
    requires r % k == 0 && AllClear(s.used, r, n)
    requires (32 * s.next <= r && r + n <= s.total) || (32 * s.reserved <= r && r + n <= 32 * (s.next - 1))
    ensures AllocRun(s, n, k).1 != 0
  {
    StartableExact(r, k);
    if 32 * s.next <= r {
      assert Fit(s.used, 32 * s.next, 32 * s.total, n, k);
      RunScanned(s.used, 32 * s.next, 32 * s.total, n, k);
    } else {
      assert Fit(s.used, 32 * s.reserved, 32 * (s.next - 1), n, k);
      RunScanned(s.used, 32 * s.reserved, 32 * (s.next - 1), n, k);
    }
    RunReturned(s, n, k, FoundAhead(s, n, k), FoundBehind(s, n, k));
  }

  /** Outside these sizes nothing is asked for or nothing can be given. */
  lemma AllocRunRefuses(s: Frames, n: nat, k: nat)
    requires Scannable(s) && k > 0 && (n == 0 || n > s.available)
    ensures AllocRun(s, n, k) == (s, 0)
  {
  }

  /** Unless its addresses wrap around the run is an aligned one of free frames above the
      kernel's, inside the bitmap. */
  lemma AllocRunAligned(s: Frames, n: nat, k: nat)
    requires Ok(s) && Placed(s) && k > 0 && AllocRun(s, n, k).1 != 0
    requires RunStays(s, n, k) && !RunWraps(s, n, FoundAhead(s, n, k))
    ensures var r := AllocRun(s, n, k).1;
            AllClear(s.used, r, n) && Aligned(r, k) && s.reserved <= r && r + n <= s.total
  {
    FoundFree(s, n, k);
  }

  lemma FoundFree(s: Frames, n: nat, k: nat)
    requires Ok(s) && Placed(s) && k > 0 && 0 < n <= s.available && FindRunOfFrames(s, n, k) != 0
    requires RunStays(s, n, k) && !RunWraps(s, n, FoundAhead(s, n, k))
    ensures var r := FindRunOfFrames(s, n, k);
            AllClear(s.used, r, n) && Aligned(r, k) && s.reserved <= r && r + n <= s.total
  {
    var r := FindRunOfFrames(s, n, k);
    FoundInside(s, n, k);
    assert NamesFree(s, r, n) by {
      FoundExact(s, n, k);
    }
    NamesFreeBelow(s, r, n);
    assert !s.used[r];
  }

  lemma FoundInside(s: Frames, n: nat, k: nat)
    requires Ok(s) && Placed(s) && k > 0 && 0 < n <= s.available && FindRunOfFrames(s, n, k) != 0
    requires RunStays(s, n, k) && !RunWraps(s, n, FoundAhead(s, n, k))
    ensures var r := FindRunOfFrames(s, n, k); r + n <= s.total && Aligned(r, k)
  {
    AheadExact(s, n, k);
    BelowNamed(FoundAhead(s, n, k));
    if FoundAhead(s, n, k) == 0 {
      BehindExact(s, n, k);
    }
  }

  /** Frames named from f on are bits of the memory modelled. */
  predicate InMemory(s: Frames, f: nat, n: nat) { f + n <= |s.used| || 0x100000 <= |s.used| }

  /** dealloc_cont_frames: from the last frame down, over 32-bit addresses. */
  function DeallocRun(s: Frames, f: nat, n: nat): (t: Frames)
    requires InMemory(s, f, n)
    ensures |t.used| == |s.used| && t.total == s.total && t.reserved == s.reserved
    decreases n
  {
    if n == 0 then s else DeallocRun(DeallocFrame(s, Named(f + n - 1)), f, n - 1)
  }

  /** Every frame of the run that is not refused is a used one of the bitmap. */
  predicate Freeable(s: Frames, f: nat, n: nat)
    requires Shape(s)
  {
    forall i :: f <= i < f + n && Named(i) > s.reserved ==> Named(i) < s.total && s.used[Named(i)]
  }

  /** Freeing a frame that is not a used one of the bitmap counts it once too often. */
  lemma {:induction false} DeallocRunDrift(s: Frames, f: nat, n: nat)
    requires Shape(s) && InMemory(s, f, n) && n <= 0x100000
    ensures var t := DeallocRun(s, f, n);
            var drift := t.available - Clear(t.used, 0, s.total) - (s.available - Clear(s.used, 0, s.total));
            && drift >= 0 && (drift == 0 <==> Freeable(s, f, n))
            && forall i :: 0 <= i < |s.used| ==> t.used[i] == (s.used[i] && !(Covers(f, n, i) && i > s.reserved))
    decreases n
  {
    if n == 0 {
      assert forall i: nat :: !Covers(f, 0, i);
    } else {
      var g := Named(f + n - 1);
      var t := DeallocFrame(s, g);
      ClearFlip(s.used, 0, s.total, g, false);
      DeallocRunDrift(t, f, n - 1);
      FreeableLast(s, t, f, n);
      CoversAll(f, n);
    }
  }

  lemma CoversAll(r: nat, n: nat)
    requires n > 0
    ensures forall i: nat :: Covers(r, n, i) <==> Covers(r, n - 1, i) || i == Named(r + n - 1)
  {
    forall i: nat ensures Covers(r, n, i) <==> Covers(r, n - 1, i) || i == Named(r + n - 1) {
      CoversLast(r, n, i);
    }
  }

  lemma NamedApart(i: nat, j: nat)
    requires i < j < i + 0x100000
    ensures Named(i) != Named(j)
  {
  }

  lemma FreeableLast(s: Frames, t: Frames, f: nat, n: nat)
    requires Shape(s) && 0 < n <= 0x100000 && InMemory(s, f, n) && t == DeallocFrame(s, Named(f + n - 1))
    ensures var g := Named(f + n - 1);
            Freeable(s, f, n) <==> Freeable(t, f, n - 1) && (g > s.reserved ==> g < s.total && s.used[g])
  {
    var g := Named(f + n - 1);
    forall i | f <= i < f + n - 1 ensures Named(i) < |s.used| ==> t.used[Named(i)] == s.used[Named(i)] {
      NamedApart(i, f + n - 1);
    }
    if Freeable(t, f, n - 1) && (g > s.reserved ==> g < s.total && s.used[g]) {
      forall i | f <= i < f + n && Named(i) > s.reserved ensures Named(i) < s.total && s.used[Named(i)] {
        assert i < f + n - 1 || i == f + n - 1;
      }
      assert Freeable(s, f, n);
    }
    if Freeable(s, f, n) {
      assert Named(f + n - 1) == g;
      forall i | f <= i < f + n - 1 && Named(i) > t.reserved ensures Named(i) < t.total && t.used[Named(i)] {
        assert Named(i) < s.total;
      }
    }
  }

  /** Freeing a run keeps the count exactly when every frame of it that is not refused
      is a used one of the bitmap, and frees those above the first behind the kernel. */
  lemma DeallocRunExact(s: Frames, f: nat, n: nat)
    requires Ok(s) && InMemory(s, f, n) && n <= 0x100000
    ensures var t := DeallocRun(s, f, n);
            && (Ok(t) <==> Freeable(s, f, n))
            && forall i :: 0 <= i < |s.used| ==> t.used[i] == (s.used[i] && !(Covers(f, n, i) && i > s.reserved))
  {
    DeallocRunDrift(s, f, n);
  }

  /** next_idx is then the word of the run's first frame, which is freed last. */
  lemma {:induction false} DeallocRunWord(s: Frames, f: nat, n: nat)
    requires InMemory(s, f, n) && n > 0 && Named(f) > s.reserved
    ensures 32 * DeallocRun(s, f, n).next <= Named(f) < 32 * DeallocRun(s, f, n).next + 32
    decreases n
  {
    var t := DeallocFrame(s, Named(f + n - 1));
    if n > 1 {
      DeallocRunWord(t, f, n - 1);
    } else {
      assert DeallocRun(t, f, 0) == t;
    }
  }

  // ---------------------------------------------------------------- whole runs

  datatype Op = TakeFrame | GiveFrame(f: nat) | TakeRun(n: nat, k: nat) | GiveRun(f: nat, n: nat)

  /** With 32 or more frames of kernel, next_idx never reaches the first word. */
  predicate Good(s: Frames) { Ok(s) && Placed(s) && s.reserved >= 32 }

  /** The arguments name frames of the memory modelled, by 32-bit addresses. */
  predicate Callable(s: Frames, op: Op) {
    match op
    case TakeFrame => true
    case GiveFrame(f) => f < |s.used| && f < 0x100000
    case TakeRun(n, k) => k > 0
    case GiveRun(f, n) => InMemory(s, f, n) && n <= 0x100000
  }

  /** What a caller, or the memory behind the bitmap, must grant for a step. */
  predicate Fair(s: Frames, op: Op)
    requires Scannable(s) && Callable(s, op)
  {
    match op
    case TakeFrame => ScanStays(s)
    case GiveFrame(f) => f <= s.reserved || (f < s.total && s.used[f])
    case TakeRun(n, k) => RunStays(s, n, k)
    case GiveRun(f, n) => Freeable(s, f, n)
  }

  function Apply(s: Frames, op: Op): Frames
    requires Scannable(s) && Callable(s, op)
  {
    match op
    case TakeFrame => AllocFrame(s).0
    case GiveFrame(f) => DeallocFrame(s, f)
    case TakeRun(n, k) => AllocRun(s, n, k).0
    case GiveRun(f, n) => DeallocRun(s, f, n)
  }

  lemma {:induction false} DeallocRunNext(s: Frames, f: nat, n: nat)
    requires Placed(s) && InMemory(s, f, n) && n <= 0x100000 && Freeable(s, f, n) && s.reserved >= 32
    ensures Placed(DeallocRun(s, f, n))
    decreases n
  {
    if n > 0 {
      var t := DeallocFrame(s, Named(f + n - 1));
      FreeableLast(s, t, f, n);
      DeallocRunNext(t, f, n - 1);
    }
  }

  /** One step keeps the count right exactly when it is fair. */
  lemma StepExact(s: Frames, op: Op)
    requires Good(s) && Callable(s, op)
    ensures Ok(Apply(s, op)) <==> Fair(s, op)
    ensures Fair(s, op) ==> Good(Apply(s, op))
  {
    match op
    case TakeFrame =>
      AllocFrameExact(s);
    case GiveFrame(f) =>
      DeallocFrameExact(s, f);
    case TakeRun(n, k) =>
      AllocRunExact(s, n, k);
    case GiveRun(f, n) =>
      DeallocRunExact(s, f, n);
      if Freeable(s, f, n) {
        DeallocRunNext(s, f, n);
      }
  }

  lemma MemoryStays(s: Frames, op: Op)
    requires Scannable(s) && Callable(s, op)
    ensures |Apply(s, op).used| == |s.used|
  {
  }

  /** Throughout the run available_frames is the number of clear bits of the bitmap
      and no frame of the kernel is free. */
  ghost predicate StaysRight(s: Frames, ops: seq<Op>)
    decreases |ops|
  {
    Ok(s) && (ops == [] || (Scannable(s) && Callable(s, ops[0]) && StaysRight(Apply(s, ops[0]), ops[1..])))
  }

  /** Every call of the run is fair. */
  ghost predicate FairRun(s: Frames, ops: seq<Op>)
    decreases |ops|
  {
    ops == [] || (Scannable(s) && Callable(s, ops[0]) && Fair(s, ops[0]) && FairRun(Apply(s, ops[0]), ops[1..]))
  }

  /** Over every run of the code as written the count stays right if and only if no
      free frame is freed and every allocation finds the bitmap, and the memory behind
      it, in a state its scans can cope with. */
  lemma {:induction false} CountStaysRight(s: Frames, ops: seq<Op>)
    requires Good(s) && forall op <- ops :: Callable(s, op)
    ensures StaysRight(s, ops) <==> FairRun(s, ops)
    decreases |ops|
  {
    if ops != [] {
      var op := ops[0];
      StepExact(s, op);
      if Fair(s, op) {
        MemoryStays(s, op);
        forall o <- ops[1..] ensures Callable(Apply(s, op), o) {
          assert Callable(s, o);
        }
        CountStaysRight(Apply(s, op), ops[1..]);
      } else {
        assert !Ok(Apply(s, op));
      }
    }
  }

  // ---------------------------------------------------------------- the evident intent

  /** Allocation with every search kept inside a range of the bitmap and a full word
      ending a run; freeing as it is. */
  datatype Request =
    | OneFrame(from: nat, to: nat)
    | SomeFrames(from: nat, to: nat, n: nat, k: nat)
    | Return(f: nat)
    | ReturnRun(f: nat, n: nat)

  /** The ranges lie inside the bitmap, and nothing free is freed. */
  predicate Proper(s: Frames, q: Request)
    requires Shape(s)
  {
    match q
    case OneFrame(from, to) => 0 < from && to <= s.total
    case SomeFrames(from, to, n, k) => 0 < from && to <= s.total && n > 0 && k > 0
    case Return(f) => f < |s.used| && (f <= s.reserved || (f < s.total && s.used[f]))
    case ReturnRun(f, n) => InMemory(s, f, n) && n <= 0x100000 && Freeable(s, f, n)
  }

  /** The new state and the first frame handed out, 0 for none. */
  function Serve(s: Frames, q: Request): (Frames, nat)
    requires Shape(s) && Proper(s, q)
  {
    match q
    case OneFrame(from, to) =>
      var f := FindFree(s.used, from, to);
      if s.available == 0 || f == 0 then (s, 0) else (MarkUsed(s, f), f)
    case SomeFrames(from, to, n, k) =>
      var r := FindWhole(s.used, from, to, n, k, Run(0, 0));
      if n > s.available || r == 0 || r + n > |s.used| then (s, 0) else (MarkRun(s, r, n), r)
    case Return(f) => (DeallocFrame(s, f), 0)
    case ReturnRun(f, n) => (DeallocRun(s, f, n), 0)
  }

  /** How many frames a request hands out when it succeeds. */
  function Size(q: Request): nat {
    match q case OneFrame(_, _) => 1 case SomeFrames(_, _, n, _) => n case _ => 0
  }

  /** Every request keeps the count right, and hands out only frames that were free,
      none of them the kernel's, aligned as asked. */
  lemma ServeOk(s: Frames, q: Request)
    requires Ok(s) && Proper(s, q)
    ensures var (t, r) := Serve(s, q);
            && Ok(t)
            && (r != 0 ==> AllClear(s.used, r, Size(q)) && s.reserved <= r && r + Size(q) <= s.total)
            && (r != 0 && q.SomeFrames? ==> Aligned(r, q.k))
  {
    match q
    case OneFrame(from, to) =>
      var f := FindFree(s.used, from, to);
      if f != 0 {
        MarkUsedExact(s, f);
      }
    case SomeFrames(from, to, n, k) =>
      FindWholeRight(s.used, from, to, n, k, Run(0, 0));
      var r := FindWhole(s.used, from, to, n, k, Run(0, 0));
      if r != 0 {
        MarkRunExact(s, r, n);
        NamesFreeBelow(s, r, n);
        assert !s.used[r];
      }
    case Return(f) => DeallocFrameExact(s, f);
    case ReturnRun(f, n) => DeallocRunExact(s, f, n);
  }

  ghost predicate ProperRun(s: Frames, qs: seq<Request>)
    decreases |qs|
  {
    qs == [] || (Shape(s) && Proper(s, qs[0]) && ProperRun(Serve(s, qs[0]).0, qs[1..]))
  }

  ghost function ServeAll(s: Frames, qs: seq<Request>): Frames
    requires ProperRun(s, qs)
    decreases |qs|
  {
    if qs == [] then s else ServeAll(Serve(s, qs[0]).0, qs[1..])
  }

  /** Over every run without double frees available_frames is the number of clear
      bits and the kernel's frames are never free. */
  lemma {:induction false} IntendedCountStaysRight(s: Frames, qs: seq<Request>)
    requires Ok(s) && ProperRun(s, qs)
    ensures Ok(ServeAll(s, qs))
    decreases |qs|
  {
    if qs != [] {
      ServeOk(s, qs[0]);
      IntendedCountStaysRight(Serve(s, qs[0]).0, qs[1..]);
    }
  }

  // ---------------------------------------------------------------- start-up

  /** init_frame_manager: the clearing length is a number of words taken as bytes, so
      only the first quarter of the bitmap is cleared. */
  function Init(mem: seq<bool>, total: nat, reserved: nat): Frames
    requires total <= |mem|
  {
    var used := seq(|mem|, i requires 0 <= i < |mem| => i < reserved || (i >= total / 4 && mem[i]));
    Frames(used, total, reserved, total - reserved, reserved / 32 + 1)
  }

  /** The first frame whose bit is neither cleared nor marked. */
  function Kept(total: nat, reserved: nat): nat { if reserved > total / 4 then reserved else total / 4 }

  lemma {:induction false} InitCount(mem: seq<bool>, total: nat, reserved: nat, hi: nat)
    requires reserved < total && hi <= total <= |mem|
    ensures var c, m := Clear(Init(mem, total, reserved).used, 0, hi), Kept(total, reserved);
            c == if hi <= reserved then 0
                 else if hi <= m then hi - reserved
                 else m - reserved + Clear(mem, m, hi)
    decreases hi
  {
    if hi > 0 {
      InitCount(mem, total, reserved, hi - 1);
    }
  }

  /** The allocator starts out consistent exactly when the rest of the bitmap was
      already zero. */
  lemma InitExact(mem: seq<bool>, total: nat, reserved: nat)
    requires total % 32 == 0 && 0 < reserved < total <= |mem| && total <= 0x100000
    ensures var m := Kept(total, reserved);
            Ok(Init(mem, total, reserved)) <==> AllClear(mem, m, total - m)
  {
    InitCount(mem, total, reserved, total);
    ClearAll(mem, Kept(total, reserved), total);
  }

  /** The bits at start-up, and next_idx: the word behind the one of the first frame that
      is not reserved. */
  lemma InitResult(mem: seq<bool>, total: nat, reserved: nat)
    requires reserved < total <= |mem|
    ensures var s := Init(mem, total, reserved);
            && |s.used| == |mem| && s.total == total && s.reserved == reserved && s.available == total - reserved
            && (forall i :: 0 <= i < reserved ==> s.used[i])
            && (forall i :: reserved <= i < |mem| && 4 * i + 4 <= total ==> !s.used[i])
            && (forall i :: reserved <= i < |mem| && 4 * i + 4 > total && total % 4 == 0 ==> s.used[i] == mem[i])
            && 32 * (s.next - 1) <= reserved < 32 * s.next
  {
  }

  lemma {:induction false} ClearAll(used: seq<bool>, lo: nat, hi: nat)
    requires lo <= hi <= |used|
    ensures Clear(used, lo, hi) <= hi - lo
    ensures Clear(used, lo, hi) == hi - lo <==> forall i :: lo <= i < hi ==> !used[i]
    decreases hi
  {
    if lo < hi {
      ClearAll(used, lo, hi - 1);
    }
  }

  // ---------------------------------------------------------------- the frame manager

  lemma FullHasNone(used: seq<bool>, p: nat, q: nat, end: nat)
    requires Full(used, p) && p <= q <= p + 32 <= end <= |used|
    ensures FindFree(used, q, end) == FindFree(used, p + 32, end)
    decreases p + 32 - q
  {
    if q < p + 32 {
      FullHasNone(used, p, q + 1, end);
    }
  }

  class FrameManager {
    var used: seq<bool>
    var total: nat
    var reserved: nat
    var available: int
    var next: nat

    ghost function Value(): Frames
      reads this
    {
      Frames(used, total, reserved, available, next)
    }

    ghost predicate Ready()
      reads this
    {
      Scannable(Value())
    }

    constructor (mem: seq<bool>, total: nat, reserved: nat)
      requires total <= |mem|
      ensures Value() == Init(mem, total, reserved)
    {
      this.used := seq(|mem|, i requires 0 <= i < |mem| => i < reserved || (i >= total / 4 && mem[i]));
      this.total, this.reserved, this.available, this.next := total, reserved, total - reserved, reserved / 32 + 1;
    }

    /** find_free_frame_in_rage, word by word and bit by bit. */
    method FindFreeInRange(start: nat, end: nat) returns (r: nat)
      requires 0 < start && 32 * end <= |used|
      ensures r == Named(FindFree(used, 32 * start, 32 * end))
    {
      var w := start;
      while w < end
        invariant 0 < start <= w
        invariant FindFree(used, 32 * w, 32 * end) == FindFree(used, 32 * start, 32 * end)
      {
        if !Full(used, 32 * w) {
          var offset := 0;
          while offset < 32
            invariant 0 <= offset <= 32
            invariant FindFree(used, 32 * w + offset, 32 * end) == FindFree(used, 32 * start, 32 * end)
          {
            if !used[32 * w + offset] {
              return (32 * w + offset) % 0x100000;
            }
            offset := offset + 1;
          }
        } else {
          FullHasNone(used, 32 * w, 32 * w, 32 * end);
        }
        w := w + 1;
      }
      r := 0;
    }

    /** alloc_frame */
    method Alloc() returns (f: nat)
      requires Ready()
      modifies this
      ensures (Value(), f) == AllocFrame(old(Value()))
    {
      if available == 0 {
        return 0;
      }
      f := FindFreeFrame();
      if f != 0 {
        used := used[f := true];
        available := available - 1;
        next := f / 32;
      }
    }

    /** find_free_frame */
    method FindFreeFrame() returns (f: nat)
      requires Ready()
      ensures f == FindFrame(Value())
    {
      f := FindFreeInRange(next, total);
      if f == 0 && available != 0 {
        f := FindFreeInRange(reserved, next - 1);
      }
    }

    /** dealloc_frame */
    method Dealloc(f: nat)
      requires f < |used|
      modifies this
      ensures Value() == DeallocFrame(old(Value()), f)
    {
      if f <= reserved {
        return;
      }
      next := f / 32;
      used := used[f := false];
      available := available + 1;
    }

    /** The inner loop of find_contiguous_frames_in_ranges, over a word with a free bit.
        `bits` is the run with its start not yet reduced to 32 bits. */
    method FindRunInWord(p: nat, end: nat, n: nat, k: nat, before: Run, ghost from: Run)
      returns (found: bool, run: Run, ghost bits: Run)
      requires p % 32 == 0 && p + 32 <= end <= |used| && k > 0 && !Full(used, p) && Tracks(before, from, p)
      ensures found ==> run.start == Named(FindRun(used, p, end, n, k, from))
      ensures !found ==> Tracks(run, bits, p + 32)
      ensures !found ==> FindRun(used, p + 32, end, n, k, bits) == FindRun(used, p, end, n, k, from)
    {
      ghost var answer := FindRun(used, p, end, n, k, from);
      run, bits := before, from;
      var q, last := p, p + 32;
      while q < last
        invariant p <= q <= last && Tracks(run, bits, q)
        invariant FindRun(used, q, end, n, k, bits) == answer
      {
        NotAtWord(p, q);
        FindRunNext(used, q, end, n, k, bits);
        TracksStep(run, bits, used[q], q, k);
        run, bits := StepAddress(run, used[q], q, k), Step(bits, used[q], q, k);
        q := q + 1;
        if run.count == n {
          return true, run, bits;
        }
      }
      found := false;
    }

    /** Its outer loop's body: a full word is passed over. */
    method LookAtWord(p: nat, end: nat, n: nat, k: nat, before: Run, ghost from: Run)
      returns (found: bool, run: Run, ghost bits: Run)
      requires p % 32 == 0 && p + 32 <= end <= |used| && k > 0 && Tracks(before, from, p)
      ensures found ==> run.start == Named(FindRun(used, p, end, n, k, from))
      ensures !found ==> Tracks(run, bits, p + 32)
      ensures !found ==> FindRun(used, p + 32, end, n, k, bits) == FindRun(used, p, end, n, k, from)
    {
      if Full(used, p) {
        return false, before, from;
      }
      found, run, bits := FindRunInWord(p, end, n, k, before, from);
    }

    /** find_contiguous_frames_in_ranges */
    method FindRunInRange(start: nat, end: nat, n: nat, k: nat) returns (r: nat)
      requires 32 * end <= |used| && k > 0
      ensures r == Named(FindRun(used, 32 * start, 32 * end, n, k, Run(0, 0)))
    {
      var p, last := 32 * start, 32 * end;
      r := FindRunInBits(p, last, n, k);
    }

    method FindRunInBits(start: nat, end: nat, n: nat, k: nat) returns (r: nat)
      requires start % 32 == 0 && end % 32 == 0 && end <= |used| && k > 0
      ensures r == Named(FindRun(used, start, end, n, k, Run(0, 0)))
    {
      ghost var answer, bits := FindRun(used, start, end, n, k, Run(0, 0)), Run(0, 0);
      var run, p, found := Run(0, 0), start, false;
      while p < end
        invariant p % 32 == 0 && Tracks(run, bits, p)
        invariant FindRun(used, p, end, n, k, bits) == answer
        decreases end - p
      {
        WordFits(p, end);
        found, run, bits := LookAtWord(p, end, n, k, run, bits);
        if found {
          return run.start;
        }
        p := p + 32;
      }
      r := 0;
    }

    /** alloc_cont_aligned_frames */
    method AllocContiguous(n: nat, k: nat) returns (r: nat)
      requires Ready() && k > 0
      modifies this
      ensures (Value(), r) == AllocRun(old(Value()), n, k)
    {
      if n > available {
        return 0;
      }
      r := FindRunAnywhere(n, k);
      if r == 0 {
        return;
      }
      MarkAll(r, n);
      next := (r + n - 1) % 0x100000 / 32;
    }

    /** find_contiguous_frames */
    method FindRunAnywhere(n: nat, k: nat) returns (r: nat)
      requires Ready() && k > 0
      ensures r == FindRunOfFrames(Value(), n, k)
    {
      r := FindRunInRange(next, total, n, k);
      if r == 0 && available >= n {
        r := FindRunInRange(reserved, next - 1, n, k);
      }
    }

    method MarkAll(r: nat, n: nat)
      requires r + n <= |used|
      modifies this`used, this`available
      ensures Value() == MarkRun(old(Value()), r, n)
    {
      for i := 0 to n
        invariant Value() == MarkRun(old(Value()), r, i)
      {
        used := used[(r + i) % 0x100000 := true];
        available := available - 1;
      }
    }
  }

  /** The code's start_address, as a frame. */
  function Wrapped(bits: Run): Run { Run(Named(bits.start), bits.count) }

  /** The code's step, on start_address itself. */
  function StepAddress(run: Run, taken: bool, p: nat, k: nat): Run
    requires k > 0
  {
    if taken then (if run.start != 0 then Run(0, 0) else run)
    else
      var start := if run.start == 0 && Aligned(p, k) then Named(p) else run.start;
      Run(start, if start != 0 then run.count + 1 else run.count)
  }

  /** The code's run and the run of bits it stands for; a null start_address is no run. */
  predicate Tracks(run: Run, bits: Run, p: nat) {
    Behind(bits, p) && run == Wrapped(bits) && (bits.start != 0 ==> run.start != 0)
  }

  lemma TracksStep(run: Run, bits: Run, taken: bool, p: nat, k: nat)
    requires k > 0 && Tracks(run, bits, p)
    ensures Tracks(StepAddress(run, taken, p, k), Step(bits, taken, p, k), p + 1)
  {
  }

  lemma FindRunNext(used: seq<bool>, p: nat, end: nat, n: nat, k: nat, run: Run)
    requires p < end <= |used| && k > 0 && Behind(run, p) && !(p % 32 == 0 && Full(used, p))
    ensures var next := Step(run, used[p], p, k);
            && Behind(next, p + 1)
            && FindRun(used, p, end, n, k, run) ==
                 if next.count == n then next.start else FindRun(used, p + 1, end, n, k, next)
  {
  }

  lemma WordFits(p: nat, end: nat)
    requires p % 32 == 0 && end % 32 == 0 && p < end
    ensures p + 32 <= end
  {
  }

  lemma NotAtWord(p: nat, q: nat)
    requires p % 32 == 0 && p <= q < p + 32
    ensures q > p ==> q % 32 != 0
  {
  }
}
