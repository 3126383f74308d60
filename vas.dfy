/** Voice-activity segment post-processing (app/vas.py): the coarse speech
    intervals reported by the voice-activity detector are sorted by start,
    padded and clamped to the clip, and intervals separated by a short
    silence are merged.

    The method `MergeAndPadSegments` follows the source statement by
    statement; it is proved equal to the function `MergeAndPad`, and the
    lemmas below state what the source promises about that function. */
module Vas {

  /** One interval {start_ms, end_ms}, in milliseconds from the start of the clip. */
  datatype Seg = Seg(start: int, end: int)

  /** What a call produces: the merged list, or the IndexError that
      `padded[0]` raises when clamping dropped every interval of a
      non-empty input. */
  datatype Outcome = Ok(segments: seq<Seg>) | IndexError

  /** Default keyword arguments of merge_and_pad_segments (the handler passes the same values). */
  const DefaultMinSilenceMs: int := 300
  const DefaultPadMs: int := 120

  function Max(a: int, b: int): int { if a >= b then a else b }
  function Min(a: int, b: int): int { if a <= b then a else b }

  // ---------------------------------------------------------------------------
  // Properties of segment lists

  predicate SortedByStart(xs: seq<Seg>) {
    forall i, j :: 0 <= i < j < |xs| ==> xs[i].start <= xs[j].start
  }

  /** Every segment is non-empty and lies in [0, duration]. */
  predicate InBounds(xs: seq<Seg>, duration: int) {
    forall i :: 0 <= i < |xs| ==> 0 <= xs[i].start < xs[i].end <= duration
  }

  /** Between consecutive segments the silence is longer than the threshold. */
  predicate Separated(xs: seq<Seg>, minSilence: int) {
    forall i :: 0 < i < |xs| ==> xs[i].start - xs[i - 1].end > minSilence
  }

  /** Every segment ends strictly before every later one starts. */
  predicate Disjoint(xs: seq<Seg>) {
    forall i, j :: 0 <= i < j < |xs| ==> xs[i].end < xs[j].start
  }

  /** Interval p lies inside interval o. */
  predicate Within(p: Seg, o: Seg) {
    o.start <= p.start && p.end <= o.end
  }

  /** Interval p lies inside some segment of out. */
  predicate CoveredBy(p: Seg, out: seq<Seg>) {
    exists j :: 0 <= j < |out| && Within(p, out[j])
  }

  // ---------------------------------------------------------------------------
  // Sorting: Python's `sorted(..., key=start_ms)`, a stable sort

  /** The elements of xs whose start is k, in their order in xs. */
  function WithStart(xs: seq<Seg>, k: int): seq<Seg> {
    if xs == [] then []
    else (if xs[0].start == k then [xs[0]] else []) + WithStart(xs[1..], k)
  }

  /** Inserts x in front of the first element whose start is not below x's,
      so that x stays ahead of the elements with the same start. */
  function Insert(x: Seg, xs: seq<Seg>): (r: seq<Seg>)
    ensures |r| == |xs| + 1
    ensures r[0] == x || (xs != [] && r[0] == xs[0])
    ensures multiset(r) == multiset(xs) + multiset{x}
  {
    if xs == [] || x.start <= xs[0].start then [x] + xs
    else
      assert xs == [xs[0]] + xs[1..];
      [xs[0]] + Insert(x, xs[1..])
  }

  lemma {:induction false} InsertKeepsSorted(x: Seg, xs: seq<Seg>)
    requires SortedByStart(xs)
    ensures SortedByStart(Insert(x, xs))
  {
    if xs != [] && x.start > xs[0].start {
      var t := Insert(x, xs[1..]);
      assert SortedByStart(t) by {
        InsertKeepsSorted(x, xs[1..]);
      }
      assert forall k :: 0 <= k < |t| ==> xs[0].start <= t[k].start by {
        forall k | 0 <= k < |t|
          ensures xs[0].start <= t[k].start
        {
          assert t[k] in multiset(t);
          if t[k] != x {
            assert t[k] in multiset(xs[1..]);
          }
        }
      }
      ConsKeepsSorted(xs[0], t);
    }
  }

  lemma ConsKeepsSorted(h: Seg, t: seq<Seg>)
    requires SortedByStart(t)
    requires forall k :: 0 <= k < |t| ==> h.start <= t[k].start
    ensures SortedByStart([h] + t)
  {
    var r := [h] + t;
    forall i, j | 0 <= i < j < |r|
      ensures r[i].start <= r[j].start
    {
      assert r[j] == t[j - 1];
      if i > 0 {
        assert r[i] == t[i - 1];
      }
    }
  }

  /** Stable insertion sort on start. */
  function SortByStart(xs: seq<Seg>): (r: seq<Seg>)
    ensures SortedByStart(r)
    ensures multiset(r) == multiset(xs)
  {
    if xs == [] then []
    else
      assert xs == [xs[0]] + xs[1..];
      InsertKeepsSorted(xs[0], SortByStart(xs[1..]));
      Insert(xs[0], SortByStart(xs[1..]))
  }

  lemma {:induction false} InsertKeepsTieOrder(x: Seg, xs: seq<Seg>, k: int)
    ensures WithStart(Insert(x, xs), k) == (if x.start == k then [x] else []) + WithStart(xs, k)
  {
    if xs == [] || x.start <= xs[0].start {
      assert ([x] + xs)[1..] == xs;
    } else {
      InsertKeepsTieOrder(x, xs[1..], k);
      assert ([xs[0]] + Insert(x, xs[1..]))[1..] == Insert(x, xs[1..]);
    }
  }

  /** Stability: elements with equal starts keep their input order. */
  lemma {:induction false} SortByStartIsStable(xs: seq<Seg>, k: int)
    ensures WithStart(SortByStart(xs), k) == WithStart(xs, k)
  {
    if xs != [] {
      SortByStartIsStable(xs[1..], k);
      InsertKeepsTieOrder(xs[0], SortByStart(xs[1..]), k);
    }
  }

  /** Sorting an already sorted list changes nothing. */
  lemma {:induction false} SortOfSortedIsIdentity(xs: seq<Seg>)
    requires SortedByStart(xs)
    ensures SortByStart(xs) == xs
  {
    if xs != [] {
      SortOfSortedIsIdentity(xs[1..]);
      assert [xs[0]] + xs[1..] == xs;
    }
  }

  lemma {:induction false} WithStartAbsent(xs: seq<Seg>, k: int)
    requires forall i :: 0 <= i < |xs| ==> xs[i].start != k
    ensures WithStart(xs, k) == []
  {
    if xs != [] {
      WithStartAbsent(xs[1..], k);
    }
  }

  /** A list sorted by start is determined by the order it keeps among each
      group of equal starts; so SortByStart is the stable sort. */
  lemma {:induction false} StableSortIsUnique(a: seq<Seg>, b: seq<Seg>)
    requires SortedByStart(a) && SortedByStart(b)
    requires forall k :: WithStart(a, k) == WithStart(b, k)
    ensures a == b
  {
    if a != [] && b != [] {
      var k := a[0].start;
      if b[0].start < k {
        WithStartAbsent(a, b[0].start);
      } else if k < b[0].start {
        WithStartAbsent(b, k);
      }
      {
        assert a[0] == WithStart(a, k)[0] == WithStart(b, k)[0] == b[0];
        forall k
          ensures WithStart(a[1..], k) == WithStart(b[1..], k)
        {
          var h: seq<Seg> := if a[0].start == k then [a[0]] else [];
          assert WithStart(a, k) == h + WithStart(a[1..], k);
          assert WithStart(b, k) == h + WithStart(b[1..], k);
          assert WithStart(a[1..], k) == WithStart(a, k)[|h|..];
          assert WithStart(b[1..], k) == WithStart(b, k)[|h|..];
        }
        StableSortIsUnique(a[1..], b[1..]);
        assert a == [a[0]] + a[1..] && b == [b[0]] + b[1..];
      }
    } else {
      WithStartOfHead(a);
      WithStartOfHead(b);
    }
  }

  lemma WithStartOfHead(xs: seq<Seg>)
    ensures xs != [] ==> WithStart(xs, xs[0].start) != []
  {
  }

  // ---------------------------------------------------------------------------
  // Padding and clamping (vas.py:18-23)

  /** An interval widened by pad on both sides and clamped to [0, duration]. */
  function PadClamp(s: Seg, duration: int, pad: int): (p: Seg)
    ensures 0 <= p.start && p.end <= duration
    ensures 0 <= pad && 0 <= s.start && s.end <= duration ==> Within(s, p)
  {
    Seg(Max(0, s.start - pad), Min(duration, s.end + pad))
  }

  /** The padded, clamped interval is non-empty, so it is kept. */
  predicate Survives(s: Seg, duration: int, pad: int) {
    PadClamp(s, duration, pad).start < PadClamp(s, duration, pad).end
  }

  /** The list `padded` built by the loop at vas.py:19-23. */
  function Padded(xs: seq<Seg>, duration: int, pad: int): (r: seq<Seg>)
    ensures |r| <= |xs|
    ensures InBounds(r, duration)
  {
    if xs == [] then []
    else
      var p := PadClamp(xs[|xs| - 1], duration, pad);
      Padded(xs[..|xs| - 1], duration, pad) + (if p.start < p.end then [p] else [])
  }

  /** With no padding, segments already inside [0, duration] pass unchanged. */
  lemma {:induction false} ZeroPadKeepsInBounds(xs: seq<Seg>, duration: int)
    requires InBounds(xs, duration)
    ensures Padded(xs, duration, 0) == xs
  {
    if xs != [] {
      ZeroPadKeepsInBounds(xs[..|xs| - 1], duration);
      assert xs[..|xs| - 1] + [xs[|xs| - 1]] == xs;
    }
  }

  /** `padded` is empty exactly when no interval survives clamping. */
  lemma {:induction false} PaddedEmpty(xs: seq<Seg>, duration: int, pad: int)
    ensures Padded(xs, duration, pad) == [] <==> forall x :: x in xs ==> !Survives(x, duration, pad)
  {
    if xs != [] {
      var n := |xs|;
      var pre, last := xs[..n - 1], xs[n - 1];
      PaddedEmpty(pre, duration, pad);
      assert xs == pre + [last];
      assert Padded(xs, duration, pad) == Padded(pre, duration, pad)
        + (if Survives(last, duration, pad) then [PadClamp(last, duration, pad)] else []);
      assert forall x :: x in xs <==> x in pre || x == last;
    }
  }

  /** Each surviving interval appears, padded, in `padded`, and each element
      of `padded` is a surviving interval padded. */
  lemma {:induction false} PaddedMembers(xs: seq<Seg>, duration: int, pad: int)
    ensures forall x :: x in xs && Survives(x, duration, pad) ==> PadClamp(x, duration, pad) in Padded(xs, duration, pad)
    ensures forall p :: p in Padded(xs, duration, pad) ==>
              exists x :: x in xs && Survives(x, duration, pad) && p == PadClamp(x, duration, pad)
  {
    if xs != [] {
      var n := |xs|;
      PaddedMembers(xs[..n - 1], duration, pad);
      assert xs == xs[..n - 1] + [xs[n - 1]];
    }
  }

  lemma {:induction false} PaddedStartsBounded(xs: seq<Seg>, m: int, duration: int, pad: int)
    requires forall i :: 0 <= i < |xs| ==> xs[i].start <= m
    ensures forall q :: q in Padded(xs, duration, pad) ==> q.start <= Max(0, m - pad)
  {
    if xs != [] {
      PaddedStartsBounded(xs[..|xs| - 1], m, duration, pad);
    }
  }

  /** Padding moves every start by the same amount (then clamps at 0), so it keeps the order. */
  lemma {:induction false} PaddedSorted(xs: seq<Seg>, duration: int, pad: int)
    requires SortedByStart(xs)
    ensures SortedByStart(Padded(xs, duration, pad))
  {
    if xs != [] {
      var n := |xs|;
      PaddedSorted(xs[..n - 1], duration, pad);
      PaddedStartsBounded(xs[..n - 1], xs[n - 1].start, duration, pad);
      var r := Padded(xs[..n - 1], duration, pad);
      forall i | 0 <= i < |r| ensures r[i].start <= PadClamp(xs[n - 1], duration, pad).start {
        assert r[i] in r;
      }
    }
  }

  // ---------------------------------------------------------------------------
  // Merging (vas.py:26-33)

  /** One iteration of the merge loop: absorb cur into the last segment when
      the gap is at most minSilence (the end only grows), else append it.
      On an empty accumulator this is `merged = [padded[0]]`. */
  function Step(acc: seq<Seg>, cur: Seg, minSilence: int): (r: seq<Seg>)
    ensures |r| == |acc| || |r| == |acc| + 1
    ensures r != []
  {
    if acc != [] && cur.start - acc[|acc| - 1].end <= minSilence then
      acc[|acc| - 1 := Seg(acc[|acc| - 1].start, Max(acc[|acc| - 1].end, cur.end))]
    else
      acc + [cur]
  }

  /** The list `merged` after the loop has walked all of xs. */
  function Merged(xs: seq<Seg>, minSilence: int): (r: seq<Seg>)
    ensures |r| <= |xs|
    ensures xs != [] ==> r != []
  {
    if xs == [] then [] else Step(Merged(xs[..|xs| - 1], minSilence), xs[|xs| - 1], minSilence)
  }

  lemma {:induction false} MergedInBounds(xs: seq<Seg>, duration: int, minSilence: int)
    requires InBounds(xs, duration)
    ensures InBounds(Merged(xs, minSilence), duration)
  {
    if xs != [] {
      MergedInBounds(xs[..|xs| - 1], duration, minSilence);
    }
  }

  /** Consecutive merged segments are separated by more than minSilence,
      whatever the input order. */
  lemma {:induction false} MergedSeparated(xs: seq<Seg>, minSilence: int)
    ensures Separated(Merged(xs, minSilence), minSilence)
  {
    if xs != [] {
      MergedSeparated(xs[..|xs| - 1], minSilence);
    }
  }

  /** Every merged start is the start of an input segment and every merged
      end is the end of an input segment. */
  lemma {:induction false} MergedEndpoints(xs: seq<Seg>, minSilence: int)
    ensures forall j :: 0 <= j < |Merged(xs, minSilence)| ==>
              exists i :: 0 <= i < |xs| && Merged(xs, minSilence)[j].start == xs[i].start
    ensures forall j :: 0 <= j < |Merged(xs, minSilence)| ==>
              exists i :: 0 <= i < |xs| && Merged(xs, minSilence)[j].end == xs[i].end
  {
    if xs != [] {
      var n := |xs|;
      var pre := xs[..n - 1];
      MergedEndpoints(pre, minSilence);
      var r := Merged(pre, minSilence);
      var r' := Merged(xs, minSilence);
      forall j | 0 <= j < |r'|
        ensures exists i :: 0 <= i < n && r'[j].start == xs[i].start
        ensures exists i :: 0 <= i < n && r'[j].end == xs[i].end
      {
        if j < |r| {
          var i0 :| 0 <= i0 < |pre| && r[j].start == pre[i0].start;
          var i1 :| 0 <= i1 < |pre| && r[j].end == pre[i1].end;
          assert xs[i0] == pre[i0] && xs[i1] == pre[i1];
          if r'[j].start != r[j].start || r'[j].end != r[j].end {
            assert r'[j].start == r[j].start && r'[j].end == xs[n - 1].end;
          }
        } else {
          assert r'[j] == xs[n - 1];
        }
      }
    } else {
      assert Merged(xs, minSilence) == [];
    }
  }

  lemma {:induction false} MergedStartsBounded(xs: seq<Seg>, m: int, minSilence: int)
    requires forall i :: 0 <= i < |xs| ==> xs[i].start <= m
    ensures forall j :: 0 <= j < |Merged(xs, minSilence)| ==> Merged(xs, minSilence)[j].start <= m
  {
    MergedEndpoints(xs, minSilence);
  }

  /** On sorted input the merged list is sorted by start. */
  lemma {:induction false} MergedSorted(xs: seq<Seg>, minSilence: int)
    requires SortedByStart(xs)
    ensures SortedByStart(Merged(xs, minSilence))
  {
    if xs != [] {
      var n := |xs|;
      MergedSorted(xs[..n - 1], minSilence);
      MergedStartsBounded(xs[..n - 1], xs[n - 1].start, minSilence);
    }
  }

  /** On sorted input every input segment lies inside some merged segment:
      a merge never shrinks the segment it extends. */
  lemma {:induction false} MergedCovers(xs: seq<Seg>, minSilence: int)
    requires SortedByStart(xs)
    ensures forall i :: 0 <= i < |xs| ==> CoveredBy(xs[i], Merged(xs, minSilence))
  {
    if xs != [] {
      var n := |xs|;
      var pre, cur := xs[..n - 1], xs[n - 1];
      MergedCovers(pre, minSilence);
      MergedStartsBounded(pre, cur.start, minSilence);
      var r := Merged(pre, minSilence);
      var r' := Merged(xs, minSilence);
      var merges := r != [] && cur.start - r[|r| - 1].end <= minSilence;
      forall i | 0 <= i < n
        ensures CoveredBy(xs[i], r')
      {
        if i == n - 1 {
          if merges {
            assert Within(xs[i], r'[|r| - 1]);
          } else {
            assert Within(xs[i], r'[|r|]);
          }
        } else {
          assert xs[i] == pre[i] && CoveredBy(pre[i], r);
          var j :| 0 <= j < |r| && Within(pre[i], r[j]);
          assert Within(xs[i], r'[j]);
        }
      }
    }
  }

  /** Interval x has no speech inside the silence (a, b). */
  predicate Avoids(x: Seg, a: int, b: int) {
    x.end <= a || b <= x.start
  }

  /** The converse of MergedCovers: a silence longer than the threshold that
      no input interval enters is not entered by any merged segment either,
      so the merge never bridges it. */
  lemma {:induction false} MergedKeepsLongSilences(xs: seq<Seg>, minSilence: int, a: int, b: int)
    requires b - a > minSilence
    requires forall i :: 0 <= i < |xs| ==> Avoids(xs[i], a, b)
    ensures forall j :: 0 <= j < |Merged(xs, minSilence)| ==> Avoids(Merged(xs, minSilence)[j], a, b)
  {
    if xs != [] {
      var n := |xs|;
      var pre := xs[..n - 1];
      assert forall i :: 0 <= i < n - 1 ==> pre[i] == xs[i];
      MergedKeepsLongSilences(pre, minSilence, a, b);
      assert Avoids(xs[n - 1], a, b);
    }
  }

  /** With a non-negative threshold, separated non-empty segments are
      pairwise disjoint and strictly increasing. */
  lemma {:induction false} SeparatedIsDisjoint(xs: seq<Seg>, duration: int, minSilence: int)
    requires minSilence >= 0
    requires InBounds(xs, duration)
    requires Separated(xs, minSilence)
    ensures Disjoint(xs)
  {
    if |xs| > 1 {
      var n := |xs|;
      var pre := xs[..n - 1];
      assert InBounds(pre, duration) && Separated(pre, minSilence) by {
        assert forall i :: 0 <= i < n - 1 ==> pre[i] == xs[i];
      }
      SeparatedIsDisjoint(pre, duration, minSilence);
      forall i, j | 0 <= i < j < n
        ensures xs[i].end < xs[j].start
      {
        if j < n - 1 {
          assert pre[i] == xs[i] && pre[j] == xs[j];
        } else if i < n - 2 {
          assert pre[i].end < pre[n - 2].start;
          assert xs[n - 2].start < xs[n - 2].end;
        }
      }
    }
  }

  // ---------------------------------------------------------------------------
  // The whole function

  /** merge_and_pad_segments(vad, duration, minSilence, pad) (vas.py:4-35). */
  function MergeAndPad(vad: seq<Seg>, duration: int, minSilence: int, pad: int): (r: Outcome)
    ensures r.Ok? ==> |r.segments| <= |vad|
    ensures r == Ok([]) <==> vad == []
  {
    if vad == [] then Ok([])
    else
      var sorted := SortByStart(vad);
      assert |sorted| == |multiset(sorted)| == |vad|;
      var padded := Padded(sorted, duration, pad);
      if padded == [] then IndexError else Ok(Merged(padded, minSilence))
  }

  /** The method follows the source line by line: sort, the loop that pads,
      then the loop that merges. */
  method MergeAndPadSegments(vadSegments: seq<Seg>, audioDurationMs: int, minSilenceMs: int, padMs: int)
    returns (r: Outcome)
    ensures r == MergeAndPad(vadSegments, audioDurationMs, minSilenceMs, padMs)
    ensures r.Ok? ==> InBounds(r.segments, audioDurationMs) && Separated(r.segments, minSilenceMs)
  {
    if |vadSegments| == 0 {
      return Ok([]);
    }
    var segs := SortByStart(vadSegments);
    var padded := PadAll(segs, audioDurationMs, padMs);
    if |padded| == 0 {
      // `merged = [padded[0]]` raises IndexError
      return IndexError;
    }
    var merged := MergeAll(padded, minSilenceMs);
    r := Ok(merged);
    MergedInBounds(padded, audioDurationMs, minSilenceMs);
    MergedSeparated(padded, minSilenceMs);
  }

  /** The padding loop: pad and clamp each interval, keep it if non-empty. */
  method PadAll(segs: seq<Seg>, audioDurationMs: int, padMs: int) returns (padded: seq<Seg>)
    ensures padded == Padded(segs, audioDurationMs, padMs)
  {
    padded := [];
    for i := 0 to |segs|
      invariant padded == Padded(segs[..i], audioDurationMs, padMs)
    {
      var start := Max(0, segs[i].start - padMs);
      var end := Min(audioDurationMs, segs[i].end + padMs);
      if end > start {
        padded := padded + [Seg(start, end)];
      }
      assert segs[..i + 1][..i] == segs[..i];
    }
    assert segs[..|segs|] == segs;
  }

  /** The merging loop. It rewrites the last element of `merged` in place,
      which the source does through the alias `prev`. */
  method MergeAll(padded: seq<Seg>, minSilenceMs: int) returns (merged: seq<Seg>)
    requires padded != []
    ensures merged == Merged(padded, minSilenceMs)
  {
    merged := [padded[0]];
    assert padded[..1][..0] == [];
    for i := 1 to |padded|
      invariant merged == Merged(padded[..i], minSilenceMs)
      invariant merged != []
    {
      var cur := padded[i];
      var prev := merged[|merged| - 1];
      var gap := cur.start - prev.end;
      if gap <= minSilenceMs {
        merged := merged[|merged| - 1 := Seg(prev.start, Max(prev.end, cur.end))];
      } else {
        merged := merged + [cur];
      }
      assert padded[..i + 1][..i] == padded[..i];
    }
    assert padded[..|padded|] == padded;
  }

  // ---------------------------------------------------------------------------
  // What the source promises about the whole function

  /** Empty input gives the empty list; the IndexError happens exactly when a
      non-empty input has no interval that survives clamping. */
  lemma MergeAndPadOutcome(vad: seq<Seg>, duration: int, minSilence: int, pad: int)
    ensures MergeAndPad(vad, duration, minSilence, pad) == Ok([]) <==> vad == []
    ensures MergeAndPad(vad, duration, minSilence, pad) == IndexError <==>
              vad != [] && forall x :: x in vad ==> !Survives(x, duration, pad)
  {
    var sorted := SortByStart(vad);
    PaddedEmpty(sorted, duration, pad);
    SortByStartSameMembers(vad);
  }

  /** Every output segment is non-empty and inside [0, duration], the list is
      sorted by start, consecutive segments are more than minSilence apart,
      the output is no longer than the input, and with a non-negative
      threshold the segments are strictly increasing and disjoint. */
  lemma MergeAndPadWellFormed(vad: seq<Seg>, duration: int, minSilence: int, pad: int, out: seq<Seg>)
    requires MergeAndPad(vad, duration, minSilence, pad) == Ok(out)
    ensures InBounds(out, duration)
    ensures SortedByStart(out)
    ensures Separated(out, minSilence)
    ensures |out| <= |vad|
    ensures minSilence >= 0 ==> Disjoint(out)
  {
    if vad != [] {
      var sorted := SortByStart(vad);
      assert |sorted| == |multiset(sorted)| == |multiset(vad)| == |vad|;
      var padded := Padded(sorted, duration, pad);
      MergedInBounds(padded, duration, minSilence);
      PaddedSorted(sorted, duration, pad);
      MergedSorted(padded, minSilence);
      MergedSeparated(padded, minSilence);
      if minSilence >= 0 {
        SeparatedIsDisjoint(out, duration, minSilence);
      }
    }
  }

  /** Sorting neither adds nor loses an interval. */
  lemma SortByStartSameMembers(xs: seq<Seg>)
    ensures forall x :: x in SortByStart(xs) <==> x in xs
  {
    var sorted := SortByStart(xs);
    forall x ensures x in sorted <==> x in xs {
      assert x in xs <==> x in multiset(xs);
      assert x in sorted <==> x in multiset(sorted);
    }
  }

  /** Every surviving interval, padded, lies inside some output segment. */
  lemma MergeAndPadCovers(vad: seq<Seg>, duration: int, minSilence: int, pad: int, out: seq<Seg>)
    requires MergeAndPad(vad, duration, minSilence, pad) == Ok(out)
    ensures forall x :: x in vad && Survives(x, duration, pad) ==> CoveredBy(PadClamp(x, duration, pad), out)
  {
    if vad != [] {
      var sorted := SortByStart(vad);
      var padded := Padded(sorted, duration, pad);
      SortByStartSameMembers(vad);
      PaddedMembers(sorted, duration, pad);
      PaddedSorted(sorted, duration, pad);
      MergedCovers(padded, minSilence);
      forall x | x in vad && Survives(x, duration, pad)
        ensures CoveredBy(PadClamp(x, duration, pad), out)
      {
        var i :| 0 <= i < |padded| && padded[i] == PadClamp(x, duration, pad);
      }
    }
  }

  /** A silence longer than the threshold that no surviving padded interval
      enters stays a silence in the output. */
  lemma MergeAndPadKeepsLongSilences(vad: seq<Seg>, duration: int, minSilence: int, pad: int, out: seq<Seg>, a: int, b: int)
    requires MergeAndPad(vad, duration, minSilence, pad) == Ok(out)
    requires b - a > minSilence
    requires forall x :: x in vad && Survives(x, duration, pad) ==> Avoids(PadClamp(x, duration, pad), a, b)
    ensures forall j :: 0 <= j < |out| ==> Avoids(out[j], a, b)
  {
    if vad != [] {
      var sorted := SortByStart(vad);
      var padded := Padded(sorted, duration, pad);
      SortByStartSameMembers(vad);
      PaddedMembers(sorted, duration, pad);
      forall i | 0 <= i < |padded|
        ensures Avoids(padded[i], a, b)
      {
        assert padded[i] in padded;
      }
      MergedKeepsLongSilences(padded, minSilence, a, b);
    }
  }

  /** Some surviving interval of vad, padded, starts at t. */
  predicate IsPaddedStart(t: int, vad: seq<Seg>, duration: int, pad: int) {
    exists x :: x in vad && Survives(x, duration, pad) && PadClamp(x, duration, pad).start == t
  }

  /** Some surviving interval of vad, padded, ends at t. */
  predicate IsPaddedEnd(t: int, vad: seq<Seg>, duration: int, pad: int) {
    exists x :: x in vad && Survives(x, duration, pad) && PadClamp(x, duration, pad).end == t
  }

  /** Each output segment starts where some surviving padded interval starts
      and ends where some surviving padded interval ends. */
  lemma MergeAndPadEndpoints(vad: seq<Seg>, duration: int, minSilence: int, pad: int, out: seq<Seg>)
    requires MergeAndPad(vad, duration, minSilence, pad) == Ok(out)
    ensures forall j :: 0 <= j < |out| ==> IsPaddedStart(out[j].start, vad, duration, pad)
    ensures forall j :: 0 <= j < |out| ==> IsPaddedEnd(out[j].end, vad, duration, pad)
  {
    if vad != [] {
      var sorted := SortByStart(vad);
      var padded := Padded(sorted, duration, pad);
      SortByStartSameMembers(vad);
      PaddedMembers(sorted, duration, pad);
      MergedEndpoints(padded, minSilence);
      forall j | 0 <= j < |out|
        ensures IsPaddedStart(out[j].start, vad, duration, pad)
        ensures IsPaddedEnd(out[j].end, vad, duration, pad)
      {
        var i0 :| 0 <= i0 < |padded| && out[j].start == padded[i0].start;
        assert padded[i0] in padded;
        var i1 :| 0 <= i1 < |padded| && out[j].end == padded[i1].end;
        assert padded[i1] in padded;
      }
    }
  }

  // ---------------------------------------------------------------------------
  // Order independence

  /** Pad one raw interval and feed it to the merge loop, if it survives. */
  function Absorb(acc: seq<Seg>, x: Seg, duration: int, minSilence: int, pad: int): seq<Seg> {
    if Survives(x, duration, pad) then Step(acc, PadClamp(x, duration, pad), minSilence) else acc
  }

  /** Pad, clamp, drop and merge, without the empty-input checks around them. */
  function PadMerge(xs: seq<Seg>, duration: int, minSilence: int, pad: int): seq<Seg> {
    Merged(Padded(xs, duration, pad), minSilence)
  }

  lemma PadThenMergeSnoc(xs: seq<Seg>, x: Seg, duration: int, minSilence: int, pad: int)
    ensures PadMerge(xs + [x], duration, minSilence, pad)
         == Absorb(PadMerge(xs, duration, minSilence, pad), x, duration, minSilence, pad)
  {
    assert (xs + [x])[..|xs|] == xs;
    var p := Padded(xs, duration, pad);
    var q := PadClamp(x, duration, pad);
    assert Padded(xs + [x], duration, pad) == p + (if q.start < q.end then [q] else []);
    if q.start < q.end {
      assert (p + [q])[..|p|] == p;
      assert Merged(p + [q], minSilence) == Step(Merged(p, minSilence), q, minSilence);
      assert Survives(x, duration, pad);
      assert Absorb(Merged(p, minSilence), x, duration, minSilence, pad) == Step(Merged(p, minSilence), q, minSilence);
    } else {
      assert p + [] == p;
    }
  }

  /** Two intervals with the same start give the same result in either order:
      the second always overlaps the segment the first ended in. */
  lemma AbsorbTiesCommute(acc: seq<Seg>, a: Seg, b: Seg, duration: int, minSilence: int, pad: int)
    requires a.start == b.start
    requires minSilence >= 0
    ensures Absorb(Absorb(acc, a, duration, minSilence, pad), b, duration, minSilence, pad)
         == Absorb(Absorb(acc, b, duration, minSilence, pad), a, duration, minSilence, pad)
  {
    if Survives(a, duration, pad) && Survives(b, duration, pad) {
      var pa, pb := PadClamp(a, duration, pad), PadClamp(b, duration, pad);
      var ra, rb := Step(acc, pa, minSilence), Step(acc, pb, minSilence);
      assert ra[|ra| - 1].end >= pa.end;
      assert rb[|rb| - 1].end >= pb.end;
    }
  }

  /** A tie at position j can be moved to the end of a run of equal starts. */
  lemma {:induction false} MoveTieToEnd(xs: seq<Seg>, j: nat, duration: int, minSilence: int, pad: int)
    requires j < |xs|
    requires minSilence >= 0
    requires forall k :: j <= k < |xs| ==> xs[k].start == xs[j].start
    ensures PadMerge(xs, duration, minSilence, pad)
         == PadMerge(xs[..j] + xs[j + 1..] + [xs[j]], duration, minSilence, pad)
    decreases |xs|
  {
    var n := |xs|;
    if j == n - 1 {
      assert xs[..j] + xs[j + 1..] + [xs[j]] == xs;
    } else {
      var pre, q, b := xs[..n - 1], xs[n - 1], xs[j];
      var w := pre[..j] + pre[j + 1..];
      var g := PadMerge(w, duration, minSilence, pad);
      assert PadMerge(xs, duration, minSilence, pad) == Absorb(PadMerge(pre, duration, minSilence, pad), q, duration, minSilence, pad) by {
        assert pre + [q] == xs;
        PadThenMergeSnoc(pre, q, duration, minSilence, pad);
      }
      assert PadMerge(pre, duration, minSilence, pad) == Absorb(g, b, duration, minSilence, pad) by {
        MoveTieToEnd(pre, j, duration, minSilence, pad);
        assert pre[..j] + pre[j + 1..] + [pre[j]] == w + [b];
        PadThenMergeSnoc(w, b, duration, minSilence, pad);
      }
      AbsorbTiesCommute(g, b, q, duration, minSilence, pad);
      assert Absorb(Absorb(g, q, duration, minSilence, pad), b, duration, minSilence, pad)
          == PadMerge(xs[..j] + xs[j + 1..] + [b], duration, minSilence, pad) by {
        assert w + [q] == xs[..j] + xs[j + 1..];
        PadThenMergeSnoc(w, q, duration, minSilence, pad);
        PadThenMergeSnoc(w + [q], b, duration, minSilence, pad);
      }
    }
  }

  /** Two sorted arrangements of the same intervals pad and merge alike. */
  lemma {:induction false} SortedPermutationsMergeAlike(xs: seq<Seg>, ys: seq<Seg>, duration: int, minSilence: int, pad: int)
    requires SortedByStart(xs) && SortedByStart(ys)
    requires multiset(xs) == multiset(ys)
    requires minSilence >= 0
    ensures PadMerge(xs, duration, minSilence, pad) == PadMerge(ys, duration, minSilence, pad)
    decreases |xs|
  {
    assert |xs| == |multiset(xs)| == |multiset(ys)| == |ys|;
    if xs != [] {
      var n := |xs|;
      var a, b := xs[n - 1], ys[n - 1];
      var ys' := RemoveAt(ys, n - 1);
      PadThenMergeSnoc(ys', b, duration, minSilence, pad);
      var j := TieIndex(xs, ys);
      var zs := RemoveAt(xs, j);
      assert PadMerge(zs, duration, minSilence, pad) == PadMerge(ys', duration, minSilence, pad) by {
        RemoveAtKeepsSorted(xs, j);
        RemoveAtKeepsSorted(ys, n - 1);
        SortedPermutationsMergeAlike(zs, ys', duration, minSilence, pad);
      }
      if j < n - 1 {
        MoveTieToEnd(xs, j, duration, minSilence, pad);
      }
      PadThenMergeSnoc(zs, b, duration, minSilence, pad);
    }
  }

  /** xs without its element at index j. */
  function RemoveAt(xs: seq<Seg>, j: nat): (r: seq<Seg>)
    requires j < |xs|
    ensures |r| == |xs| - 1
    ensures multiset(r) == multiset(xs) - multiset{xs[j]}
    ensures r + [xs[j]] == (if j == |xs| - 1 then xs else xs[..j] + xs[j + 1..] + [xs[j]])
  {
    assert xs == xs[..j] + [xs[j]] + xs[j + 1..];
    xs[..j] + xs[j + 1..]
  }

  /** Sortedness survives the removal. */
  lemma RemoveAtKeepsSorted(xs: seq<Seg>, j: nat)
    requires j < |xs| && SortedByStart(xs)
    ensures SortedByStart(RemoveAt(xs, j))
  {
    var r := RemoveAt(xs, j);
    forall p, q | 0 <= p < q < |r|
      ensures r[p].start <= r[q].start
    {
      var p', q' := if p < j then p else p + 1, if q < j then q else q + 1;
      assert r[p] == xs[p'] && r[q] == xs[q'];
    }
  }

  /** In a sorted arrangement, the interval that ends another sorted
      arrangement of the same intervals sits in the final run of equal starts. */
  lemma TieIndex(xs: seq<Seg>, ys: seq<Seg>) returns (j: nat)
    requires SortedByStart(xs) && SortedByStart(ys)
    requires multiset(xs) == multiset(ys)
    requires |xs| == |ys| > 0
    ensures j < |xs| && xs[j] == ys[|ys| - 1]
    ensures forall k :: j <= k < |xs| ==> xs[k].start == xs[j].start
  {
    var n := |xs|;
    var a, b := xs[n - 1], ys[n - 1];
    assert b in multiset(xs);
    j :| 0 <= j < n && xs[j] == b;
    assert a in multiset(ys);
    var i :| 0 <= i < n && ys[i] == a;
  }

  /** With a non-negative threshold the result does not depend on the order
      of the input: the input is sorted first and tied starts always merge. */
  lemma MergeAndPadOrderIndependent(v: seq<Seg>, w: seq<Seg>, duration: int, minSilence: int, pad: int)
    requires multiset(v) == multiset(w)
    requires minSilence >= 0
    ensures MergeAndPad(v, duration, minSilence, pad) == MergeAndPad(w, duration, minSilence, pad)
  {
    assert |v| == |multiset(v)| == |multiset(w)| == |w|;
    var sv, sw := SortByStart(v), SortByStart(w);
    SortedPermutationsMergeAlike(sv, sw, duration, minSilence, pad);
    assert Padded(sv, duration, pad) == [] <==> Padded(sw, duration, pad) == [] by {
      PaddedEmpty(sv, duration, pad);
      PaddedEmpty(sw, duration, pad);
      SortByStartSameMembers(v);
      SortByStartSameMembers(w);
      assert forall x :: x in v <==> x in multiset(v);
      assert forall x :: x in w <==> x in multiset(w);
    }
  }

  // ---------------------------------------------------------------------------
  // The cases of tests/test_vas.py and the boundary cases of the merge rule

  /** Three sorted, in-bounds intervals with no padding: a gap within the
      threshold merges, a gap beyond it does not (tests/test_vas.py:4-12 is
      the case a = {1000,1500}, b = {1600,2100}, c = {4000,4500}, threshold
      200 on a 5000 ms clip). */
  lemma MergesCloseGaps(a: Seg, b: Seg, c: Seg, duration: int, minSilence: int)
    requires InBounds([a, b, c], duration)
    requires a.start <= b.start <= c.start
    requires b.start - a.end <= minSilence < c.start - Max(a.end, b.end)
    ensures MergeAndPad([a, b, c], duration, minSilence, 0) == Ok([Seg(a.start, Max(a.end, b.end)), c])
  {
    MergedCloseThenFar(a, b, c, minSilence);
    UnpaddedSortedInput([a, b, c], duration, minSilence);
  }

  /** The merge loop alone on the three segments above. */
  lemma MergedCloseThenFar(a: Seg, b: Seg, c: Seg, minSilence: int)
    requires b.start - a.end <= minSilence < c.start - Max(a.end, b.end)
    ensures Merged([a, b, c], minSilence) == [Seg(a.start, Max(a.end, b.end)), c]
  {
    assert Merged([a], minSilence) == [a] by {
      assert [a][..0] == [];
    }
    assert Merged([a, b], minSilence) == [Seg(a.start, Max(a.end, b.end))] by {
      assert [a, b][..1] == [a];
    }
    assert [a, b, c][..2] == [a, b];
  }

  /** Padding is clamped to [0, duration]. */
  lemma PaddingClampsToBounds()
    ensures MergeAndPad([Seg(50, 100)], 120, 0, 200) == Ok([Seg(0, 120)])
  {
  }

  /** With no padding, two in-range segments whose gap is over the
      threshold both come out unchanged. */
  lemma DistantSegmentsStayApart(a: Seg, b: Seg, duration: int, minSilence: int)
    requires InBounds([a, b], duration)
    requires a.start <= b.start
    requires b.start - a.end > minSilence
    ensures MergeAndPad([a, b], duration, minSilence, 0) == Ok([a, b])
  {
    assert Merged([a, b], minSilence) == [a, b] by {
      assert [a, b][..1] == [a] && [a][..0] == [];
    }
    UnpaddedSortedInput([a, b], duration, minSilence);
  }

  /** With no padding, sorted in-range input is only merged. */
  lemma UnpaddedSortedInput(vad: seq<Seg>, duration: int, minSilence: int)
    requires vad != [] && SortedByStart(vad) && InBounds(vad, duration)
    ensures MergeAndPad(vad, duration, minSilence, 0) == Ok(Merged(vad, minSilence))
  {
    SortOfSortedIsIdentity(vad);
    ZeroPadKeepsInBounds(vad, duration);
  }

  /** A gap equal to the threshold merges (the comparison is `<=`), and a
      contained interval does not shrink the segment. */
  lemma ExactThresholdMerges(a: Seg, b: Seg, minSilence: int)
    requires b.start - a.end == minSilence
    ensures Merged([a, b], minSilence) == [Seg(a.start, Max(a.end, b.end))]
  {
    assert [a, b][..1] == [a];
  }

  /** An interval starting at or after `duration + pad` is dropped however
      long it is, since its padded start is not below the clip end. When
      every interval is like that, `padded[0]` raises IndexError. */
  lemma LateIntervalsRaiseIndexError(vad: seq<Seg>, duration: int, minSilence: int, pad: int)
    requires vad != []
    requires forall i :: 0 <= i < |vad| ==> vad[i].start >= duration + pad
    ensures MergeAndPad(vad, duration, minSilence, pad) == IndexError
  {
    MergeAndPadOutcome(vad, duration, minSilence, pad);
    forall x | x in vad
      ensures !Survives(x, duration, pad)
    {
      var i :| 0 <= i < |vad| && vad[i] == x;
    }
  }

  /** Starting after the clip end is not enough to be dropped: the padding
      can reach back into the clip. */
  lemma PaddingReachesBackIntoClip()
    ensures MergeAndPad([Seg(1050, 1100)], 1000, DefaultMinSilenceMs, DefaultPadMs) == Ok([Seg(930, 1000)])
  {
  }

  /** With the default arguments, `[500, 600]` in a 100 ms clip is dropped
      and the call fails with IndexError. */
  lemma AllDroppedRaisesIndexError()
    ensures MergeAndPad([Seg(500, 600)], 100, DefaultMinSilenceMs, DefaultPadMs) == IndexError
  {
  }
}
