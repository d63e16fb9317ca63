/** Retention (retention.rs): which snapshots of a timeline stay, as ranges and pins, and how they are listed. */
module Retention {
  import opened Bytes

  const HOUR: int := 60 * 60
  const DAY: int := 24 * HOUR
  const WEEK: int := 7 * DAY
  const ALL_SNAPSHOTS_WINDOW: int := DAY
  const HOURLY_WINDOW: int := 7 * DAY
  const DAILY_WINDOW: int := 90 * DAY
  const MIN_TIME: int := -0x8000_0000_0000_0000
  const MAX_TIME: int := 0x7FFF_FFFF_FFFF_FFFF

  datatype SequenceRange = SequenceRange(first: nat, last: nat)

  datatype Pin = Pin(sequence: nat, snapshot: Digest)

  datatype RetentionState =
    RetentionState(evaluatedThrough: nat, evaluatedAt: int, retained: seq<SequenceRange>, pins: seq<Pin>)

  predicate InRange(range: SequenceRange, sequence: nat) {
    range.first <= sequence <= range.last
  }

  predicate InRanges(ranges: seq<SequenceRange>, sequence: nat) {
    exists i :: 0 <= i < |ranges| && InRange(ranges[i], sequence)
  }

  predicate PinnedAt(pins: seq<Pin>, sequence: nat) {
    exists i :: 0 <= i < |pins| && pins[i].sequence == sequence
  }

  predicate IsPinned(pins: seq<Pin>, snapshot: Digest) {
    exists i :: 0 <= i < |pins| && pins[i].snapshot == snapshot
  }

  predicate Retains(state: RetentionState, sequence: nat, snapshot: Digest) {
    || state.evaluatedThrough < sequence || InRanges(state.retained, sequence)
    || PinnedAt(state.pins, sequence) || IsPinned(state.pins, snapshot)
  }

  /** What `validate_state` accepts. */
  predicate RangesValid(ranges: seq<SequenceRange>, through: nat) {
    && (forall i | 0 <= i < |ranges| :: 0 < ranges[i].first <= ranges[i].last <= through)
    && (forall i | 0 < i < |ranges| :: ranges[i - 1].last < ranges[i].first)
  }

  predicate PinsValid(pins: seq<Pin>) {
    && (forall i | 0 <= i < |pins| :: 0 < pins[i].sequence)
    && (forall i | 0 < i < |pins| :: pins[i - 1].sequence < pins[i].sequence)
  }

  predicate ValidState(state: RetentionState) {
    RangesValid(state.retained, state.evaluatedThrough) && PinsValid(state.pins)
  }

  /** The sequences up to `head` that the state keeps by newness, by range or by pin. */
  function Kept(state: RetentionState, head: nat): set<nat> {
    set s | 1 <= s <= head && (state.evaluatedThrough < s || InRanges(state.retained, s) || PinnedAt(state.pins, s))
  }

  // ---------- Counting ----------

  function Span(first: nat, last: nat): (span: set<nat>)
    ensures forall s: nat :: s in span <==> first <= s <= last
    decreases last + 1 - first
  {
    if last < first then {} else {first} + Span(first + 1, last)
  }

  lemma {:induction false} SpanSize(first: nat, last: nat)
    requires first <= last + 1
    ensures |Span(first, last)| == last + 1 - first
    decreases last + 1 - first
  {
    if first <= last {
      SpanSize(first + 1, last);
    }
  }

  function RangeSet(ranges: seq<SequenceRange>): set<nat> {
    if ranges == [] then {}
    else RangeSet(ranges[..|ranges| - 1]) + Span(ranges[|ranges| - 1].first, ranges[|ranges| - 1].last)
  }

  lemma {:induction false} RangeSetIs(ranges: seq<SequenceRange>, s: nat)
    ensures s in RangeSet(ranges) <==> InRanges(ranges, s)
  {
    if ranges != [] {
      var n := |ranges| - 1;
      RangeSetIs(ranges[..n], s);
      RangesMore(ranges, n);
      assert ranges[..n + 1] == ranges;
    }
  }

  function CountThrough(ranges: seq<SequenceRange>): int {
    if ranges == [] then 0
    else CountThrough(ranges[..|ranges| - 1]) + ranges[|ranges| - 1].last - ranges[|ranges| - 1].first + 1
  }

  lemma {:induction false} RangesAscend(ranges: seq<SequenceRange>, through: nat, i: nat, j: nat)
    requires RangesValid(ranges, through) && i < j < |ranges|
    ensures ranges[i].last < ranges[j].first
    decreases j - i
  {
    if i + 1 < j {
      RangesAscend(ranges, through, i, j - 1);
    }
  }

  lemma {:induction false} CountIsSize(ranges: seq<SequenceRange>, through: nat)
    requires RangesValid(ranges, through)
    ensures CountThrough(ranges) == |RangeSet(ranges)|
  {
    if ranges != [] {
      var n := |ranges| - 1;
      var front, last := ranges[..n], ranges[n];
      CountIsSize(front, through);
      SpanSize(last.first, last.last);
      forall s | s in RangeSet(front) ensures s !in Span(last.first, last.last) {
        RangeSetIs(front, s);
        var i :| 0 <= i < |front| && InRange(front[i], s);
        RangesAscend(ranges, through, i, n);
      }
    }
  }

  lemma {:induction false} PinsAscend(pins: seq<Pin>, i: nat, j: nat)
    requires PinsValid(pins) && i < j < |pins|
    ensures pins[i].sequence < pins[j].sequence
    decreases j - i
  {
    if i + 1 < j {
      PinsAscend(pins, i, j - 1);
    }
  }

  /** What the counting loop has counted after the first `n` pins. */
  function Counted(state: RetentionState, head: nat, n: nat): set<nat>
    requires n <= |state.pins|
  {
    RangeSet(state.retained) + Span(state.evaluatedThrough + 1, head) + PinsBelow(state, n)
  }

  function PinsBelow(state: RetentionState, n: nat): set<nat>
    requires n <= |state.pins|
  {
    if n == 0 then {}
    else PinsBelow(state, n - 1)
         + (if state.pins[n - 1].sequence <= state.evaluatedThrough then {state.pins[n - 1].sequence} else {})
  }

  lemma {:induction false} PinsBelowIs(state: RetentionState, n: nat, s: nat)
    requires n <= |state.pins|
    ensures s in PinsBelow(state, n) <==>
      s <= state.evaluatedThrough && exists i :: 0 <= i < n && state.pins[i].sequence == s
  {
    if n > 0 {
      PinsBelowIs(state, n - 1, s);
    }
  }

  lemma CountedStart(state: RetentionState, head: nat)
    requires ValidState(state) && state.evaluatedThrough <= head
    ensures |Counted(state, head, 0)| == CountThrough(state.retained) + head - state.evaluatedThrough
  {
    CountIsSize(state.retained, state.evaluatedThrough);
    SpanSize(state.evaluatedThrough + 1, head);
    var ranges, newer := RangeSet(state.retained), Span(state.evaluatedThrough + 1, head);
    forall s | s in ranges ensures s !in newer {
      RangeSetIs(state.retained, s);
    }
    assert Counted(state, head, 0) == ranges + newer;
    assert ranges !! newer;
  }

  lemma CountedNext(state: RetentionState, head: nat, n: nat)
    requires ValidState(state) && n < |state.pins|
    ensures var pin := state.pins[n];
            |Counted(state, head, n + 1)| == |Counted(state, head, n)|
              + (if pin.sequence <= state.evaluatedThrough && !InRanges(state.retained, pin.sequence) then 1 else 0)
  {
    hide RangeSet, PinsValid, RangesValid, InRanges, Span;
    var sequence := state.pins[n].sequence;
    var before, after := Counted(state, head, n), Counted(state, head, n + 1);
    RangeSetIs(state.retained, sequence);
    PinsBelowIs(state, n, sequence);
    forall i | 0 <= i < n ensures state.pins[i].sequence != sequence {
      PinsAscend(state.pins, i, n);
    }
    if sequence <= state.evaluatedThrough && !InRanges(state.retained, sequence) {
      assert sequence !in before;
      assert after == before + {sequence};
    } else {
      assert after == before;
    }
  }

  lemma CountedAll(state: RetentionState, head: nat)
    requires ValidState(state) && state.evaluatedThrough <= head
    ensures Counted(state, head, |state.pins|) == Kept(state, head)
  {
    forall s: nat ensures s in Counted(state, head, |state.pins|) <==> s in Kept(state, head) {
      RangeSetIs(state.retained, s);
      PinsBelowIs(state, |state.pins|, s);
    }
  }

  /** Ranges and pins may overlap, yet nothing is counted twice. */
  method RetainedCount(state: RetentionState, head: nat) returns (count: nat)
    requires ValidState(state) && state.evaluatedThrough <= head
    ensures count == |Kept(state, head)|
  {
    hide Counted, Kept, InRanges, RangesValid, PinsValid;
    CountedStart(state, head);
    count := 0;
    for i := 0 to |state.retained|
      invariant count == CountThrough(state.retained[..i])
    {
      assert state.retained[..i + 1][..i] == state.retained[..i];
      RangeOrdered(state, i);
      count := count + state.retained[i].last - state.retained[i].first + 1;
    }
    assert state.retained[..|state.retained|] == state.retained;
    if head > state.evaluatedThrough {
      count := count + head - state.evaluatedThrough;
    }
    for i := 0 to |state.pins|
      invariant count == |Counted(state, head, i)|
    {
      CountedNext(state, head, i);
      var pin := state.pins[i];
      if pin.sequence <= state.evaluatedThrough && !InRanges(state.retained, pin.sequence) {
        count := count + 1;
      }
    }
    CountedAll(state, head);
  }

  lemma RangeOrdered(state: RetentionState, i: nat)
    requires ValidState(state) && i < |state.retained|
    ensures state.retained[i].first <= state.retained[i].last
  {
  }

  // ---------- Listing, newest first ----------

  /** An interval of sequences still to be listed, named by its newest one. */
  datatype Interval = Interval(sequence: nat, first: nat)

  predicate Covers(interval: Interval, s: nat) {
    interval.first <= s <= interval.sequence
  }

  predicate Covered(heap: seq<Interval>, s: nat) {
    exists i :: 0 <= i < |heap| && Covers(heap[i], s)
  }

  predicate InOrder(a: Interval, b: Interval) {
    a.sequence < b.sequence || (a.sequence == b.sequence && a.first <= b.first)
  }

  function Weight(heap: seq<Interval>): nat {
    if heap == [] then 0
    else
      var top := heap[0];
      (if top.sequence < top.first then 1 else top.sequence - top.first + 1) + Weight(heap[1..])
  }

  lemma {:induction false} WeightOfJoin(a: seq<Interval>, b: seq<Interval>)
    ensures Weight(a + b) == Weight(a) + Weight(b)
  {
    if a == [] {
      assert a + b == b;
    } else {
      assert (a + b)[1..] == a[1..] + b;
      WeightOfJoin(a[1..], b);
    }
  }

  /** Takes the largest interval out of the heap. */
  method Pop(heap: seq<Interval>) returns (top: Interval, rest: seq<Interval>)
    requires heap != []
    ensures top in heap
    ensures forall i | 0 <= i < |heap| :: InOrder(heap[i], top)
    ensures forall s: nat :: Covered(heap, s) <==> Covers(top, s) || Covered(rest, s)
    ensures forall interval | interval in rest :: interval in heap
    ensures Weight(rest) == Weight(heap) - Weight([top])
  {
    var best := 0;
    for i := 1 to |heap|
      invariant 0 <= best < i
      invariant forall k | 0 <= k < i :: InOrder(heap[k], heap[best])
    {
      if InOrder(heap[best], heap[i]) {
        best := i;
      }
    }
    top := heap[best];
    rest := heap[..best] + heap[best + 1..];
    RemovedWeight(heap, best);
    RemovedCover(heap, best);
  }

  lemma RemovedWeight(heap: seq<Interval>, i: nat)
    requires i < |heap|
    ensures Weight(heap[..i] + heap[i + 1..]) == Weight(heap) - Weight([heap[i]])
  {
    var front, back, rest := heap[..i], heap[i..], heap[i + 1..];
    assert heap == front + back;
    WeightOfJoin(front, back);
    WeightOfJoin(front, rest);
    assert back[1..] == rest;
    var none: seq<Interval> := [];
    assert [heap[i]][1..] == none;
  }

  lemma RemovedCover(heap: seq<Interval>, i: nat)
    requires i < |heap|
    ensures forall s: nat :: Covered(heap, s) <==> Covers(heap[i], s) || Covered(heap[..i] + heap[i + 1..], s)
  {
    var rest := heap[..i] + heap[i + 1..];
    forall s: nat ensures Covered(heap, s) <==> Covers(heap[i], s) || Covered(rest, s) {
      if Covered(heap, s) && !Covers(heap[i], s) {
        var k :| 0 <= k < |heap| && Covers(heap[k], s);
        assert if k < i then rest[k] == heap[k] else rest[k - 1] == heap[k];
      }
      if Covered(rest, s) {
        var k :| 0 <= k < |rest| && Covers(rest[k], s);
        assert if k < i then rest[k] == heap[k] else rest[k] == heap[k + 1];
      }
    }
  }

  lemma CoveredByMore(heap: seq<Interval>, interval: Interval)
    ensures forall s: nat :: Covered(heap + [interval], s) <==> Covered(heap, s) || Covers(interval, s)
  {
    var more := heap + [interval];
    forall s: nat ensures Covered(more, s) <==> Covered(heap, s) || Covers(interval, s) {
      if Covered(heap, s) {
        var i :| 0 <= i < |heap| && Covers(heap[i], s);
        assert Covers(more[i], s);
      }
      if Covers(interval, s) {
        assert Covers(more[|heap|], s);
      }
    }
  }

  /** The heap before the first sequence is listed. */
  method FillHeap(state: RetentionState, head: nat) returns (heap: seq<Interval>)
    requires ValidState(state) && state.evaluatedThrough <= head
    ensures forall s: nat :: Covered(heap, s) <==> s in Kept(state, head)
  {
    hide Covered, ValidState;
    heap := [];
    if head > state.evaluatedThrough {
      CoveredByMore(heap, Interval(head, state.evaluatedThrough + 1));
      heap := [Interval(head, state.evaluatedThrough + 1)];
    }
    NothingCovered();
    assert [] + [Interval(head, state.evaluatedThrough + 1)] == [Interval(head, state.evaluatedThrough + 1)];
    for i := 0 to |state.retained|
      invariant forall s: nat :: Covered(heap, s) <==>
        (state.evaluatedThrough < s <= head) || (s <= head && InRanges(state.retained[..i], s))
    {
      var range := state.retained[i];
      var interval := Interval(if range.last < head then range.last else head, range.first);
      CoveredByMore(heap, interval);
      RangesMore(state.retained, i);
      heap := heap + [interval];
    }
    assert state.retained[..|state.retained|] == state.retained;
    for i := 0 to |state.pins|
      invariant forall s: nat :: Covered(heap, s) <==>
        (state.evaluatedThrough < s <= head) || (s <= head && InRanges(state.retained, s))
        || (s <= head && PinnedAt(state.pins[..i], s))
    {
      var pin := state.pins[i];
      PinsMore(state.pins, i);
      if pin.sequence <= head {
        CoveredByMore(heap, Interval(pin.sequence, pin.sequence));
        heap := heap + [Interval(pin.sequence, pin.sequence)];
      }
    }
    assert state.pins[..|state.pins|] == state.pins;
    NoneIsZero(state);
  }

  lemma NothingCovered()
    ensures forall s: nat :: !Covered([], s)
  {
  }

  lemma RangesMore(ranges: seq<SequenceRange>, i: nat)
    requires i < |ranges|
    ensures forall s: nat :: InRanges(ranges[..i + 1], s) <==> InRanges(ranges[..i], s) || InRange(ranges[i], s)
  {
    var front, more := ranges[..i], ranges[..i + 1];
    forall s: nat ensures InRanges(more, s) <==> InRanges(front, s) || InRange(ranges[i], s) {
      if InRanges(front, s) {
        var k :| 0 <= k < |front| && InRange(front[k], s);
        assert InRange(more[k], s);
      }
      if InRange(ranges[i], s) {
        assert InRange(more[i], s);
      }
    }
  }

  lemma PinsMore(pins: seq<Pin>, i: nat)
    requires i < |pins|
    ensures forall s: nat :: PinnedAt(pins[..i + 1], s) <==> PinnedAt(pins[..i], s) || pins[i].sequence == s
  {
    var front, more := pins[..i], pins[..i + 1];
    forall s: nat ensures PinnedAt(more, s) <==> PinnedAt(front, s) || pins[i].sequence == s {
      if PinnedAt(front, s) {
        var k :| 0 <= k < |front| && front[k].sequence == s;
        assert more[k].sequence == s;
      }
      assert more[i].sequence == pins[i].sequence;
    }
  }

  lemma NoneIsZero(state: RetentionState)
    requires ValidState(state)
    ensures !InRanges(state.retained, 0) && !PinnedAt(state.pins, 0)
  {
  }

  /** Newest first, without repetition. */
  predicate Descending(result: seq<nat>) {
    forall i, j | 0 <= i < j < |result| :: result[j] < result[i]
  }

  /** Everything kept is listed or still in the heap, and the heap holds nothing newer than what is listed. */
  ghost predicate Listing(kept: set<nat>, heap: seq<Interval>, result: seq<nat>) {
    && Descending(result)
    && (forall s | s in result :: s in kept)
    && (forall s | s in kept :: s in result || Covered(heap, s))
    && (forall s: nat | Covered(heap, s) :: s in kept && (result != [] ==> s <= result[|result| - 1]))
  }

  /** The `limit` newest of the kept sequences, newest first. */
  ghost predicate NewestKept(kept: set<nat>, limit: nat, result: seq<nat>) {
    && Descending(result)
    && (forall s | s in result :: s in kept)
    && |result| == (if limit < |kept| then limit else |kept|)
    && (forall s: nat, r: nat | s in kept && s !in result && r in result :: s < r)
  }

  lemma ListNext(kept: set<nat>, heap: seq<Interval>, result: seq<nat>, top: Interval, rest: seq<Interval>)
    requires Listing(kept, heap, result)
    requires forall i | 0 <= i < |heap| :: InOrder(heap[i], top)
    requires forall s: nat :: Covered(heap, s) <==> Covers(top, s) || Covered(rest, s)
    requires top in heap
    ensures var listed := if top.sequence < top.first || (result != [] && result[|result| - 1] == top.sequence) then result
                          else result + [top.sequence];
            var left := if top.first < top.sequence then rest + [Interval(top.sequence - 1, top.first)] else rest;
            Listing(kept, left, listed)
  {
    var newer := !(top.sequence < top.first || (result != [] && result[|result| - 1] == top.sequence));
    var listed := if newer then result + [top.sequence] else result;
    var left := if top.first < top.sequence then rest + [Interval(top.sequence - 1, top.first)] else rest;
    if top.first < top.sequence {
      CoveredByMore(rest, Interval(top.sequence - 1, top.first));
    }
    forall s: nat | Covered(heap, s) ensures s <= top.sequence {
      var i :| 0 <= i < |heap| && Covers(heap[i], s);
      assert InOrder(heap[i], top);
    }
    assert top.first <= top.sequence ==> Covers(top, top.sequence);
    hide Covered;
    forall s | s in kept ensures s in listed || Covered(left, s) {
      if s !in result {
        assert Covered(heap, s);
        if newer {
          assert listed[|result|] == top.sequence;
        }
      } else {
        var k :| 0 <= k < |result| && result[k] == s;
        assert listed[k] == s;
      }
    }
    forall s: nat | Covered(left, s) ensures s in kept && (listed != [] ==> s <= listed[|listed| - 1]) {
      assert Covered(heap, s);
    }
  }

  function Elements(result: seq<nat>): set<nat> {
    set s | s in result
  }

  lemma ElementsMore(front: seq<nat>, last: nat)
    ensures Elements(front + [last]) == Elements(front) + {last}
  {
  }

  lemma {:induction false} DescendingSize(result: seq<nat>)
    requires Descending(result)
    ensures |Elements(result)| == |result|
  {
    if result != [] {
      var front, last := result[..|result| - 1], result[|result| - 1];
      DescendingSize(front);
      ElementsMore(front, last);
      assert result == front + [last];
      assert last !in Elements(front);
    }
  }

  lemma ListingIsNewest(kept: set<nat>, heap: seq<Interval>, result: seq<nat>, limit: nat)
    requires Listing(kept, heap, result)
    requires |result| <= limit && (heap == [] || |result| == limit)
    ensures NewestKept(kept, limit, result)
  {
    var listed := Elements(result);
    DescendingSize(result);
    assert listed <= kept;
    SubsetSize(listed, kept);
    if heap == [] {
      assert listed == kept;
    } else {
      forall s: nat, r: nat | s in kept && s !in result && r in result ensures s < r {
        assert Covered(heap, s);
        var k :| 0 <= k < |result| && result[k] == r;
        assert result[|result| - 1] in result;
      }
    }
  }

  /** Lists the newest kept sequences by merging ranges, pins and the unevaluated end, which may overlap. */
  method RecentSequences(state: RetentionState, head: nat, limit: nat) returns (result: seq<nat>)
    requires ValidState(state) && state.evaluatedThrough <= head
    ensures NewestKept(Kept(state, head), limit, result)
  {
    hide Listing, Covered, Kept, ValidState;
    if limit == 0 || head == 0 {
      NothingListed(state, head, limit);
      return [];
    }
    var heap := FillHeap(state, head);
    StartListing(state, head, heap);
    var previous: Option<nat> := None;
    result := [];
    while |result| < limit
      invariant |result| <= limit && Listing(Kept(state, head), heap, result)
      invariant previous == if result == [] then None else Some(result[|result| - 1])
      decreases Weight(heap)
    {
      if heap == [] {
        break;
      }
      var top, rest := Pop(heap);
      ListNext(Kept(state, head), heap, result, top, rest);
      WeightOfJoin(rest, [Interval(if top.sequence > 0 then top.sequence - 1 else 0, top.first)]);
      heap := rest;
      if top.sequence >= top.first {
        if previous != Some(top.sequence) {
          result := result + [top.sequence];
          previous := Some(top.sequence);
        }
        if top.sequence > top.first {
          heap := heap + [Interval(top.sequence - 1, top.first)];
        }
      }
    }
    ListingIsNewest(Kept(state, head), heap, result, limit);
  }

  lemma NothingListed(state: RetentionState, head: nat, limit: nat)
    requires limit == 0 || head == 0
    ensures NewestKept(Kept(state, head), limit, [])
  {
    assert head == 0 ==> Kept(state, head) == {};
  }

  lemma StartListing(state: RetentionState, head: nat, heap: seq<Interval>)
    requires forall s: nat :: Covered(heap, s) <==> s in Kept(state, head)
    ensures Listing(Kept(state, head), heap, [])
  {
  }
}
