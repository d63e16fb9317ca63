/** Thinning a timeline (retention.rs, plan_state): everything from the last day stays, then one snapshot per
    hour, per day and per week. */
module Thinning {
  import opened Bytes
  import opened Retention

  /** A record of the reference log. */
  datatype Record = Record(sequence: nat, sealedAt: int, snapshot: Digest)

  datatype Tier = Hourly | Daily | Weekly

  datatype Key = Key(tier: Tier, index: int)

  datatype Candidate = Candidate(sealedAt: int, sequence: nat)

  /** The log numbers its records from one. */
  predicate Numbered(log: seq<Record>) {
    forall i | 0 <= i < |log| :: log[i].sequence == i + 1
  }

  /** A saturating difference of two 64-bit times. */
  function Age(now: int, sealedAt: int): int {
    if now - sealedAt > MAX_TIME then MAX_TIME else if now - sealedAt < MIN_TIME then MIN_TIME else now - sealedAt
  }

  function TierOf(age: int): Tier {
    if age <= HOURLY_WINDOW then Hourly else if age <= DAILY_WINDOW then Daily else Weekly
  }

  function Width(tier: Tier): int {
    match tier case Hourly => HOUR case Daily => DAY case Weekly => WEEK
  }

  /** The youngest age that is already past the tier before. */
  function YoungerLimit(tier: Tier): int {
    match tier case Hourly => ALL_SNAPSHOTS_WINDOW case Daily => HOURLY_WINDOW case Weekly => DAILY_WINDOW
  }

  predicate Exempt(record: Record, now: int, pinned: set<nat>) {
    Age(now, record.sealedAt) <= ALL_SNAPSHOTS_WINDOW || Age(now, record.sealedAt) < 0 || record.sequence in pinned
  }

  function KeyOf(record: Record, now: int): Key {
    var tier := TierOf(Age(now, record.sealedAt));
    Key(tier, record.sealedAt / Width(tier))
  }

  predicate Newer(a: Record, b: Record) {
    a.sealedAt > b.sealedAt || (a.sealedAt == b.sealedAt && a.sequence > b.sequence)
  }

  predicate SharesBucket(a: Record, b: Record, now: int, pinned: set<nat>) {
    !Exempt(a, now, pinned) && KeyOf(a, now) == KeyOf(b, now)
  }

  predicate NewestInBucket(log: seq<Record>, now: int, pinned: set<nat>, i: nat)
    requires i < |log|
  {
    forall j | 0 <= j < |log| && SharesBucket(log[j], log[i], now, pinned) :: !Newer(log[j], log[i])
  }

  /** The record stays: it is recent or pinned, it is the head, or it is the newest of its bucket. */
  predicate Stays(log: seq<Record>, now: int, pinned: set<nat>, i: nat)
    requires i < |log|
  {
    Exempt(log[i], now, pinned) || i == |log| - 1 || NewestInBucket(log, now, pinned, i)
  }

  function PinnedSet(pins: seq<Pin>): set<nat> {
    set i | 0 <= i < |pins| :: pins[i].sequence
  }

  predicate KeepsSequence(log: seq<Record>, now: int, pins: seq<Pin>, s: nat) {
    s in PinnedSet(pins) || (1 <= s <= |log| && Stays(log, now, PinnedSet(pins), s - 1))
  }

  // ---------- Ranges ----------

  /** Ordered ranges with a gap between any two. */
  predicate Compressed(ranges: seq<SequenceRange>) {
    && (forall i | 0 <= i < |ranges| :: ranges[i].first <= ranges[i].last)
    && (forall i | 0 < i < |ranges| :: ranges[i - 1].last + 1 < ranges[i].first)
  }

  method Smallest(sequences: set<nat>) returns (smallest: nat)
    requires sequences != {}
    ensures smallest in sequences && forall s: nat :: s in sequences ==> smallest <= s
  {
    smallest :| smallest in sequences;
    var rest := sequences - {smallest};
    while rest != {}
      invariant rest <= sequences && smallest in sequences
      invariant forall s: nat :: s in sequences && s !in rest ==> smallest <= s
      decreases rest
    {
      var s :| s in rest;
      rest := rest - {s};
      if s < smallest {
        smallest := s;
      }
    }
  }

  /** The ranges of exactly these sequences, as few as possible. */
  method CompressSequences(sequences: set<nat>) returns (ranges: seq<SequenceRange>)
    ensures Compressed(ranges)
    ensures forall s: nat :: InRanges(ranges, s) <==> s in sequences
  {
    hide InRanges;
    ranges := [];
    NoRanges();
    var rest := sequences;
    while rest != {}
      invariant rest <= sequences && Compressed(ranges)
      invariant forall s: nat :: InRanges(ranges, s) <==> s in sequences - rest
      invariant ranges != [] ==> forall s | s in rest :: ranges[|ranges| - 1].last < s
      decreases rest
    {
      var sequence := Smallest(rest);
      rest := rest - {sequence};
      if ranges != [] && ranges[|ranges| - 1].last + 1 == sequence {
        LastRangeGrows(ranges, sequence);
        ranges := ranges[|ranges| - 1 := SequenceRange(ranges[|ranges| - 1].first, sequence)];
      } else {
        RangeAdded(ranges, sequence);
        ranges := ranges + [SequenceRange(sequence, sequence)];
      }
    }
  }

  lemma NoRanges()
    ensures forall s: nat :: !InRanges([], s)
  {
  }

  lemma LastRangeGrows(ranges: seq<SequenceRange>, sequence: nat)
    requires ranges != [] && ranges[|ranges| - 1].last + 1 == sequence
    requires ranges[|ranges| - 1].first <= ranges[|ranges| - 1].last
    ensures var grown := ranges[|ranges| - 1 := SequenceRange(ranges[|ranges| - 1].first, sequence)];
            forall s: nat :: InRanges(grown, s) <==> InRanges(ranges, s) || s == sequence
  {
    var n := |ranges| - 1;
    var grown := ranges[n := SequenceRange(ranges[n].first, sequence)];
    forall s: nat ensures InRanges(grown, s) <==> InRanges(ranges, s) || s == sequence {
      if InRanges(ranges, s) {
        var i :| 0 <= i < |ranges| && InRange(ranges[i], s);
        assert InRange(grown[i], s);
      }
      if InRanges(grown, s) && s != sequence {
        var i :| 0 <= i < |grown| && InRange(grown[i], s);
        assert InRange(ranges[i], s);
      }
      assert InRange(grown[n], sequence);
    }
  }

  lemma RangeAdded(ranges: seq<SequenceRange>, sequence: nat)
    ensures forall s: nat ::
      InRanges(ranges + [SequenceRange(sequence, sequence)], s) <==> InRanges(ranges, s) || s == sequence
  {
    var more := ranges + [SequenceRange(sequence, sequence)];
    RangesMore(more, |ranges|);
    assert more[..|ranges|] == ranges && more[..|ranges| + 1] == more;
  }

  // ---------- The plan ----------

  /** The exempt records among the first `n`. */
  ghost predicate RetainedSoFar(log: seq<Record>, now: int, pinned: set<nat>, n: nat, retained: set<nat>)
    requires n <= |log|
  {
    forall s: nat :: s in retained <==> 1 <= s <= n && Exempt(log[s - 1], now, pinned)
  }

  /** Each bucket met so far names the newest of its members. */
  ghost predicate BucketsSoFar(log: seq<Record>, now: int, pinned: set<nat>, n: nat, buckets: map<Key, Candidate>)
    requires n <= |log|
  {
    && (forall key | key in buckets ::
          exists i :: 0 <= i < n && IsCandidate(log[i], now, pinned, key, buckets[key]))
    && (forall i | 0 <= i < n && !Exempt(log[i], now, pinned) ::
          KeyOf(log[i], now) in buckets && !NewerThan(log[i], buckets[KeyOf(log[i], now)]))
  }

  predicate IsCandidate(record: Record, now: int, pinned: set<nat>, key: Key, candidate: Candidate) {
    !Exempt(record, now, pinned) && KeyOf(record, now) == key && candidate == Candidate(record.sealedAt, record.sequence)
  }

  predicate NewerThan(a: Record, b: Candidate) {
    a.sealedAt > b.sealedAt || (a.sealedAt == b.sealedAt && a.sequence > b.sequence)
  }

  method SortIntoBuckets(log: seq<Record>, now: int, pinned: set<nat>)
    returns (retained: set<nat>, buckets: map<Key, Candidate>, evaluatedThrough: nat)
    requires Numbered(log)
    ensures RetainedSoFar(log, now, pinned, |log|, retained)
    ensures BucketsSoFar(log, now, pinned, |log|, buckets)
    ensures evaluatedThrough == |log|
  {
    hide KeyOf, Age;
    retained, buckets, evaluatedThrough := {}, map[], 0;
    for n := 0 to |log|
      invariant RetainedSoFar(log, now, pinned, n, retained)
      invariant BucketsSoFar(log, now, pinned, n, buckets)
      invariant evaluatedThrough == n
    {
      var record := log[n];
      evaluatedThrough := record.sequence;
      if Exempt(record, now, pinned) {
        retained := retained + {record.sequence};
      } else {
        var key := KeyOf(record, now);
        var candidate := Candidate(record.sealedAt, record.sequence);
        BucketsNext(log, now, pinned, n, buckets);
        if key in buckets {
          if NewerThan(record, buckets[key]) {
            buckets := buckets[key := candidate];
          }
        } else {
          buckets := buckets[key := candidate];
        }
      }
    }
  }

  lemma BucketsNext(log: seq<Record>, now: int, pinned: set<nat>, n: nat, buckets: map<Key, Candidate>)
    requires n < |log| && Numbered(log) && BucketsSoFar(log, now, pinned, n, buckets) && !Exempt(log[n], now, pinned)
    ensures var key := KeyOf(log[n], now);
            BucketsSoFar(log, now, pinned, n + 1,
                         if key in buckets && !NewerThan(log[n], buckets[key]) then buckets
                         else buckets[key := Candidate(log[n].sealedAt, log[n].sequence)])
  {
    hide KeyOf, Age, Exempt;
    var key := KeyOf(log[n], now);
    var after := if key in buckets && !NewerThan(log[n], buckets[key]) then buckets
                 else buckets[key := Candidate(log[n].sealedAt, log[n].sequence)];
    forall k | k in after ensures exists i :: 0 <= i < n + 1 && IsCandidate(log[i], now, pinned, k, after[k]) {
      if k == key && after != buckets {
        assert IsCandidate(log[n], now, pinned, k, after[k]);
      } else {
        var i :| 0 <= i < n && IsCandidate(log[i], now, pinned, k, buckets[k]);
        assert IsCandidate(log[i], now, pinned, k, after[k]);
      }
    }
  }

  /** The state that the policy asks for at `now`. */
  method PlanState(log: seq<Record>, now: int, pins: seq<Pin>) returns (state: RetentionState)
    requires Numbered(log)
    ensures state.evaluatedThrough == |log| && state.evaluatedAt == now && state.pins == pins
    ensures Compressed(state.retained)
    ensures forall s: nat :: InRanges(state.retained, s) <==> KeepsSequence(log, now, pins, s)
  {
    hide InRanges, RetainedSoFar, BucketsSoFar, KeepsSequence, Compressed;
    var pinned := set i | 0 <= i < |pins| :: pins[i].sequence;
    var retained, buckets, evaluatedThrough := SortIntoBuckets(log, now, pinned);
    ghost var exempt := retained;
    retained := retained + (set key | key in buckets :: buckets[key].sequence) + pinned;
    if evaluatedThrough > 0 {
      retained := retained + {evaluatedThrough};
    }
    forall s: nat ensures s in retained <==> KeepsSequence(log, now, pins, s) {
      RetainedIsKept(log, now, pins, s, exempt, buckets);
    }
    var ranges := CompressSequences(retained);
    state := RetentionState(evaluatedThrough, now, ranges, pins);
  }

  lemma RetainedIsKept(
      log: seq<Record>, now: int, pins: seq<Pin>, s: nat, exempt: set<nat>, buckets: map<Key, Candidate>)
    requires Numbered(log)
    requires RetainedSoFar(log, now, PinnedSet(pins), |log|, exempt)
    requires BucketsSoFar(log, now, PinnedSet(pins), |log|, buckets)
    ensures KeepsSequence(log, now, pins, s) <==>
      s in exempt || (exists key :: key in buckets && buckets[key].sequence == s) || s in PinnedSet(pins)
      || (|log| > 0 && s == |log|)
  {
    hide KeyOf, Age;
    var pinned := PinnedSet(pins);
    if key :| key in buckets && buckets[key].sequence == s {
      var i :| 0 <= i < |log| && IsCandidate(log[i], now, pinned, key, buckets[key]);
      assert s == i + 1;
      assert NewestInBucket(log, now, pinned, i);
    }
    if 1 <= s <= |log| && !Exempt(log[s - 1], now, pinned) && NewestInBucket(log, now, pinned, s - 1) {
      var key := KeyOf(log[s - 1], now);
      var i :| 0 <= i < |log| && IsCandidate(log[i], now, pinned, key, buckets[key]);
      assert SharesBucket(log[i], log[s - 1], now, pinned);
    }
  }

  /** With pins that name records of the log, the planned state is one the reader accepts. */
  lemma PlannedIsValid(log: seq<Record>, now: int, state: RetentionState)
    requires Numbered(log) && PinsValid(state.pins)
    requires forall i | 0 <= i < |state.pins| :: state.pins[i].sequence <= |log|
    requires state.evaluatedThrough == |log| && Compressed(state.retained)
    requires forall s: nat :: InRanges(state.retained, s) <==> KeepsSequence(log, now, state.pins, s)
    ensures ValidState(state)
  {
    hide Stays;
    forall i | 0 <= i < |state.retained|
      ensures 0 < state.retained[i].first <= state.retained[i].last <= state.evaluatedThrough
    {
      var range := state.retained[i];
      assert InRange(range, range.first) && InRange(range, range.last);
      assert InRanges(state.retained, range.first) && InRanges(state.retained, range.last);
    }
  }

  // ---------- What thinning keeps ----------

  /** Climbing from a record to the newest of its bucket among the first `n`. */
  lemma {:induction false} NewestBelow(log: seq<Record>, now: int, pinned: set<nat>, i: nat, n: nat) returns (best: nat)
    requires Numbered(log) && i < |log| && n <= |log| && !Exempt(log[i], now, pinned)
    ensures best < |log| && SharesBucket(log[best], log[i], now, pinned)
    ensures best == i || Newer(log[best], log[i])
    ensures forall j | 0 <= j < n && SharesBucket(log[j], log[i], now, pinned) :: !Newer(log[j], log[best])
  {
    hide KeyOf, Exempt;
    if n == 0 {
      best := i;
    } else {
      best := NewestBelow(log, now, pinned, i, n - 1);
      if SharesBucket(log[n - 1], log[i], now, pinned) && Newer(log[n - 1], log[best]) {
        best := n - 1;
      }
    }
  }

  /** Whatever is thinned out is represented: a newer record of its own bucket stays. */
  lemma DroppedIsRepresented(log: seq<Record>, now: int, pinned: set<nat>, i: nat) returns (j: nat)
    requires Numbered(log) && i < |log| && !Stays(log, now, pinned, i)
    ensures j < |log| && Stays(log, now, pinned, j)
    ensures Newer(log[j], log[i]) && !Exempt(log[j], now, pinned) && KeyOf(log[j], now) == KeyOf(log[i], now)
  {
    hide KeyOf, Exempt;
    j := NewestBelow(log, now, pinned, i, |log|);
    assert NewestInBucket(log, now, pinned, j);
  }

  // ---------- The policy in plain terms ----------

  /** Two records compete: both in their first week after a day, in one hour; both in ninety days, in one day; or both
      older, in one week. All in seconds. */
  predicate Competes(a: Record, b: Record, now: int) {
    var x, y := now - a.sealedAt, now - b.sealedAt;
    || (86_400 < x <= 604_800 && 86_400 < y <= 604_800 && a.sealedAt / 3_600 == b.sealedAt / 3_600)
    || (604_800 < x <= 7_776_000 && 604_800 < y <= 7_776_000 && a.sealedAt / 86_400 == b.sealedAt / 86_400)
    || (7_776_000 < x && 7_776_000 < y && a.sealedAt / 604_800 == b.sealedAt / 604_800)
  }

  lemma CompetesIff(a: Record, b: Record, now: int, pinned: set<nat>)
    ensures Competes(a, b, now) && a.sequence !in pinned <==>
              SharesBucket(a, b, now, pinned) && now - b.sealedAt > 86_400
  {
  }

  lemma PastDay(record: Record, now: int, pinned: set<nat>)
    ensures Exempt(record, now, pinned) <==> record.sequence in pinned || now - record.sealedAt <= 86_400
  {
  }

  /** The policy: a record stays if it is pinned, at most a day old, or the newest of all; any other stays exactly if no
      unpinned record it competes with was sealed later. */
  lemma PolicyIs(log: seq<Record>, now: int, pinned: set<nat>, i: nat)
    requires i < |log|
    ensures Stays(log, now, pinned, i) <==>
              || log[i].sequence in pinned || now - log[i].sealedAt <= 86_400 || i == |log| - 1
              || forall j | 0 <= j < |log| && log[j].sequence !in pinned && Competes(log[j], log[i], now) ::
                   log[j].sealedAt < log[i].sealedAt
                   || (log[j].sealedAt == log[i].sealedAt && log[j].sequence <= log[i].sequence)
  {
    PastDay(log[i], now, pinned);
    hide Exempt, Competes, SharesBucket;
    forall j | 0 <= j < |log|
      ensures Competes(log[j], log[i], now) && log[j].sequence !in pinned <==>
                SharesBucket(log[j], log[i], now, pinned) && now - log[i].sealedAt > 86_400
    {
      CompetesIff(log[j], log[i], now, pinned);
    }
  }

  /** Of two that compete only one stays, unless one is pinned or the newest of all. */
  lemma OneStays(log: seq<Record>, now: int, pinned: set<nat>, i: nat, j: nat)
    requires Numbered(log) && i < j < |log| - 1 && Competes(log[i], log[j], now)
    requires log[i].sequence !in pinned && log[j].sequence !in pinned
    ensures !(Stays(log, now, pinned, i) && Stays(log, now, pinned, j))
  {
    hide Competes, Stays;
    CompetesBothWays(log[i], log[j], now);
    PolicyIs(log, now, pinned, i);
    PolicyIs(log, now, pinned, j);
  }

  lemma CompetesBothWays(a: Record, b: Record, now: int)
    requires Competes(a, b, now)
    ensures Competes(b, a, now) && now - a.sealedAt > 86_400 && now - b.sealedAt > 86_400
  {
  }

  // ---------- Thinned once, thinned for good? ----------

  lemma AgeMonotone(now: int, later: int, a: int, b: int)
    requires now <= later && a <= b
    ensures Age(now, b) <= Age(later, b) <= Age(later, a)
  {
  }

  /** A record left out earlier is left out later, or is back: it is back exactly when every newer record of
      its later window is pinned or still on the young side of its tier. */
  lemma ReturnsIff(log: seq<Record>, longer: seq<Record>, now: int, later: int, pinned: set<nat>, i: nat)
    requires Numbered(longer) && log <= longer && now <= later && i < |log|
    requires !Stays(log, now, pinned, i)
    ensures !Exempt(longer[i], later, pinned)
    ensures var tier := TierOf(Age(later, longer[i].sealedAt));
      Stays(longer, later, pinned, i) <==>
        forall j | 0 <= j < |longer| && Newer(longer[j], longer[i])
                   && longer[j].sealedAt / Width(tier) == longer[i].sealedAt / Width(tier) ::
          longer[j].sequence in pinned || Age(later, longer[j].sealedAt) <= YoungerLimit(tier)
  {
    AgeMonotone(now, later, longer[i].sealedAt, longer[i].sealedAt);
    var tier := TierOf(Age(later, longer[i].sealedAt));
    forall j | 0 <= j < |longer| && Newer(longer[j], longer[i])
      ensures SharesBucket(longer[j], longer[i], later, pinned) <==>
        longer[j].sealedAt / Width(tier) == longer[i].sealedAt / Width(tier)
        && !(longer[j].sequence in pinned || Age(later, longer[j].sealedAt) <= YoungerLimit(tier))
    {
      AgeMonotone(later, later, longer[i].sealedAt, longer[j].sealedAt);
      SameTierIff(Age(later, longer[j].sealedAt), Age(later, longer[i].sealedAt));
    }
    hide KeyOf, Exempt, Age;
  }

  /** A younger record is in the tier of an older one exactly when it is past the tier's younger limit. */
  lemma SameTierIff(younger: int, older: int)
    requires younger <= older && ALL_SNAPSHOTS_WINDOW < older
    ensures ALL_SNAPSHOTS_WINDOW < younger && TierOf(younger) == TierOf(older) <==> younger > YoungerLimit(TierOf(older))
  {
  }

  /** An hour lies in one day and a day in one week. */
  lemma WindowsNest(a: int, b: int, fine: Tier, coarse: Tier)
    requires a / Width(fine) == b / Width(fine)
    requires fine == coarse || fine == Hourly || coarse == Weekly
    ensures a / Width(coarse) == b / Width(coarse)
  {
    DayOfHour(a);
    DayOfHour(b);
    WeekOfDay(a);
    WeekOfDay(b);
  }

  lemma DayOfHour(a: int)
    ensures a / DAY == (a / HOUR) / 24
  {
  }

  lemma WeekOfDay(a: int)
    ensures a / WEEK == (a / DAY) / 7
  {
  }

  /** When the members of the record's bucket have all moved to the record's later tier together, it stays
      thinned. */
  lemma StaysThinned(log: seq<Record>, longer: seq<Record>, now: int, later: int, pinned: set<nat>, i: nat)
    requires Numbered(longer) && log <= longer && now <= later && i < |log|
    requires !Stays(log, now, pinned, i)
    requires forall j | 0 <= j < |log| && SharesBucket(log[j], log[i], now, pinned) ::
      TierOf(Age(later, log[j].sealedAt)) == TierOf(Age(later, log[i].sealedAt))
    ensures !Stays(longer, later, pinned, i)
  {
    assert Numbered(log);
    var j := DroppedIsRepresented(log, now, pinned, i);
    assert SharesBucket(log[j], log[i], now, pinned);
    var before, after := TierOf(Age(now, log[i].sealedAt)), TierOf(Age(later, log[i].sealedAt));
    AgeMonotone(now, later, log[j].sealedAt, log[j].sealedAt);
    AgeMonotone(now, later, log[i].sealedAt, log[i].sealedAt);
    WindowsNest(log[j].sealedAt, log[i].sealedAt, before, after);
    assert longer[i] == log[i] && longer[j] == log[j];
    assert SharesBucket(longer[j], longer[i], later, pinned);
    hide KeyOf, Age;
  }

  /** Two snapshots half an hour apart in one hour, and a third as head. Two days later the older one is
      thinned out; a quarter of an hour after it turns a week old it alone is in the daily tier, and is back. */
  lemma ThinnedSnapshotReturns(id: Digest)
    ensures var log := [Record(1, 0, id), Record(2, 1800, id), Record(3, 2 * DAY, id)];
            Numbered(log) && !Stays(log, 2 * DAY, {}, 0) && Stays(log, 7 * DAY + 900, {}, 0)
  {
    var log := [Record(1, 0, id), Record(2, 1800, id), Record(3, 2 * DAY, id)];
    assert SharesBucket(log[1], log[0], 2 * DAY, {}) && Newer(log[1], log[0]);
    assert !SharesBucket(log[1], log[0], 7 * DAY + 900, {});
    assert !SharesBucket(log[2], log[0], 7 * DAY + 900, {});
  }
}
