/** The reference log file with its advisory index, as the log's methods change them. */
module RefLog {
  import opened Bytes
  import opened Refs

  /** Identity and times of the log file, as an index record remembers them. */
  datatype Stamp = Stamp(device: nat, inode: nat, times: seq<int>)

  datatype IndexRecord = IndexRecord(start: nat, end: nat, hash: Digest, stamp: Stamp)

  /** An index record as read back: intact, or failing its checksum or its offset check. */
  datatype Slot = Intact(record: IndexRecord) | Damaged

  /** The index file: `torn` when it ends inside a record. */
  datatype Index = Missing | BadHeader | Slots(slots: seq<Slot>, torn: bool)

  predicate Describes(entry: IndexRecord, frame: Frame) {
    entry.start == frame.start && entry.end == frame.end && entry.hash == frame.hash
  }

  function Entry(frame: Frame, stamp: Stamp): IndexRecord {
    IndexRecord(frame.start, frame.end, frame.hash, stamp)
  }

  function Entries(frames: seq<Frame>, stamp: Stamp): (slots: seq<Slot>)
    ensures |slots| == |frames|
    ensures forall i | 0 <= i < |frames| :: slots[i] == Slot.Intact(Entry(frames[i], stamp))
  {
    seq(|frames|, i requires 0 <= i < |frames| => Slot.Intact(Entry(frames[i], stamp)))
  }

  /** The index lists every frame. */
  predicate Exact(index: Index, frames: seq<Frame>) {
    && index.Slots? && !index.torn && |index.slots| == |frames|
    && forall i | 0 <= i < |frames| :: index.slots[i].Intact? && Describes(index.slots[i].record, frames[i])
  }

  /** What a validated index guarantees: only its last slot is known to be right. */
  predicate LastIsRight(index: Index, frames: seq<Frame>) {
    && index.Slots? && !index.torn
    && if frames == [] then index.slots == []
       else
         && index.slots != []
         && index.slots[|index.slots| - 1].Intact?
         && Describes(index.slots[|index.slots| - 1].record, frames[|frames| - 1])
  }

  /**
    * The one index state validation cannot get past: its last record belongs to this file, lies inside it, and
    * points at bytes that read as corruption, so the read error is returned instead of rebuilding the index.
    */
  predicate Stale(r: Reader, log: seq<byte>, stamp: Stamp, index: Index) {
    && index.Slots? && index.slots != []
    && var last := index.slots[|index.slots| - 1];
    && last.Intact?
    && last.record.end <= |log|
    && last.record.stamp.device == stamp.device && last.record.stamp.inode == stamp.inode
    && FrameAt(r, log, last.record.start).Corrupt?
  }

  /** The index cannot be followed from its last entry, so it is rebuilt from the log. */
  predicate Rebuilds(r: Reader, log: seq<byte>, stamp: Stamp, index: Index) {
    || !index.Slots? || index.slots == []
    || index.slots[|index.slots| - 1].Damaged?
    || var last := index.slots[|index.slots| - 1].record;
       || |log| < last.end || last.stamp.device != stamp.device || last.stamp.inode != stamp.inode
       || FrameAt(r, log, last.start).CutShort?
       || (FrameAt(r, log, last.start).Good? && !Describes(last, FrameAt(r, log, last.start).frame))
       || (|log| == last.end && last.stamp != stamp)
  }

  /** The slot of a sequence number describes the frame of that number. */
  predicate Locates(slots: seq<Slot>, frames: seq<Frame>, sequence: nat) {
    && 0 < sequence <= |slots| && sequence <= |frames|
    && slots[sequence - 1].Intact? && Describes(slots[sequence - 1].record, frames[sequence - 1])
  }

  /** Which sequence numbers a lookup through this index finds: all where it is rebuilt; otherwise those whose own slot
      is right, and, past the slots, all that follow a last slot in its right place. */
  predicate Found(r: Reader, log: seq<byte>, stamp: Stamp, index: Index, sequence: nat) {
    var frames := Frames(r, log);
    && 0 < sequence <= |frames|
    && (Rebuilds(r, log, stamp, index)
        || Locates(index.slots, frames, if sequence <= |index.slots| then sequence else |index.slots|))
  }

  /** Frames read from anywhere in the log that link up and end with the last frame are its newest frames. */
  lemma {:induction false} LinkedIsSuffix(r: Reader, log: seq<byte>, d: seq<Frame>, i: nat)
    requires HashesDistinct(r, log)
    requires i < |d| && Frames(r, log) != []
    requires forall j | 0 <= j < |d| :: d[j] in Frames(r, log)
    requires d[|d| - 1] == Frames(r, log)[|Frames(r, log)| - 1]
    requires forall j | 0 < j < |d| :: d[j].record.previous == d[j - 1].hash
    ensures |d| - i <= |Frames(r, log)|
    ensures d[i] == Frames(r, log)[|Frames(r, log)| - (|d| - i)]
    decreases |d| - i
  {
    hide Chain, FrameAt;
    var frames := Frames(r, log);
    if i + 1 < |d| {
      LinkedIsSuffix(r, log, d, i + 1);
      var k := |frames| - (|d| - i - 1);
      ChainAt(r, log, 0, ZeroDigest(), 1, k);
      var j :| 0 <= j < |frames| && frames[j] == d[i];
      assert d[i + 1].record.previous == d[i].hash;
      assert k > 0 && frames[k - 1].hash == frames[j].hash;
    }
  }

  /** How far `repair_suffix` keeps a log: chained frames, and past the durable length only those still present. */
  function Keep(r: Reader, frames: seq<Frame>, durable: nat, present: set<Digest>): (n: nat)
    ensures n <= |frames|
  {
    if frames == [] || !(frames[0].start < durable || frames[0].record.snapshot in present) then 0
    else 1 + Keep(r, frames[1..], durable, present)
  }

  function KeptEnd(frames: seq<Frame>, n: nat): nat
    requires n <= |frames|
  {
    if n == 0 then 0 else frames[n - 1].end
  }

  /** The repaired log, or an error when a durable byte would be lost. */
  function RepairSuffix(r: Reader, log: seq<byte>, durable: nat, present: set<Digest>): Result<seq<byte>> {
    var frames := Frames(r, log);
    var end := KeptEnd(frames, Keep(r, frames, durable, present));
    if |log| < durable || (end < |log| && end < durable) then Err
    else if end < |log| then Ok(log[..end])
    else Ok(log)
  }

  /** Repair succeeds exactly when complete frames reach the durable length, whatever snapshots are present. */
  lemma RepairsIff(r: Reader, log: seq<byte>, durable: nat, present: set<Digest>)
    ensures RepairSuffix(r, log, durable, present).Ok? <==> durable <= FramesEnd(r, log)
  {
    hide FrameAt, Chain, ChainEnd;
    var frames := Frames(r, log);
    var k := Keep(r, frames, durable, present);
    ChainEndsAt(r, log, 0, ZeroDigest(), 1);
    if 0 < k {
      FramesOrdered(r, log, k - 1, |frames| - 1);
    }
    if k < |frames| {
      KeepStops(r, frames, durable, present);
      ChainAt(r, log, 0, ZeroDigest(), 1, k);
    }
  }

  /** The first frame that is not kept starts past the durable length. */
  lemma {:induction false} KeepStops(r: Reader, frames: seq<Frame>, durable: nat, present: set<Digest>)
    requires Keep(r, frames, durable, present) < |frames|
    ensures durable <= frames[Keep(r, frames, durable, present)].start
    decreases |frames|
  {
    if frames[0].start < durable || frames[0].record.snapshot in present {
      KeepStops(r, frames[1..], durable, present);
    }
  }

  class RefLogFile {
    const r: Reader
    var log: seq<byte>
    var stamp: Stamp
    var index: Index

    constructor (r: Reader, log: seq<byte>, stamp: Stamp, index: Index)
      ensures this.r == r && this.log == log && this.stamp == stamp && this.index == index
    {
      this.r, this.log, this.stamp, this.index := r, log, stamp, index;
    }

    /** Any write to the log moves its times. */
    method WriteLog(bytes: seq<byte>)
      modifies `log, `stamp
      ensures log == bytes
      ensures stamp.device == old(stamp.device) && stamp.inode == old(stamp.inode)
    {
      var times: seq<int> := *;
      log := bytes;
      stamp := stamp.(times := times);
    }

    /** Reads chained records from `start`: all of them, how far they reach, and whether a torn frame follows. */
    method ReadRecords(start: nat, previous: Digest, sequence: nat) returns (res: Result<(seq<Frame>, nat, bool)>)
      requires start <= |log|
      ensures var end := ChainEnd(r, log, start, previous, sequence);
              res == if end == |log| then Ok((Chain(r, log, start, previous, sequence), end, false))
                     else if FrameAt(r, log, end).CutShort? then Ok((Chain(r, log, start, previous, sequence), end, true))
                     else Err
    {
      hide FrameAt;
      NothingPastTheEnd(r, log);
      var offset, prev, next := start, previous, sequence;
      var frames := [];
      while offset < |log|
        invariant start <= offset <= |log|
        invariant frames + Chain(r, log, offset, prev, next) == Chain(r, log, start, previous, sequence)
        invariant ChainEnd(r, log, offset, prev, next) == ChainEnd(r, log, start, previous, sequence)
        decreases |log| - offset
      {
        var read := FrameAt(r, log, offset);
        if read.CutShort? {
          assert Chain(r, log, offset, prev, next) == [] && frames + [] == frames;
          return Ok((frames, offset, true));
        }
        if read.Corrupt? || !Links(read.frame, prev, next) {
          return Err;
        }
        frames := frames + [read.frame];
        offset, prev, next := read.frame.end, read.frame.hash, next + 1;
      }
      assert Chain(r, log, offset, prev, next) == [] && ChainEnd(r, log, offset, prev, next) == offset;
      assert frames + [] == frames;
      return Ok((frames, offset, false));
    }

    /** The last index record, after cutting a torn tail off the index; an error asks for a rebuild. */
    method PrepareIndex() returns (last: Result<Option<IndexRecord>>)
      modifies `index
      ensures if old(index).Slots? then index == Slots(old(index.slots), false) else index == old(index)
      ensures last == if !index.Slots? then Err
                      else if index.slots == [] then Ok(None)
                      else if index.slots[|index.slots| - 1].Damaged? then Err
                      else Ok(Some(index.slots[|index.slots| - 1].record))
    {
      if !index.Slots? {
        return Err;
      }
      index := Slots(index.slots, false);
      if index.slots == [] {
        return Ok(None);
      }
      var slot := index.slots[|index.slots| - 1];
      return if slot.Damaged? then Err else Ok(Some(slot.record));
    }

    method TruncateLog(len: nat)
      requires len <= |log|
      modifies `log, `stamp
      ensures log == old(log[..len])
      ensures stamp.device == old(stamp.device) && stamp.inode == old(stamp.inode)
    {
      WriteLog(log[..len]);
    }

    /** Rebuilds the index from the whole log, cutting a torn tail off the log. */
    method RebuildIndex() returns (ok: bool)
      modifies `log, `stamp, `index
      ensures ok <==> Refs.Intact(r, old(log))
      ensures ok ==> log == old(log[..FramesEnd(r, log)]) && Exact(index, Frames(r, old(log)))
      ensures !ok ==> log == old(log) && index == old(index)
    {
      hide FrameAt, Chain, ChainEnd;
      var read := ReadRecords(0, ZeroDigest(), 1);
      if read.Err? {
        return false;
      }
      var (frames, end, torn) := read.value;
      if torn {
        TruncateLog(end);
      }
      assert old(log)[..|old(log)|] == old(log);
      index := Slots(Entries(frames, stamp), false);
      ok := true;
    }

    /** Brings the index up to date with the log, trusting its last record only after checking it. */
    method EnsureIndex() returns (ok: bool)
      requires Refs.Intact(r, log) && Unambiguous(r, log)
      modifies `log, `stamp, `index
      ensures ok <==> !Stale(r, old(log), old(stamp), old(index))
      ensures ok ==> log == old(log[..FramesEnd(r, log)]) && LastIsRight(index, Frames(r, old(log)))
      ensures Exact(old(index), Frames(r, old(log))) ==> ok && Exact(index, Frames(r, old(log)))
      ensures ok ==> forall q: nat ::
                Locates(index.slots, Frames(r, old(log)), q) <==> Found(r, old(log), old(stamp), old(index), q)
      ensures !ok ==> log == old(log)
    {
      hide FrameAt, Chain, ChainEnd, Found, Locates;
      ghost var frames := Frames(r, log);
      ChainEndsAt(r, log, 0, ZeroDigest(), 1);
      var prepared := PrepareIndex();
      if old(index).Slots? {
        FoundIgnoresTear(r, log, stamp, old(index).slots, old(index).torn);
      }
      if prepared.Err? {
        ok := RebuildIndex();
        RebuiltLocates(r, old(log), old(stamp), old(index), index.slots);
        return;
      }
      if prepared.value.None? {
        if |log| == 0 {
          index := Slots([], false);
          EmptyLog(r);
          assert old(log)[..FramesEnd(r, old(log))] == log;
          RebuiltLocates(r, old(log), old(stamp), old(index), index.slots);
          return true;
        }
        ok := RebuildIndex();
        RebuiltLocates(r, old(log), old(stamp), old(index), index.slots);
        return;
      }
      var last := prepared.value.value;
      if frames != [] {
        ChainAt(r, log, 0, ZeroDigest(), 1, |frames| - 1);
      }
      if |log| < last.end || last.stamp.device != stamp.device || last.stamp.inode != stamp.inode {
        ok := RebuildIndex();
        RebuiltLocates(r, old(log), old(stamp), old(index), index.slots);
        return;
      }
      var read := FrameAt(r, log, last.start);
      if read.Corrupt? {
        return false;
      }
      if read.CutShort? || !Describes(last, read.frame) {
        ok := RebuildIndex();
        RebuiltLocates(r, old(log), old(stamp), old(index), index.slots);
        return;
      }
      ok := FollowLog(last, read.frame);
    }

    /** The last indexed frame is right: index what follows it. */
    method FollowLog(last: IndexRecord, frame: Frame) returns (ok: bool)
      requires Refs.Intact(r, log) && Unambiguous(r, log)
      requires FrameAt(r, log, last.start) == Good(frame) && Describes(last, frame)
      requires index.Slots? && !index.torn && index.slots != []
      requires index.slots[|index.slots| - 1] == Slot.Intact(last)
      requires last.end <= |log| && last.stamp.device == stamp.device && last.stamp.inode == stamp.inode
      modifies `log, `stamp, `index
      ensures ok
      ensures log == old(log[..FramesEnd(r, log)]) && LastIsRight(index, Frames(r, old(log)))
      ensures Exact(old(index), Frames(r, old(log))) ==> Exact(index, Frames(r, old(log)))
      ensures forall q: nat ::
                Locates(index.slots, Frames(r, old(log)), q) <==> Found(r, old(log), old(stamp), old(index), q)
    {
      hide FrameAt, Chain, ChainEnd, Found, Locates, Exact, LastIsRight;
      ghost var frames := Frames(r, log);
      ghost var k :| 0 <= k < |frames| && frames[k] == frame;
      ChainAt(r, log, 0, ZeroDigest(), 1, k);
      ChainEndsAt(r, log, 0, ZeroDigest(), 1);
      FramesOrdered(r, log, k, |frames| - 1);
      assert old(log)[..|old(log)|] == old(log);
      if |log| == last.end {
        assert k == |frames| - 1 by {
          if k < |frames| - 1 {
            FramesOrdered(r, log, |frames| - 1, |frames| - 1);
          }
        }
        if last.stamp != stamp {
          ok := RebuildIndex();
          ExactIsRight(index, frames);
          RebuiltLocates(r, old(log), old(stamp), old(index), index.slots);
          return;
        }
        assert index.slots[|index.slots| - 1 := Slot.Intact(IndexRecord(last.start, last.end, last.hash, stamp))]
            == index.slots;
        FollowedIndex(r, log, stamp, index, k, stamp);
        return true;
      }
      var read := ReadRecords(last.end, last.hash, frame.record.sequence + 1);
      if read.Err? {
        return false;
      }
      var (suffix, end, torn) := read.value;
      if torn {
        TruncateLog(end);
      }
      assert suffix == frames[k + 1..];
      if suffix == [] {
        index := Slots(index.slots[|index.slots| - 1 := Slot.Intact(IndexRecord(last.start, last.end, last.hash, stamp))],
                       false);
      } else {
        index := Slots(index.slots + Entries(suffix, stamp), false);
      }
      FollowedIndex(r, old(log), old(stamp), old(index), k, stamp);
      ok := true;
    }

    /** Reads the frames the entries point at; each must be the one its entry describes. */
    method DecodeEntries(entries: seq<Slot>, ghost m: nat) returns (res: Result<seq<Frame>>)
      requires Unambiguous(r, log)
      ensures res.Ok? ==>
                && |res.value| == |entries|
                && forall j | 0 <= j < |entries| ::
                     entries[j].Intact? && Describes(entries[j].record, res.value[j]) && res.value[j] in Frames(r, log)
      ensures m + |entries| == |Frames(r, log)| && AllDescribe(entries, Frames(r, log)[m..]) ==> res.Ok?
    {
      hide FrameAt, Chain, ChainEnd, Unambiguous;
      var decoded: seq<Frame> := [];
      var i := 0;
      while i < |entries|
        invariant 0 <= i <= |entries| && |decoded| == i
        invariant forall j | 0 <= j < i ::
                    && entries[j].Intact? && Describes(entries[j].record, decoded[j])
                    && decoded[j] in Frames(r, log)
      {
        if entries[i].Damaged? {
          return Err;
        }
        var read := FrameAt(r, log, entries[i].record.start);
        if !read.Good? || !Describes(entries[i].record, read.frame) {
          if m + |entries| == |Frames(r, log)| && AllDescribe(entries, Frames(r, log)[m..]) {
            ChainAt(r, log, 0, ZeroDigest(), 1, m + i);
          }
          return Err;
        }
        InFrames(r, log, entries[i].record.start);
        decoded := decoded + [read.frame];
        i := i + 1;
      }
      return Ok(decoded);
    }

    /** The newest records by way of the index; every frame is checked against the log and against its neighbour. */
    method ReadRecentIndexed(limit: nat) returns (res: Result<seq<RefRecord>>)
      requires limit > 0
      requires Unambiguous(r, log) && HashesDistinct(r, log)
      requires LastIsRight(index, Frames(r, log))
      ensures res.Ok? ==> res.value == Newest(Frames(r, log), limit)
      ensures Exact(index, Frames(r, log)) ==> res.Ok?
    {
      hide FrameAt, Chain, ChainEnd, Unambiguous, HashesDistinct, LastIsRight, Exact, Frames, Newest;
      IndexIsSlots(index, Frames(r, log));
      var count := |index.slots|;
      var take := if count < limit + 1 then count else limit + 1;
      var skip := if take > limit then 1 else 0;
      var from := count - take + skip;
      if skip == 1 && index.slots[from - 1].Damaged? {
        ExactHasNoDamage(index, Frames(r, log));
        return Err;
      }
      var read := DecodeEntries(index.slots[from..], from);
      ExactTail(index, Frames(r, log), from);
      if read.Err? {
        return Err;
      }
      var decoded := read.value;
      DecodedFacts(r, log, index, decoded, from);
      if decoded != [] {
        var expected := if skip == 1 then index.slots[from - 1].record.hash else ZeroDigest();
        if decoded[0].record.previous != expected {
          return Err;
        }
      }
      if exists j | 0 < j < |decoded| :: decoded[j].record.previous != decoded[j - 1].hash {
        return Err;
      }
      LinkedAreNewest(r, log, decoded, limit, skip == 1);
      return Ok(Newest(decoded, |decoded|));
    }

    /** The newest `limit` records, whatever the state of the index. */
    method Recent(limit: nat) returns (res: Result<seq<RefRecord>>)
      requires Refs.Intact(r, log) && Unambiguous(r, log) && HashesDistinct(r, log)
      modifies `log, `stamp, `index
      ensures res.Ok? <==> limit == 0 || !Stale(r, old(log), old(stamp), old(index))
      ensures res.Ok? ==> res.value == Newest(Frames(r, old(log)), limit)
    {
      hide FrameAt, Chain, ChainEnd, Stale;
      if limit == 0 {
        return Ok([]);
      }
      var ok := EnsureIndex();
      if !ok {
        return Err;
      }
      assert log == old(log)[..FramesEnd(r, old(log))];
      CutStaysReadable(r, old(log));
      res := ReadRecentIndexed(limit);
      if res.Err? {
        FramesOfCut(r, old(log));
        assert log[..|log|] == log;
        ok := RebuildIndex();
        res := ReadRecentIndexed(limit);
      }
    }

    /** The records with these sequence numbers; it succeeds exactly when the index is not stale and finds each of
        them. Where there is no log file yet, there are no records. */
    method RecordsAtSequences(sequences: seq<nat>, created: bool) returns (res: Result<seq<RefRecord>>)
      requires Refs.Intact(r, log) && Unambiguous(r, log)
      requires created || log == []
      modifies `log, `stamp, `index
      ensures !created ==> res == Ok([])
      ensures created ==>
                (res.Ok? <==>
                   || sequences == []
                   || (&& !Stale(r, old(log), old(stamp), old(index))
                       && forall i | 0 <= i < |sequences| :: Found(r, old(log), old(stamp), old(index), sequences[i])))
      ensures created && res.Ok? ==>
                && |res.value| == |sequences|
                && forall i | 0 <= i < |sequences| ::
                     && 0 < sequences[i] <= |Frames(r, old(log))|
                     && res.value[i] == Frames(r, old(log))[sequences[i] - 1].record
    {
      hide FrameAt, Chain, ChainEnd, Stale, Unambiguous, Found, Rebuilds, Refs.Intact;
      if sequences == [] || !created {
        return Ok([]);
      }
      var ok := EnsureIndex();
      if !ok {
        return Err;
      }
      assert log == old(log)[..FramesEnd(r, old(log))];
      FramesOfCut(r, old(log));
      ghost var frames := Frames(r, old(log));
      ghost var ensured := index;
      assert forall i | 0 <= i < |sequences| ::
          Found(r, old(log), old(stamp), old(index), sequences[i]) <==> Locates(index.slots, frames, sequences[i]);
      var records: seq<RefRecord> := [];
      var i := 0;
      while i < |sequences|
        invariant 0 <= i <= |sequences| && |records| == i
        invariant log == old(log)[..FramesEnd(r, old(log))] && index == ensured && index.Slots?
        invariant forall j | 0 <= j < i :: Locates(index.slots, frames, sequences[j])
        invariant forall j | 0 <= j < i ::
                    0 < sequences[j] <= |frames| && records[j] == frames[sequences[j] - 1].record
      {
        var sequence := sequences[i];
        if !(0 < sequence <= |index.slots|) || index.slots[sequence - 1].Damaged? {
          assert !Locates(index.slots, frames, sequence);
          return Err;
        }
        if sequence <= |frames| {
          ChainAt(r, log, 0, ZeroDigest(), 1, sequence - 1);
        }
        var entry := index.slots[sequence - 1].record;
        var read := FrameAt(r, log, entry.start);
        if !read.Good? || read.frame.record.sequence != sequence || !Describes(entry, read.frame) {
          assert !Locates(index.slots, frames, sequence);
          return Err;
        }
        CutReadsAlike(r, old(log), entry.start);
        ghost var k :| 0 <= k < |frames| && frames[k] == read.frame;
        ChainAt(r, old(log), 0, ZeroDigest(), 1, k);
        records := records + [read.frame.record];
        i := i + 1;
      }
      return Ok(records);
    }

    /** The newest frame, by way of the last index entry. */
    method LastFrame() returns (last: Option<Frame>)
      requires FramesEnd(r, log) == |log| && LastIsRight(index, Frames(r, log))
      ensures last == if Frames(r, log) == [] then None else Some(Frames(r, log)[|Frames(r, log)| - 1])
      ensures last.Some? ==> last.value.record.sequence == |Frames(r, log)|
    {
      hide FrameAt, Chain, ChainEnd;
      last := None;
      if index.slots != [] {
        ChainAt(r, log, 0, ZeroDigest(), 1, |Frames(r, log)| - 1);
        var read := FrameAt(r, log, index.slots[|index.slots| - 1].record.start);
        last := if read.Good? then Some(read.frame) else None;
      }
    }

    /** Appends a reference unless it is already the head; the new frame continues the chain. It fails only over a
        stale index or a record that is too large. */
    method Append(snapshot: Digest, sealedAt: int, name: Option<string>, trigger: string)
      returns (res: Result<RefRecord>)
      requires Refs.Intact(r, log) && Unambiguous(r, log) && r.codec.Lossless()
      modifies `log, `stamp, `index
      ensures res.Err? ==> Frames(r, log) == Frames(r, old(log))
      ensures var frames := Frames(r, old(log));
              var head := frames != [] && frames[|frames| - 1].record.snapshot == snapshot;
              var record := RefRecord(|frames| + 1, snapshot, sealedAt, name, trigger,
                                      if frames == [] then ZeroDigest() else frames[|frames| - 1].hash);
              res.Err? <==>
                Stale(r, old(log), old(stamp), old(index)) || (!head && MAX_RECORD < |r.codec.encode(record)|)
      ensures res.Ok? ==>
                var frames := Frames(r, old(log));
                var kept := old(log)[..FramesEnd(r, old(log))];
                var head := frames != [] && frames[|frames| - 1].record.snapshot == snapshot;
                var record := RefRecord(|frames| + 1, snapshot, sealedAt, name, trigger,
                                        if frames == [] then ZeroDigest() else frames[|frames| - 1].hash);
                && FramesEnd(r, log) == |log|
                && LastIsRight(index, Frames(r, log))
                && (if head then res.value == frames[|frames| - 1].record && log == kept
                    else
                      && res.value == record
                      && log == kept + EncodeFrame(r, record)
                      && Frames(r, log)
                         == frames + [Frame(record, r.h(EncodeFrame(r, record)), |kept|, |log|)])
    {
      hide FrameAt, Chain, ChainEnd, Stale, EncodeFrame, Found, Locates, Rebuilds, Exact;
      ghost var frames := Frames(r, log);
      var ok := EnsureIndex();
      if !ok {
        return Err;
      }
      FramesOfCut(r, old(log));
      assert log == old(log)[..FramesEnd(r, old(log))];
      var last := LastFrame();
      if last.Some? && last.value.record.snapshot == snapshot {
        return Ok(last.value.record);
      }
      var record := RefRecord(
        if last.Some? then last.value.record.sequence + 1 else 1, snapshot, sealedAt, name, trigger,
        if last.Some? then last.value.hash else ZeroDigest());
      if MAX_RECORD < |r.codec.encode(record)| {
        return Err;
      }
      var start := |log|;
      var bytes := EncodeFrame(r, record);
      ChainAppend(r, log, 0, ZeroDigest(), 1, record);
      WriteLog(log + bytes);
      index := Slots(index.slots + [Slot.Intact(IndexRecord(start, |log|, r.h(bytes), stamp))], false);
      return Ok(record);
    }

    /** After power loss: drops the suffix past the durable boundary that is torn, unchained or no longer present. */
    method Repair(durable: nat, present: set<Digest>) returns (repaired: Result<bool>)
      modifies `log, `stamp, `index
      ensures match RepairSuffix(r, old(log), durable, present)
              case Err => repaired == Err && log == old(log) && index == old(index)
              case Ok(kept) =>
                && log == kept
                && repaired == Ok(|kept| < |old(log)|)
                && (repaired == Ok(true) ==>
                      var frames := Frames(r, old(log));
                      Exact(index, frames[..Keep(r, frames, durable, present)]))
                && (repaired == Ok(false) ==> index == old(index))
    {
      hide FrameAt, Chain, Keep;
      if |log| < durable {
        return Err;
      }
      ghost var frames := Frames(r, log);
      var records := KeptFrames(durable, present);
      var offset := if records == [] then 0 else records[|records| - 1].end;
      assert offset == KeptEnd(frames, |records|);
      assert offset <= |log| by {
        if records != [] {
          FramesOrdered(r, log, |records| - 1, |records| - 1);
        }
      }
      if offset < |log| {
        if offset < durable {
          return Err;
        }
        TruncateLog(offset);
        index := Slots(Entries(records, stamp), false);
        return Ok(true);
      }
      assert log[..offset] == log;
      return Ok(false);
    }

    /** The loop of `repair_suffix`: the frames that may stay. */
    method KeptFrames(durable: nat, present: set<Digest>) returns (records: seq<Frame>)
      ensures records == Frames(r, log)[..Keep(r, Frames(r, log), durable, present)]
    {
      hide FrameAt, Chain, Keep;
      var offset, previous, sequence := 0, ZeroDigest(), 1;
      records := [];
      while offset < |log|
        invariant offset <= |log|
        invariant KeepsFirst(r, log, durable, present, records, offset, previous, sequence)
        decreases |log| - offset
      {
        var read := FrameAt(r, log, offset);
        var valid := read.Good? && Links(read.frame, previous, sequence)
                     && (offset < durable || read.frame.record.snapshot in present);
        KeepStep(r, log, durable, present, records, offset, previous, sequence);
        if !valid {
          return;
        }
        records := records + [read.frame];
        offset, previous, sequence := read.frame.end, read.frame.hash, sequence + 1;
      }
      KeepStep(r, log, durable, present, records, offset, previous, sequence);
      NothingPastTheEnd(r, log);
    }
  }

  /** The loop invariant of the repair scan: `records` are the kept frames before `offset`. */
  ghost predicate KeepsFirst(r: Reader, log: seq<byte>, durable: nat, present: set<Digest>, records: seq<Frame>,
                             offset: nat, previous: Digest, sequence: nat)
  {
    var rest := Chain(r, log, offset, previous, sequence);
    && Frames(r, log) == records + rest
    && Keep(r, Frames(r, log), durable, present) == |records| + Keep(r, rest, durable, present)
  }

  lemma FoundIgnoresTear(r: Reader, log: seq<byte>, stamp: Stamp, slots: seq<Slot>, torn: bool)
    ensures forall q: nat ::
              Found(r, log, stamp, Slots(slots, torn), q) <==> Found(r, log, stamp, Slots(slots, false), q)
    ensures Rebuilds(r, log, stamp, Slots(slots, torn)) <==> Rebuilds(r, log, stamp, Slots(slots, false))
  {
    hide FrameAt, Chain;
  }

  lemma RebuiltLocates(r: Reader, log: seq<byte>, stamp: Stamp, index: Index, slots: seq<Slot>)
    requires Rebuilds(r, log, stamp, index) && Exact(Slots(slots, false), Frames(r, log))
    ensures forall q: nat :: Locates(slots, Frames(r, log), q) <==> Found(r, log, stamp, index, q)
  {
    hide FrameAt, Chain;
  }

  /** Slots followed from a right last one: the frames after it stand where their numbers say exactly when it does. */
  lemma FollowedLocates(r: Reader, log: seq<byte>, stamp: Stamp, index: Index, k: nat, slots: seq<Slot>, now: Stamp)
    requires !Rebuilds(r, log, stamp, index) && k < |Frames(r, log)|
    requires index.Slots? && index.slots != [] && index.slots[|index.slots| - 1].Intact?
    requires Describes(index.slots[|index.slots| - 1].record, Frames(r, log)[k])
    requires |index.slots| <= |slots| && slots[|index.slots|..] == Entries(Frames(r, log)[k + 1..], now)
    requires forall i | 0 <= i < |index.slots| :: SameEntry(slots[i], index.slots[i])
    ensures forall q: nat :: Locates(slots, Frames(r, log), q) <==> Found(r, log, stamp, index, q)
  {
    hide FrameAt, Chain, Rebuilds, Describes, SameEntry, Locates, Found;
    var frames, n := Frames(r, log), |index.slots|;
    assert |slots| == n + (|frames| - k - 1) by { assert |slots[n..]| == |frames[k + 1..]|; }
    forall q: nat
      ensures Locates(slots, frames, q) <==> Found(r, log, stamp, index, q)
    {
      if n < q <= |slots| {
        assert slots[q - 1] == slots[n..][q - 1 - n];
        FollowedEntry(slots[q - 1], frames[k + q - n], now);
      }
      FollowedLocate(r, log, stamp, index, k, slots, q);
    }
  }

  /** What an index record says of a frame, apart from the times it was written at. */
  predicate SameEntry(a: Slot, b: Slot) {
    && (a.Intact? <==> b.Intact?)
    && (a.Intact? ==> a.record.start == b.record.start && a.record.end == b.record.end && a.record.hash == b.record.hash)
  }

  lemma FollowedEntry(slot: Slot, frame: Frame, now: Stamp)
    requires slot == Slot.Intact(Entry(frame, now))
    ensures slot.Intact? && Describes(slot.record, frame)
  {
  }

  lemma FollowedLocate(r: Reader, log: seq<byte>, stamp: Stamp, index: Index, k: nat, slots: seq<Slot>, q: nat)
    requires !Rebuilds(r, log, stamp, index) && k < |Frames(r, log)|
    requires index.Slots? && index.slots != [] && index.slots[|index.slots| - 1].Intact?
    requires Describes(index.slots[|index.slots| - 1].record, Frames(r, log)[k])
    requires |slots| == |index.slots| + (|Frames(r, log)| - k - 1)
    requires forall i | 0 <= i < |index.slots| :: SameEntry(slots[i], index.slots[i])
    requires |index.slots| < q <= |slots| ==>
               slots[q - 1].Intact? && Describes(slots[q - 1].record, Frames(r, log)[k + q - |index.slots|])
    ensures Locates(slots, Frames(r, log), q) <==> Found(r, log, stamp, index, q)
  {
    hide FrameAt, Chain, Rebuilds;
    var frames, n := Frames(r, log), |index.slots|;
    if n < q <= |frames| && k + 1 != n {
      if q <= |slots| {
        DistinctStarts(r, log, k + q - n, q - 1);
      }
      if n <= |frames| {
        DistinctStarts(r, log, k, n - 1);
      }
    }
  }

  lemma ExactIsRight(index: Index, frames: seq<Frame>)
    requires Exact(index, frames)
    ensures LastIsRight(index, frames) && index == Slots(index.slots, false)
  {
  }

  /** The slots after following the log from a right last one. */
  function Followed(slots: seq<Slot>, suffix: seq<Frame>, now: Stamp): seq<Slot>
    requires slots != [] && slots[|slots| - 1].Intact?
  {
    var last := slots[|slots| - 1].record;
    if suffix == [] then slots[|slots| - 1 := Slot.Intact(IndexRecord(last.start, last.end, last.hash, now))]
    else slots + Entries(suffix, now)
  }

  lemma FollowedIndex(r: Reader, log: seq<byte>, stamp: Stamp, index: Index, k: nat, now: Stamp)
    requires !Rebuilds(r, log, stamp, index) && k < |Frames(r, log)|
    requires index.Slots? && index.slots != [] && index.slots[|index.slots| - 1].Intact?
    requires Describes(index.slots[|index.slots| - 1].record, Frames(r, log)[k])
    ensures var followed := Slots(Followed(index.slots, Frames(r, log)[k + 1..], now), false);
            && LastIsRight(followed, Frames(r, log))
            && (Exact(index, Frames(r, log)) ==> Exact(followed, Frames(r, log)))
            && forall q: nat :: Locates(followed.slots, Frames(r, log), q) <==> Found(r, log, stamp, index, q)
  {
    hide FrameAt, Chain, Rebuilds, Found, Locates;
    var frames := Frames(r, log);
    var slots := Followed(index.slots, frames[k + 1..], now);
    assert slots[|index.slots|..] == Entries(frames[k + 1..], now);
    FollowedLocates(r, log, stamp, index, k, slots, now);
    if Exact(index, frames) {
      if k != |frames| - 1 {
        DistinctStarts(r, log, k, |frames| - 1);
      }
    }
  }

  lemma DistinctStarts(r: Reader, log: seq<byte>, i: nat, j: nat)
    requires i < |Frames(r, log)| && j < |Frames(r, log)| && i != j
    ensures Frames(r, log)[i].start != Frames(r, log)[j].start
  {
    hide FrameAt, Chain;
    if i < j {
      FramesOrdered(r, log, i, j);
    } else {
      FramesOrdered(r, log, j, i);
    }
  }

  lemma KeepStep(r: Reader, log: seq<byte>, durable: nat, present: set<Digest>, records: seq<Frame>,
                 offset: nat, previous: Digest, sequence: nat)
    requires offset <= |log|
    requires KeepsFirst(r, log, durable, present, records, offset, previous, sequence)
    ensures var read := FrameAt(r, log, offset);
            if read.Good? && Links(read.frame, previous, sequence)
               && (offset < durable || read.frame.record.snapshot in present)
            then KeepsFirst(r, log, durable, present, records + [read.frame],
                            read.frame.end, read.frame.hash, sequence + 1)
            else records == Frames(r, log)[..Keep(r, Frames(r, log), durable, present)]
  {
    hide FrameAt;
    var rest := Chain(r, log, offset, previous, sequence);
    if rest != [] {
      assert rest[1..] == Chain(r, log, rest[0].end, rest[0].hash, sequence + 1);
      assert records + rest == records + [rest[0]] + rest[1..];
    }
    assert (records + rest)[..|records|] == records;
  }

  lemma IndexIsSlots(index: Index, frames: seq<Frame>)
    requires LastIsRight(index, frames)
    ensures index.Slots?
  {
  }

  lemma ExactHasNoDamage(index: Index, frames: seq<Frame>)
    ensures Exact(index, frames) ==> forall i | 0 <= i < |index.slots| :: index.slots[i].Intact?
  {
  }

  lemma DecodedFacts(r: Reader, log: seq<byte>, index: Index, decoded: seq<Frame>, from: nat)
    requires LastIsRight(index, Frames(r, log))
    requires from <= |index.slots| && (from < |index.slots| || index.slots == [])
    requires |decoded| == |index.slots[from..]|
    requires forall j | 0 <= j < |decoded| ::
               && index.slots[from..][j].Intact? && Describes(index.slots[from..][j].record, decoded[j])
               && decoded[j] in Frames(r, log)
    ensures if Frames(r, log) == [] then decoded == []
            else decoded != [] && decoded[|decoded| - 1] == Frames(r, log)[|Frames(r, log)| - 1]
    ensures Exact(index, Frames(r, log)) ==>
              && (forall j | 0 < j < |decoded| :: decoded[j].record.previous == decoded[j - 1].hash)
              && (decoded != [] ==>
                    decoded[0].record.previous
                    == if from == 0 then ZeroDigest() else index.slots[from - 1].record.hash)
  {
    hide FrameAt, Chain, Frames;
    assert forall j | 0 <= j < |decoded| :: index.slots[from..][j] == index.slots[from + j];
    LastDecoded(r, log, index, decoded, from);
    if Exact(index, Frames(r, log)) {
      ExactLinks(r, log, index, decoded, from);
    }
  }

  ghost predicate AllDescribe(entries: seq<Slot>, frames: seq<Frame>) {
    && |entries| == |frames|
    && forall j | 0 <= j < |entries| :: entries[j].Intact? && Describes(entries[j].record, frames[j])
  }

  lemma ExactTail(index: Index, frames: seq<Frame>, m: nat)
    requires index.Slots? && m <= |index.slots|
    ensures Exact(index, frames) ==>
              && m + |index.slots[m..]| == |frames|
              && AllDescribe(index.slots[m..], frames[m..])
  {
  }

  /** The tail entries end with the last frame. */
  lemma LastDecoded(r: Reader, log: seq<byte>, index: Index, decoded: seq<Frame>, from: nat)
    requires LastIsRight(index, Frames(r, log))
    requires from <= |index.slots| && (from < |index.slots| || index.slots == [])
    requires from + |decoded| == |index.slots|
    requires forall j | 0 <= j < |decoded| ::
               && index.slots[from + j].Intact? && Describes(index.slots[from + j].record, decoded[j])
               && decoded[j] in Frames(r, log)
    ensures if Frames(r, log) == [] then decoded == []
            else decoded != [] && decoded[|decoded| - 1] == Frames(r, log)[|Frames(r, log)| - 1]
  {
    hide FrameAt, Chain;
    var frames := Frames(r, log);
    if frames != [] {
      var last := decoded[|decoded| - 1];
      var j :| 0 <= j < |frames| && frames[j] == last;
      FramesOrdered(r, log, j, |frames| - 1);
      FramesOrdered(r, log, |frames| - 1, |frames| - 1);
    }
  }

  /** Under an exact index the decoded frames are the tail of the chain, so they link. */
  lemma ExactLinks(r: Reader, log: seq<byte>, index: Index, decoded: seq<Frame>, m: nat)
    requires Exact(index, Frames(r, log)) && m + |decoded| == |Frames(r, log)|
    requires forall j | 0 <= j < |decoded| ::
               Describes(index.slots[m + j].record, decoded[j]) && decoded[j] in Frames(r, log)
    ensures forall j | 0 < j < |decoded| :: decoded[j].record.previous == decoded[j - 1].hash
    ensures decoded != [] ==>
              decoded[0].record.previous == if m == 0 then ZeroDigest() else index.slots[m - 1].record.hash
  {
    hide FrameAt, Chain;
    var frames := Frames(r, log);
    forall j | 0 <= j < |decoded|
      ensures decoded[j] == frames[m + j]
      ensures decoded[j].record.previous == if m + j == 0 then ZeroDigest() else frames[m + j - 1].hash
    {
      var k :| 0 <= k < |frames| && frames[k] == decoded[j];
      if k < m + j {
        FramesOrdered(r, log, k, m + j);
      } else if m + j < k {
        FramesOrdered(r, log, m + j, k);
      }
      ChainAt(r, log, 0, ZeroDigest(), 1, m + j);
    }
  }

  lemma EmptyLog(r: Reader)
    ensures Frames(r, []) == []
  {
    NothingPastTheEnd(r, []);
  }

  lemma InFrames(r: Reader, log: seq<byte>, at: nat)
    requires Unambiguous(r, log) && FrameAt(r, log, at).Good?
    ensures FrameAt(r, log, at).frame in Frames(r, log)
  {
  }

  /** A frame read from a log cut after its complete records is one the whole log has there. */
  lemma CutReadsAlike(r: Reader, log: seq<byte>, at: nat)
    requires Unambiguous(r, log)
    requires FrameAt(r, log[..FramesEnd(r, log)], at).Good?
    ensures FrameAt(r, log, at) == FrameAt(r, log[..FramesEnd(r, log)], at)
    ensures FrameAt(r, log, at).frame in Frames(r, log)
  {
    hide FrameAt, Chain, ChainEnd;
    var cut := log[..FramesEnd(r, log)];
    SliceOfPrefix(log, FramesEnd(r, log), at, FrameAt(r, cut, at).frame.end);
    FrameIsLocal(r, cut, log, at);
  }

  lemma CutStaysReadable(r: Reader, log: seq<byte>)
    requires Unambiguous(r, log) && HashesDistinct(r, log)
    ensures var cut := log[..FramesEnd(r, log)];
            && Frames(r, cut) == Frames(r, log)
            && Unambiguous(r, cut) && HashesDistinct(r, cut)
  {
    FramesOfCut(r, log);
    hide FrameAt, Chain, ChainEnd;
    var cut := log[..FramesEnd(r, log)];
    forall at: nat | FrameAt(r, cut, at).Good?
      ensures FrameAt(r, cut, at).frame in Frames(r, cut)
    {
      CutReadsAlike(r, log, at);
    }
  }

  lemma LinkedAreNewest(r: Reader, log: seq<byte>, d: seq<Frame>, limit: nat, skipped: bool)
    requires HashesDistinct(r, log)
    requires forall j | 0 <= j < |d| :: d[j] in Frames(r, log)
    requires if Frames(r, log) == [] then d == [] else d != [] && d[|d| - 1] == Frames(r, log)[|Frames(r, log)| - 1]
    requires forall j | 0 < j < |d| :: d[j].record.previous == d[j - 1].hash
    requires |d| <= limit && (skipped ==> |d| == limit)
    requires d != [] && !skipped ==> d[0].record.previous == ZeroDigest()
    ensures Newest(d, |d|) == Newest(Frames(r, log), limit)
  {
    hide Chain, FrameAt, HashesDistinct, Newest;
    var frames := Frames(r, log);
    forall i | 0 <= i < |d|
      ensures |d| - i <= |frames| && d[i] == frames[|frames| - (|d| - i)]
    {
      LinkedIsSuffix(r, log, d, i);
    }
    if d != [] && !skipped {
      var k := |frames| - |d|;
      ChainAt(r, log, 0, ZeroDigest(), 1, k);
      NoZeroHash(r, log);
      assert k == 0;
    }
    assert Newest(d, |d|) == Newest(frames, limit);
  }

  lemma NoZeroHash(r: Reader, log: seq<byte>)
    requires HashesDistinct(r, log)
    ensures forall i | 0 <= i < |Frames(r, log)| :: Frames(r, log)[i].hash != ZeroDigest()
  {
  }

  /**
    * Validation is not complete: an intact one-record log and an index entry that is off by one byte fail the
    * head lookup, although a rebuild would have succeeded.
    */
  lemma StaleIndexWitness(r: Reader, record: RefRecord, stamp: Stamp)
    requires r.codec.Lossless() && |r.codec.encode(record)| <= MAX_RECORD
    requires record.sequence == 1 && record.previous == ZeroDigest()
    ensures var log := EncodeFrame(r, record);
            var index := Slots([Slot.Intact(IndexRecord(1, |log|, ZeroDigest(), stamp))], false);
            && |Frames(r, log)| == 1 && Refs.Intact(r, log) && FramesEnd(r, log) == |log|
            && Stale(r, log, stamp, index)
  {
    var log := EncodeFrame(r, record);
    NothingPastTheEnd(r, []);
    assert [] + log == log;
    ChainAppend(r, [], 0, ZeroDigest(), 1, record);
    hide EncodeLE;
    assert log[1..][0..4][0] == log[1] == MAGIC[1];
  }

  // ---- sampling a log for a frontier ----

  lemma {:induction false} KeepsAll(r: Reader, frames: seq<Frame>, durable: nat, present: set<Digest>)
    requires forall i | 0 <= i < |frames| :: frames[i].start < durable
    ensures Keep(r, frames, durable, present) == |frames|
  {
    if frames != [] {
      KeepsAll(r, frames[1..], durable, present);
    }
  }

  /**
    * A group commit samples the length of the file, not of its frames. A log sampled that way reopens exactly when
    * its frames fill it: over a torn frame the frontier vouches for bytes that no repair can keep, and trimming
    * the torn frame first does not help.
    */
  lemma SampledLengthReopensIff(r: Reader, log: seq<byte>, present: set<Digest>)
    ensures RepairSuffix(r, log, |log|, present).Ok? <==> FramesEnd(r, log) == |log|
    ensures FramesEnd(r, log) <= |log|
    ensures RepairSuffix(r, log[..FramesEnd(r, log)], |log|, present).Ok? ==> FramesEnd(r, log) == |log|
  {
    hide FrameAt, Chain, ChainEnd;
    var frames := Frames(r, log);
    forall i | 0 <= i < |frames| ensures frames[i].start < |log| {
      FramesOrdered(r, log, i, i);
    }
    KeepsAll(r, frames, |log|, present);
    ChainEndsAt(r, log, 0, ZeroDigest(), 1);
  }
}
