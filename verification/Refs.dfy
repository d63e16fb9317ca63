/** The hash-chained reference log of a workspace and its advisory reverse index. */
module Refs {
  import opened Bytes

  const MAGIC: seq<byte> := [0x41, 0x47, 0x52, 0x46]
  const MAX_RECORD: nat := 1024 * 1024
  const PREFIX_LEN: nat := 40

  datatype RefRecord = RefRecord(
    sequence: nat, snapshot: Digest, sealedAt: int, name: Option<string>, trigger: string, previous: Digest)

  /** The JSON form of a record. */
  datatype Codec = Codec(encode: RefRecord -> seq<byte>, decode: seq<byte> -> Option<RefRecord>) {
    ghost predicate Lossless() {
      forall r :: decode(encode(r)) == Some(r)
    }
  }

  /** What a log is read with: the hash and the record codec. */
  datatype Reader = Reader(h: Hasher, codec: Codec)

  datatype Frame = Frame(record: RefRecord, hash: Digest, start: nat, end: nat)

  datatype FrameRead = Good(frame: Frame) | CutShort | Corrupt

  function EncodeFrame(r: Reader, record: RefRecord): seq<byte> {
    var payload := r.codec.encode(record);
    MAGIC + EncodeLE(|payload|, 4) + r.h(payload) + payload
  }

  /** The length and checksum in front of a payload, or why they cannot be read. */
  datatype Prefix = Fields(len: nat, checksum: Digest) | PrefixCut | PrefixCorrupt

  function ReadPrefix(rest: seq<byte>): (p: Prefix)
    ensures p.Fields? ==> PREFIX_LEN <= |rest| && p.len <= MAX_RECORD
  {
    if |rest| < 4 then PrefixCut
    else if rest[0..4] != MAGIC then PrefixCorrupt
    else if |rest| < 8 then PrefixCut
    else if DecodeLE(rest[4..8]) > MAX_RECORD then PrefixCorrupt
    else if |rest| < PREFIX_LEN then PrefixCut
    else Fields(DecodeLE(rest[4..8]), rest[8..40])
  }

  function FrameAt(r: Reader, log: seq<byte>, at: nat): (f: FrameRead)
    ensures f.Good? ==> f.frame.start == at && at + PREFIX_LEN <= f.frame.end <= |log|
  {
    if |log| <= at then CutShort
    else
      match ReadPrefix(log[at..])
      case PrefixCut => CutShort
      case PrefixCorrupt => Corrupt
      case Fields(len, checksum) =>
        var start := at + PREFIX_LEN;
        if |log| < start + len then CutShort
        else
          var payload := log[start..start + len];
          if r.h(payload) != checksum then Corrupt
          else
            match r.codec.decode(payload)
            case None => Corrupt
            case Some(record) => Good(Frame(record, r.h(log[at..start + len]), at, start + len))
  }

  // ---- the chain ----

  predicate Links(frame: Frame, previous: Digest, sequence: nat) {
    frame.record.previous == previous && frame.record.sequence == sequence
  }

  /** The frames from `at` on that continue the chain. */
  function Chain(r: Reader, log: seq<byte>, at: nat, previous: Digest, sequence: nat): (frames: seq<Frame>)
    decreases |log| - at
  {
    match FrameAt(r, log, at)
    case Good(frame) =>
      if Links(frame, previous, sequence) then [frame] + Chain(r, log, frame.end, frame.hash, sequence + 1) else []
    case _ => []
  }

  /** Where the chain stops. */
  function ChainEnd(r: Reader, log: seq<byte>, at: nat, previous: Digest, sequence: nat): (end: nat)
    requires at <= |log|
    ensures at <= end <= |log|
    decreases |log| - at
  {
    match FrameAt(r, log, at)
    case Good(frame) =>
      if Links(frame, previous, sequence) then ChainEnd(r, log, frame.end, frame.hash, sequence + 1) else at
    case _ => at
  }

  /** The complete records of a log. */
  function Frames(r: Reader, log: seq<byte>): seq<Frame> {
    Chain(r, log, 0, ZeroDigest(), 1)
  }

  function FramesEnd(r: Reader, log: seq<byte>): (end: nat)
    ensures end <= |log|
  {
    ChainEnd(r, log, 0, ZeroDigest(), 1)
  }

  /** The log up to its last complete record: what a lookup or an append leaves of it. */
  function Complete(r: Reader, log: seq<byte>): seq<byte> {
    log[..FramesEnd(r, log)]
  }

  /** After its complete records a log may end, or end in a torn frame: nothing else counts as intact. */
  predicate Intact(r: Reader, log: seq<byte>) {
    FramesEnd(r, log) == |log| || FrameAt(r, log, FramesEnd(r, log)).CutShort?
  }

  /** Nothing inside a frame reads as a frame of its own. */
  ghost predicate Unambiguous(r: Reader, log: seq<byte>) {
    forall at: nat :: FrameAt(r, log, at).Good? ==> FrameAt(r, log, at).frame in Frames(r, log)
  }

  /** No hash collision among the frames of this log, and none hashes to the genesis value. */
  ghost predicate HashesDistinct(r: Reader, log: seq<byte>) {
    && (forall i, j | 0 <= i < j < |Frames(r, log)| :: Frames(r, log)[i].hash != Frames(r, log)[j].hash)
    && (forall i | 0 <= i < |Frames(r, log)| :: Frames(r, log)[i].hash != ZeroDigest())
  }

  /** Newest first, at most `limit`. */
  function Newest(frames: seq<Frame>, limit: nat): (rs: seq<RefRecord>)
    ensures |rs| == if limit < |frames| then limit else |frames|
    ensures forall i | 0 <= i < |rs| :: rs[i] == frames[|frames| - 1 - i].record
  {
    var n := if limit < |frames| then limit else |frames|;
    seq(n, i requires 0 <= i < n => frames[|frames| - 1 - i].record)
  }

  // ---- facts about frames ----

  lemma PrefixOf(len: nat, checksum: Digest, rest: seq<byte>)
    requires len <= MAX_RECORD
    requires MAGIC + EncodeLE(len, 4) + checksum <= rest
    ensures ReadPrefix(rest) == Fields(len, checksum)
  {
    var p := MAGIC + EncodeLE(len, 4) + checksum;
    assert p == MAGIC + EncodeLE(len, 4) + checksum + [] + [];
    JoinOfFive(MAGIC, EncodeLE(len, 4), checksum, [], []);
    Pow256Eight();
    DecodeEncodeLE(len, 4);
    hide EncodeLE, DecodeLE;
    assert rest[0..4] == p[0..4] && rest[4..8] == p[4..8] && rest[8..40] == p[8..40];
  }

  /** The frame format, byte by byte. */
  lemma FrameIs(r: Reader, record: RefRecord)
    ensures var payload := r.codec.encode(record);
            EncodeFrame(r, record) == Ascii("AGRF") + EncodeLE(|payload|, 4) + r.h(payload) + payload
  {
    hide EncodeLE;
    assert Ascii("AGRF") == MAGIC;
  }

  /** A frame written anywhere reads back there. */
  lemma FrameReadsBack(r: Reader, before: seq<byte>, record: RefRecord, after: seq<byte>)
    requires r.codec.Lossless() && |r.codec.encode(record)| <= MAX_RECORD
    ensures var bytes := EncodeFrame(r, record);
            FrameAt(r, before + bytes + after, |before|)
            == Good(Frame(record, r.h(bytes), |before|, |before| + |bytes|))
  {
    var payload := r.codec.encode(record);
    var head := MAGIC + EncodeLE(|payload|, 4) + r.h(payload);
    var bytes := head + payload + [];
    var log := before + bytes + after;
    assert bytes == EncodeFrame(r, record);
    JoinBetween(before, head, payload, [], after);
    PrefixOf(|payload|, r.h(payload), log[|before|..]);
    hide ReadPrefix, EncodeLE, EncodeFrame;
    assert log[|before|..|before| + |bytes|] == bytes;
  }

  /** Reading a frame depends only on its own bytes. */
  lemma FrameIsLocal(r: Reader, log: seq<byte>, other: seq<byte>, at: nat)
    requires FrameAt(r, log, at).Good?
    requires var end := FrameAt(r, log, at).frame.end;
             end <= |other| && other[at..end] == log[at..end]
    ensures FrameAt(r, other, at) == FrameAt(r, log, at)
  {
    var end := FrameAt(r, log, at).frame.end;
    FrontOfSlice(log, at, end, PREFIX_LEN);
    FrontOfSlice(other, at, end, PREFIX_LEN);
    PrefixIsLocal(log[at..], other[at..]);
    hide ReadPrefix;
  }

  lemma PrefixIsLocal(rest: seq<byte>, other: seq<byte>)
    requires ReadPrefix(rest).Fields?
    requires PREFIX_LEN <= |other| && other[..PREFIX_LEN] == rest[..PREFIX_LEN]
    ensures ReadPrefix(other) == ReadPrefix(rest)
  {
    hide DecodeLE;
    SliceOfPrefix(rest, PREFIX_LEN, 0, 4);
    SliceOfPrefix(other, PREFIX_LEN, 0, 4);
    SliceOfPrefix(rest, PREFIX_LEN, 4, 8);
    SliceOfPrefix(other, PREFIX_LEN, 4, 8);
    SliceOfPrefix(rest, PREFIX_LEN, 8, 40);
    SliceOfPrefix(other, PREFIX_LEN, 8, 40);
  }

  // ---- facts about the chain ----

  /** The i-th frame of a chain: where it is, and what the chain is from there on. */
  lemma {:induction false} ChainAt(r: Reader, log: seq<byte>, at: nat, previous: Digest, sequence: nat, i: nat)
    requires at <= |log|
    requires i < |Chain(r, log, at, previous, sequence)|
    ensures var frames := Chain(r, log, at, previous, sequence);
            && FrameAt(r, log, frames[i].start) == Good(frames[i])
            && frames[i].start == (if i == 0 then at else frames[i - 1].end)
            && Links(frames[i], if i == 0 then previous else frames[i - 1].hash, sequence + i)
            && Chain(r, log, frames[i].end, frames[i].hash, sequence + i + 1) == frames[i + 1..]
            && ChainEnd(r, log, frames[i].end, frames[i].hash, sequence + i + 1)
               == ChainEnd(r, log, at, previous, sequence)
    decreases i
  {
    hide FrameAt;
    var frames := Chain(r, log, at, previous, sequence);
    var first := FrameAt(r, log, at).frame;
    if i > 0 {
      var rest := Chain(r, log, first.end, first.hash, sequence + 1);
      assert frames == [first] + rest;
      ChainAt(r, log, first.end, first.hash, sequence + 1, i - 1);
      assert frames[i] == rest[i - 1] && frames[i + 1..] == rest[i..];
    }
  }

  /** Whatever reads as a frame is one: magic, length and checksum of a payload that decodes to its record. */
  lemma FrameIsWritten(r: Reader, log: seq<byte>, at: nat)
    requires FrameAt(r, log, at).Good?
    ensures var f := FrameAt(r, log, at).frame;
            && f.start == at && at + PREFIX_LEN <= f.end <= |log|
            && var payload := log[at + PREFIX_LEN..f.end];
            && |payload| <= MAX_RECORD && r.codec.decode(payload) == Some(f.record)
            && log[at..f.end] == MAGIC + EncodeLE(|payload|, 4) + r.h(payload) + payload
            && f.hash == r.h(log[at..f.end])
  {
    var f := FrameAt(r, log, at).frame;
    GoodParts(r, log, at);
    FrontOfSlice(log, at, f.end, PREFIX_LEN);
    PrefixIsWritten(log[at..]);
    hide FrameAt, EncodeLE, DecodeLE, ReadPrefix;
    assert log[at..f.end] == log[at..f.end][..PREFIX_LEN] + log[at..f.end][PREFIX_LEN..];
  }

  lemma GoodParts(r: Reader, log: seq<byte>, at: nat)
    requires FrameAt(r, log, at).Good?
    ensures var f := FrameAt(r, log, at).frame;
            && f.start == at && at + PREFIX_LEN <= f.end <= |log|
            && var payload := log[at + PREFIX_LEN..f.end];
            && |payload| <= MAX_RECORD && r.codec.decode(payload) == Some(f.record)
            && ReadPrefix(log[at..]) == Fields(|payload|, r.h(payload)) && f.hash == r.h(log[at..f.end])
  {
    hide ReadPrefix;
  }

  lemma PrefixIsWritten(rest: seq<byte>)
    requires ReadPrefix(rest).Fields?
    ensures rest[..PREFIX_LEN] == MAGIC + EncodeLE(ReadPrefix(rest).len, 4) + ReadPrefix(rest).checksum
  {
    EncodeDecodeLE(rest[4..8]);
    hide EncodeLE, DecodeLE;
    Glue(rest, 0, 4, 8);
    Glue(rest, 0, 8, 40);
    assert rest[..PREFIX_LEN] == rest[0..40];
  }

  /** What the i-th complete record of a log is: a frame with the next number that names the frame before it. */
  lemma FrameTells(r: Reader, log: seq<byte>, i: nat)
    requires i < |Frames(r, log)|
    ensures var f := Frames(r, log)[i];
            && f.start + PREFIX_LEN <= f.end <= |log|
            && var payload := log[f.start + PREFIX_LEN..f.end];
            && log[f.start..f.end] == MAGIC + EncodeLE(|payload|, 4) + r.h(payload) + payload
            && r.codec.decode(payload) == Some(f.record) && f.hash == r.h(log[f.start..f.end])
            && f.record.sequence == i + 1
            && f.record.previous == (if i == 0 then seq(32, _ => 0) else Frames(r, log)[i - 1].hash)
            && f.start == (if i == 0 then 0 else Frames(r, log)[i - 1].end)
  {
    hide FrameAt, Chain;
    ChainAt(r, log, 0, ZeroDigest(), 1, i);
    FrameIsWritten(r, log, Frames(r, log)[i].start);
  }

  lemma {:induction false} ChainEndsAt(r: Reader, log: seq<byte>, at: nat, previous: Digest, sequence: nat)
    requires at <= |log|
    ensures var frames := Chain(r, log, at, previous, sequence);
            ChainEnd(r, log, at, previous, sequence) == if frames == [] then at else frames[|frames| - 1].end
    decreases |log| - at
  {
    hide FrameAt;
    if FrameAt(r, log, at).Good? && Links(FrameAt(r, log, at).frame, previous, sequence) {
      var first := FrameAt(r, log, at).frame;
      ChainEndsAt(r, log, first.end, first.hash, sequence + 1);
    }
  }

  /** Frames follow one another without gaps. */
  lemma {:induction false} FramesOrdered(r: Reader, log: seq<byte>, i: nat, j: nat)
    requires i <= j < |Frames(r, log)|
    ensures var frames := Frames(r, log);
            && frames[i].start < frames[i].end <= frames[j].end <= FramesEnd(r, log)
            && (i < j ==> frames[i].end <= frames[j].start)
    decreases |Frames(r, log)| - i, j - i
  {
    hide FrameAt, Chain;
    var frames := Frames(r, log);
    ChainAt(r, log, 0, ZeroDigest(), 1, i);
    if i < j {
      ChainAt(r, log, 0, ZeroDigest(), 1, i + 1);
      FramesOrdered(r, log, i + 1, j);
    } else if i + 1 < |frames| {
      FramesOrdered(r, log, i + 1, i + 1);
      ChainAt(r, log, 0, ZeroDigest(), 1, i + 1);
    } else {
      ChainEndsAt(r, log, 0, ZeroDigest(), 1);
    }
  }

  /** The chain depends only on the bytes it covers. */
  lemma {:induction false} ChainInOther(
    r: Reader, log: seq<byte>, other: seq<byte>, at: nat, previous: Digest, sequence: nat)
    requires at <= |log|
    requires var end := ChainEnd(r, log, at, previous, sequence);
             end <= |other| && other[..end] == log[..end]
    ensures Chain(r, log, at, previous, sequence) <= Chain(r, other, at, previous, sequence)
    ensures ChainEnd(r, log, at, previous, sequence) == |other| ==>
              && Chain(r, other, at, previous, sequence) == Chain(r, log, at, previous, sequence)
              && ChainEnd(r, other, at, previous, sequence) == |other|
    decreases |log| - at
  {
    hide FrameAt;
    var end := ChainEnd(r, log, at, previous, sequence);
    if FrameAt(r, log, at).Good? && Links(FrameAt(r, log, at).frame, previous, sequence) {
      var first := FrameAt(r, log, at).frame;
      SliceOfPrefix(log, end, at, first.end);
      SliceOfPrefix(other, end, at, first.end);
      FrameIsLocal(r, log, other, at);
      ChainInOther(r, log, other, first.end, first.hash, sequence + 1);
    } else if end == |other| {
      assert FrameAt(r, other, at) == CutShort by { NothingPastTheEnd(r, other); }
    }
  }

  lemma NothingPastTheEnd(r: Reader, log: seq<byte>)
    ensures FrameAt(r, log, |log|) == CutShort
  {
  }

  /** Cutting a log after its complete records keeps them all. */
  lemma FramesOfCut(r: Reader, log: seq<byte>)
    ensures var cut := log[..FramesEnd(r, log)];
            Frames(r, cut) == Frames(r, log) && FramesEnd(r, cut) == |cut|
  {
    hide FrameAt, Chain, ChainEnd;
    ChainInOther(r, log, log[..FramesEnd(r, log)], 0, ZeroDigest(), 1);
  }

  /** A chain stops where it did before when what follows it is not a frame. */
  lemma {:induction false} ChainThenStop(
    r: Reader, log: seq<byte>, longer: seq<byte>, at: nat, previous: Digest, sequence: nat)
    requires at <= |log| && ChainEnd(r, log, at, previous, sequence) == |log|
    requires log <= longer && !FrameAt(r, longer, |log|).Good?
    ensures Chain(r, longer, at, previous, sequence) == Chain(r, log, at, previous, sequence)
    ensures ChainEnd(r, longer, at, previous, sequence) == |log|
    decreases |log| - at
  {
    hide FrameAt;
    if FrameAt(r, log, at).Good? && Links(FrameAt(r, log, at).frame, previous, sequence) {
      var first := FrameAt(r, log, at).frame;
      assert longer[..|log|] == log;
      SliceOfPrefix(longer, |log|, at, first.end);
      FrameIsLocal(r, log, longer, at);
      ChainThenStop(r, log, longer, first.end, first.hash, sequence + 1);
    }
  }

  /** The first byte of a frame, left by a crash, adds no frame and does not read as corruption. */
  lemma TornByte(r: Reader, log: seq<byte>)
    requires FramesEnd(r, log) == |log|
    ensures var torn := log + [MAGIC[0]];
            Frames(r, torn) == Frames(r, log) && FramesEnd(r, torn) == |log| && Intact(r, torn)
  {
    var torn := log + [MAGIC[0]];
    assert FrameAt(r, torn, |log|) == CutShort;
    hide FrameAt, Chain, ChainEnd;
    ChainThenStop(r, log, torn, 0, ZeroDigest(), 1);
  }

  /** Appending the next record extends the chain by exactly that frame. */
  lemma {:induction false} ChainAppend(
    r: Reader, log: seq<byte>, at: nat, previous: Digest, sequence: nat, record: RefRecord)
    requires r.codec.Lossless() && |r.codec.encode(record)| <= MAX_RECORD
    requires at <= |log| && ChainEnd(r, log, at, previous, sequence) == |log|
    requires var frames := Chain(r, log, at, previous, sequence);
             && record.sequence == sequence + |frames|
             && record.previous == if frames == [] then previous else frames[|frames| - 1].hash
    ensures var bytes := EncodeFrame(r, record);
            var log' := log + bytes;
            && Chain(r, log', at, previous, sequence)
               == Chain(r, log, at, previous, sequence) + [Frame(record, r.h(bytes), |log|, |log'|)]
            && ChainEnd(r, log', at, previous, sequence) == |log'|
    decreases |log| - at
  {
    var bytes := EncodeFrame(r, record);
    var log' := log + bytes;
    hide FrameAt, EncodeFrame;
    if FrameAt(r, log, at).Good? && Links(FrameAt(r, log, at).frame, previous, sequence) {
      var first := FrameAt(r, log, at).frame;
      assert log'[..|log|] == log;
      SliceOfPrefix(log', |log|, at, first.end);
      FrameIsLocal(r, log, log', at);
      ChainAppend(r, log, first.end, first.hash, sequence + 1, record);
    } else {
      FrameReadsBack(r, log, record, []);
      assert log + bytes + [] == log';
      NothingPastTheEnd(r, log');
      var added := FrameAt(r, log', |log|).frame;
      assert Chain(r, log', added.end, added.hash, sequence + 1) == [];
    }
  }

  /** Cutting a log between two frames keeps exactly the frames before the cut. */
  lemma {:induction false} ChainOfCut(r: Reader, log: seq<byte>, at: nat, previous: Digest, sequence: nat, k: nat)
    requires at <= |log| && k <= |Chain(r, log, at, previous, sequence)|
    ensures var frames := Chain(r, log, at, previous, sequence);
            var end := if k == 0 then at else frames[k - 1].end;
            && at <= end <= |log|
            && Chain(r, log[..end], at, previous, sequence) == frames[..k]
            && ChainEnd(r, log[..end], at, previous, sequence) == end
    decreases k
  {
    hide FrameAt;
    var frames := Chain(r, log, at, previous, sequence);
    if k == 0 {
      NothingPastTheEnd(r, log[..at]);
    } else {
      var first := FrameAt(r, log, at).frame;
      var rest := Chain(r, log, first.end, first.hash, sequence + 1);
      ChainOfCut(r, log, first.end, first.hash, sequence + 1, k - 1);
      var end := frames[k - 1].end;
      assert frames == [first] + rest;
      assert end == if k == 1 then first.end else rest[k - 2].end;
      SliceOfPrefix(log, end, at, first.end);
      FrameIsLocal(r, log, log[..end], at);
      assert frames[..k] == [first] + rest[..k - 1];
    }
  }

  // ---- frames inside frames ----

  /** Where a frame begins, or would begin next. */
  ghost predicate FrameStart(r: Reader, log: seq<byte>, at: nat) {
    at == FramesEnd(r, log) || exists i :: 0 <= i < |Frames(r, log)| && Frames(r, log)[i].start == at
  }

  /** The bytes between two frame prefixes are text: no byte there is zero. */
  ghost predicate TextPayloads(r: Reader, log: seq<byte>) {
    forall q | 0 <= q < |log| && log[q] == 0 :: exists at: nat :: FrameStart(r, log, at) && at + 4 <= q < at + PREFIX_LEN
  }

  /** No frame reads from within the prefix of another. */
  ghost predicate PrefixesClean(r: Reader, log: seq<byte>) {
    forall start: nat, at: nat :: FrameStart(r, log, start) && start < at < start + PREFIX_LEN ==>
      !FrameAt(r, log, at).Good?
  }

  lemma HighByteIsZero(s: seq<byte>)
    requires |s| == 4 && DecodeLE(s) <= MAX_RECORD
    ensures s[3] == 0
  {
    var s1, s2, s3 := s[1..], s[2..], s[3..];
    assert s1[1..] == s2 && s2[1..] == s3;
    assert DecodeLE(s) == s[0] + 256 * DecodeLE(s1);
    assert DecodeLE(s1) == s1[0] + 256 * DecodeLE(s2);
    assert DecodeLE(s2) == s2[0] + 256 * DecodeLE(s3);
    assert DecodeLE(s3) == s3[0] + 256 * DecodeLE(s3[1..]);
  }

  /** A frame that reads has the magic, and a length whose high byte is zero. */
  lemma GoodHasZero(r: Reader, log: seq<byte>, at: nat)
    requires FrameAt(r, log, at).Good?
    ensures at + PREFIX_LEN <= |log| && log[at..at + 4] == MAGIC && log[at + 7] == 0
  {
    hide DecodeLE;
    var rest := log[at..];
    assert rest[0..4] == log[at..at + 4];
    HighByteIsZero(rest[4..8]);
    assert rest[4..8][3] == log[at + 7];
  }

  /** The magic does not overlap itself. */
  lemma MagicsApart(log: seq<byte>, at: nat, start: nat)
    requires at + 4 <= |log| && start + 4 <= |log| && log[at..at + 4] == MAGIC && log[start..start + 4] == MAGIC
    ensures at < start ==> at + 4 <= start
  {
    assert log[start] == log[start..start + 4][0] == 0x41;
    assert log[at + 1] == log[at..at + 4][1] == 0x47;
    assert log[at + 2] == log[at..at + 4][2] == 0x52;
    assert log[at + 3] == log[at..at + 4][3] == 0x46;
  }

  lemma StartHasMagic(r: Reader, log: seq<byte>, start: nat)
    requires Intact(r, log) && FrameStart(r, log, start) && start + 4 <= |log|
    ensures log[start..start + 4] == MAGIC
    ensures FrameAt(r, log, start).Good? ==> FrameAt(r, log, start).frame in Frames(r, log)
  {
    hide Chain, ChainEnd, DecodeLE;
    if i :| 0 <= i < |Frames(r, log)| && Frames(r, log)[i].start == start {
      ChainAt(r, log, 0, ZeroDigest(), 1, i);
      GoodHasZero(r, log, start);
    } else {
      assert log[start..][0..4] == log[start..start + 4];
    }
  }

  /**
    * When nothing inside a log reads as a frame of its own: over text payloads exactly if no frame reads from within
    * the prefix of another, which only a checksum that looks like a frame can bring about.
    */
  lemma UnambiguousIff(r: Reader, log: seq<byte>)
    requires Intact(r, log) && TextPayloads(r, log)
    ensures Unambiguous(r, log) <==> PrefixesClean(r, log)
  {
    hide FrameAt, Chain, ChainEnd;
    if PrefixesClean(r, log) {
      forall at: nat | FrameAt(r, log, at).Good?
        ensures FrameAt(r, log, at).frame in Frames(r, log)
      {
        GoodHasZero(r, log, at);
        var start: nat :| FrameStart(r, log, start) && start + 4 <= at + 7 < start + PREFIX_LEN;
        StartHasMagic(r, log, start);
        MagicsApart(log, at, start);
      }
    }
    if Unambiguous(r, log) {
      forall start: nat, at: nat | FrameStart(r, log, start) && start < at < start + PREFIX_LEN
        ensures !FrameAt(r, log, at).Good?
      {
        if FrameAt(r, log, at).Good? {
          NoStartInPrefix(r, log, start, at);
        }
      }
    }
  }

  lemma NoStartInPrefix(r: Reader, log: seq<byte>, start: nat, at: nat)
    requires FrameStart(r, log, start) && start < at < start + PREFIX_LEN && FrameAt(r, log, at).Good?
    ensures FrameAt(r, log, at).frame !in Frames(r, log)
  {
    var frame := FrameAt(r, log, at).frame;
    assert frame.start == at;
    if j :| 0 <= j < |Frames(r, log)| && Frames(r, log)[j] == frame {
      hide Chain, ChainEnd, ReadPrefix;
      FramesOrdered(r, log, j, j);
      if i :| 0 <= i < |Frames(r, log)| && Frames(r, log)[i].start == start {
        ChainAt(r, log, 0, ZeroDigest(), 1, i);
        if i < j {
          FramesOrdered(r, log, i, j);
        } else {
          FramesOrdered(r, log, j, i);
        }
      }
      assert false;
    }
  }
}
