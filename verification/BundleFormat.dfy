/** The framing of a snapshot bundle (bundle.rs): what reads back is what was written, and nothing else reads. */
module BundleFormat {
  import opened Bytes
  import opened Pack

  const BUNDLE_MAGIC: seq<byte> := [0x41, 0x47, 0x53, 0x42, 0x01]
  const RECORD_MAGIC: seq<byte> := [0x41, 0x47, 0x4F, 0x52]
  const END_MAGIC: seq<byte> := [0x41, 0x47, 0x53, 0x45]
  const RECORD_HEADER: nat := 4 + 1 + 8 + 32 + 32

  function EncodeHead(h: Hasher, obj: Obj): (r: seq<byte>)
    ensures |r| == RECORD_HEADER
  {
    RECORD_MAGIC + [KindByte(obj.kind)] + EncodeLE(|obj.bytes|, 8) + obj.Id(h) + h(obj.bytes)
  }

  function EncodeObject(h: Hasher, obj: Obj): (r: seq<byte>)
    ensures |r| == RECORD_HEADER + |obj.bytes|
  {
    EncodeHead(h, obj) + obj.bytes
  }

  function EncodeObjects(h: Hasher, objs: seq<Obj>): seq<byte> {
    if objs == [] then [] else EncodeObject(h, objs[0]) + EncodeObjects(h, objs[1..])
  }

  function Trailer(count: nat): (r: seq<byte>)
    ensures |r| == 12
  {
    END_MAGIC + EncodeLE(count, 8)
  }

  function EncodeBundle(h: Hasher, snapshot: Digest, objs: seq<Obj>): seq<byte> {
    BUNDLE_MAGIC + snapshot + EncodeObjects(h, objs) + Trailer(|objs|)
  }

  /** The transport format, byte by byte: a mark and the snapshot; a mark, the kind by number, the length, the identifier
      and the checksum before each object; and a mark and their number at the end. */
  lemma BundleIs(h: Hasher, snapshot: Digest, objs: seq<Obj>)
    ensures EncodeBundle(h, snapshot, objs) ==
              Ascii("AGSB") + [1] + snapshot + EncodeObjects(h, objs) + Ascii("AGSE") + EncodeLE(|objs|, 8)
    ensures objs != [] ==>
              EncodeObjects(h, objs) ==
                Ascii("AGOR") + [KindByte(objs[0].kind)] + EncodeLE(|objs[0].bytes|, 8) + objs[0].Id(h) + h(objs[0].bytes)
                + objs[0].bytes + EncodeObjects(h, objs[1..])
  {
    hide EncodeLE, Obj.Id, KindByte;
    assert Ascii("AGSB") + [1] == BUNDLE_MAGIC && Ascii("AGSE") == END_MAGIC && Ascii("AGOR") == RECORD_MAGIC;
  }

  /** The object recorded at `at`, when its framing, checksum and identity agree. */
  function ReadObject(h: Hasher, input: seq<byte>, at: nat): (r: Option<Obj>)
    requires at <= |input|
    ensures r.Some? ==> at + RECORD_HEADER + |r.value.bytes| <= |input|
  {
    var rest := input[at..];
    if |rest| < RECORD_HEADER || rest[0..4] != RECORD_MAGIC || KindFromByte(rest[4]).None? then None
    else
      var kind, length := KindFromByte(rest[4]).value, DecodeLE(rest[5..13]);
      if MAX_OBJECT_LEN < length || |rest| < RECORD_HEADER + length then None
      else
        var bytes := rest[RECORD_HEADER..RECORD_HEADER + length];
        if h(bytes) != rest[45..77] || ObjectId(h, kind, bytes) != rest[13..45] then None else Some(Obj(kind, bytes))
  }

  predicate AtEnd(input: seq<byte>, at: nat) {
    at + 4 <= |input| && input[at..at + 4] == END_MAGIC
  }

  /** The objects recorded from `at` up to the end mark, with nothing after the count. */
  function ReadObjects(h: Hasher, input: seq<byte>, at: nat): (r: Option<seq<Obj>>)
    requires at <= |input|
    decreases |input| - at
  {
    if AtEnd(input, at) then if |input| == at + 12 then Some([]) else None
    else
      match ReadObject(h, input, at)
      case None => None
      case Some(obj) =>
        match ReadObjects(h, input, at + RECORD_HEADER + |obj.bytes|)
        case None => None
        case Some(more) => Some([obj] + more)
  }

  /** The objects readable one after another from `at` on, however the input goes on. */
  function Recorded(h: Hasher, input: seq<byte>, at: nat): seq<Obj>
    requires at <= |input|
    decreases |input| - at
  {
    if AtEnd(input, at) || ReadObject(h, input, at).None? then []
    else
      var obj := ReadObject(h, input, at).value;
      [obj] + Recorded(h, input, at + RECORD_HEADER + |obj.bytes|)
  }

  lemma {:induction false} ReadAreRecorded(h: Hasher, input: seq<byte>, at: nat)
    requires at <= |input| && ReadObjects(h, input, at).Some?
    ensures Recorded(h, input, at) == ReadObjects(h, input, at).value
    decreases |input| - at
  {
    hide ReadObject;
    if !AtEnd(input, at) {
      ReadAreRecorded(h, input, at + RECORD_HEADER + |ReadObject(h, input, at).value.bytes|);
    }
  }

  /** What a bundle says: its snapshot and its objects. */
  function ReadBundle(h: Hasher, input: seq<byte>): Option<(Digest, seq<Obj>)> {
    if |input| < 37 || input[0..5] != BUNDLE_MAGIC then None
    else
      match ReadObjects(h, input, 37)
      case None => None
      case Some(objs) =>
        if |input| < 8 || DecodeLE(input[|input| - 8..]) != |objs| then None else Some((input[5..37], objs))
  }

  lemma HeadFields(h: Hasher, obj: Obj, rest: seq<byte>)
    requires obj.Fits() && EncodeHead(h, obj) <= rest
    ensures rest[0..4] == RECORD_MAGIC && rest[4] == KindByte(obj.kind)
    ensures DecodeLE(rest[5..13]) == |obj.bytes| && rest[13..45] == obj.Id(h) && rest[45..77] == h(obj.bytes)
  {
    var kind: seq<byte> := [KindByte(obj.kind)];
    JoinOfFive(RECORD_MAGIC, kind, EncodeLE(|obj.bytes|, 8), obj.Id(h), h(obj.bytes));
    var head := EncodeHead(h, obj);
    assert head == rest[..RECORD_HEADER];
    assert head[4] == head[4..5][0];
    SliceOfPrefix(rest, RECORD_HEADER, 0, 4);
    SliceOfPrefix(rest, RECORD_HEADER, 5, 13);
    SliceOfPrefix(rest, RECORD_HEADER, 13, 45);
    SliceOfPrefix(rest, RECORD_HEADER, 45, 77);
    Pow256Eight();
    DecodeEncodeLE(|obj.bytes|, 8);
  }

  lemma KindRoundTrip(kind: Kind)
    ensures KindFromByte(KindByte(kind)) == Some(kind)
  {
  }

  /** A written object reads back, whatever follows. */
  lemma ObjectReadsBack(h: Hasher, input: seq<byte>, at: nat, obj: Obj, after: seq<byte>)
    requires at <= |input| && obj.Fits() && input[at..] == EncodeObject(h, obj) + after
    ensures ReadObject(h, input, at) == Some(obj) && !AtEnd(input, at)
    ensures input[at + RECORD_HEADER + |obj.bytes|..] == after
  {
    hide EncodeHead, ObjectId, DecodeLE, KindFromByte, KindByte;
    var rest := input[at..];
    var head := EncodeHead(h, obj);
    assert rest == head + obj.bytes + after;
    assert head <= rest;
    HeadFields(h, obj, rest);
    KindRoundTrip(obj.kind);
    assert rest[RECORD_HEADER..RECORD_HEADER + |obj.bytes|] == obj.bytes;
    assert input[at..at + 4] == rest[0..4];
    assert input[at + RECORD_HEADER + |obj.bytes|..] == rest[RECORD_HEADER + |obj.bytes|..];
  }

  lemma {:induction false} ObjectsReadBack(h: Hasher, input: seq<byte>, at: nat, objs: seq<Obj>, count: nat)
    requires at <= |input| && AllFit(objs) && input[at..] == EncodeObjects(h, objs) + Trailer(count)
    ensures ReadObjects(h, input, at) == Some(objs)
    decreases |objs|
  {
    hide EncodeObject, ReadObject, EncodeObjects, Trailer;
    EncodedObjects(h, objs);
    if objs == [] {
      assert input[at..] == Trailer(count);
      TrailerEnds(input, at, count);
    } else {
      var first, more := EncodeObject(h, objs[0]), EncodeObjects(h, objs[1..]);
      assert first + more + Trailer(count) == first + (more + Trailer(count));
      ObjectReadsBack(h, input, at, objs[0], more + Trailer(count));
      ObjectsReadBack(h, input, at + RECORD_HEADER + |objs[0].bytes|, objs[1..], count);
      assert [objs[0]] + objs[1..] == objs;
    }
  }

  lemma EncodedObjects(h: Hasher, objs: seq<Obj>)
    ensures EncodeObjects(h, objs) == if objs == [] then [] else EncodeObject(h, objs[0]) + EncodeObjects(h, objs[1..])
  {
    hide EncodeObject;
  }

  lemma TrailerEnds(input: seq<byte>, at: nat, count: nat)
    requires at <= |input| && input[at..] == Trailer(count)
    ensures AtEnd(input, at) && |input| == at + 12
  {
    assert input[at..at + 4] == input[at..][..4];
  }

  /** A written bundle reads back. */
  lemma BundleReadsBack(h: Hasher, snapshot: Digest, objs: seq<Obj>)
    requires AllFit(objs) && |objs| < Pow256(8)
    ensures ReadBundle(h, EncodeBundle(h, snapshot, objs)) == Some((snapshot, objs))
  {
    hide ReadObjects, EncodeObjects, DecodeLE, EncodeLE;
    var input := EncodeBundle(h, snapshot, objs);
    var body := EncodeObjects(h, objs) + Trailer(|objs|);
    assert input == BUNDLE_MAGIC + snapshot + body;
    assert input[0..5] == BUNDLE_MAGIC && input[5..37] == snapshot && input[37..] == body;
    ObjectsReadBack(h, input, 37, objs, |objs|);
    assert input[|input| - 8..] == EncodeLE(|objs|, 8);
    DecodeEncodeLE(|objs|, 8);
  }

  /** Whatever reads as an object is the encoding of that object. */
  lemma ReadIsWritten(h: Hasher, input: seq<byte>, at: nat)
    requires at <= |input| && ReadObject(h, input, at).Some?
    ensures var obj := ReadObject(h, input, at).value;
            obj.Fits() && input[at..at + RECORD_HEADER + |obj.bytes|] == EncodeObject(h, obj)
  {
    var obj := ReadObject(h, input, at).value;
    var rest := input[at..];
    ReadParts(h, input, at);
    HeadIsWritten(h, rest, obj);
    hide EncodeHead, DecodeLE, KindFromByte, Obj.Id, ReadObject;
    var end := RECORD_HEADER + |obj.bytes|;
    assert input[at..at + end] == rest[..RECORD_HEADER] + rest[RECORD_HEADER..end];
  }

  lemma ReadParts(h: Hasher, input: seq<byte>, at: nat)
    requires at <= |input| && ReadObject(h, input, at).Some?
    ensures var obj, rest := ReadObject(h, input, at).value, input[at..];
            && obj.Fits() && RECORD_HEADER + |obj.bytes| <= |rest|
            && rest[0..4] == RECORD_MAGIC && KindFromByte(rest[4]) == Some(obj.kind)
            && DecodeLE(rest[5..13]) == |obj.bytes| && rest[13..45] == obj.Id(h) && rest[45..77] == h(obj.bytes)
            && rest[RECORD_HEADER..RECORD_HEADER + |obj.bytes|] == obj.bytes
  {
    hide DecodeLE, KindFromByte, Domain;
  }

  lemma HeadIsWritten(h: Hasher, rest: seq<byte>, obj: Obj)
    requires |rest| >= RECORD_HEADER && rest[0..4] == RECORD_MAGIC && KindFromByte(rest[4]) == Some(obj.kind)
    requires DecodeLE(rest[5..13]) == |obj.bytes| && rest[13..45] == obj.Id(h) && rest[45..77] == h(obj.bytes)
    ensures rest[..RECORD_HEADER] == EncodeHead(h, obj)
  {
    EncodeDecodeLE(rest[5..13]);
    assert KindByte(obj.kind) == rest[4];
    hide DecodeLE, EncodeLE, ObjectId, KindFromByte, KindByte;
    Glue(rest, 0, 4, 5);
    Glue(rest, 0, 5, 13);
    Glue(rest, 0, 13, 45);
    Glue(rest, 0, 45, 77);
    assert rest[4..5] == [rest[4]];
    assert rest[..RECORD_HEADER] == rest[0..77];
  }

  lemma {:induction false} ReadsAreWritten(h: Hasher, input: seq<byte>, at: nat)
    requires at <= |input| && ReadObjects(h, input, at).Some?
    ensures var objs := ReadObjects(h, input, at).value;
            && AllFit(objs) && 12 <= |input| - at
            && input[at..|input| - 12] == EncodeObjects(h, objs)
            && input[|input| - 12..|input| - 8] == END_MAGIC
    decreases |input| - at
  {
    hide ReadObject, EncodeObject;
    if !AtEnd(input, at) {
      ReadIsWritten(h, input, at);
      var obj := ReadObject(h, input, at).value;
      var next := at + RECORD_HEADER + |obj.bytes|;
      ReadsAreWritten(h, input, next);
      var more := ReadObjects(h, input, next).value;
      Glue(input, at, next, |input| - 12);
      assert ([obj] + more)[1..] == more;
    }
  }

  /** Whatever reads as a bundle is, byte for byte, the bundle written for what it says. */
  lemma BundleIsWritten(h: Hasher, input: seq<byte>)
    requires ReadBundle(h, input).Some?
    ensures var (snapshot, objs) := ReadBundle(h, input).value;
            AllFit(objs) && |objs| < Pow256(8) && input == EncodeBundle(h, snapshot, objs)
  {
    hide ReadObjects, EncodeObjects, DecodeLE, EncodeLE;
    var (snapshot, objs) := ReadBundle(h, input).value;
    ReadsAreWritten(h, input, 37);
    var n := |input|;
    EncodeDecodeLE(input[n - 8..]);
    assert input == input[0..5] + input[5..37] + input[37..n - 12] + (input[n - 12..n - 8] + input[n - 8..]);
  }
}
