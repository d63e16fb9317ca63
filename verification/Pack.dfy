/** The record format of an object pack and the scan that finds its longest valid prefix. */
module Pack {
  import opened Bytes

  datatype Kind = Chunk | Blob | Tree | Snapshot | Xattrs

  /** One object's mention of another. */
  datatype Edge = Edge(id: Digest, kind: Kind)

  const OBJECT_MAGIC: seq<byte> := [0x41, 0x47, 0x4F, 0x42]
  const OBJECT_END: seq<byte> := [0x41, 0x47, 0x4E, 0x44]
  const OBJECT_VERSION: byte := 1
  const HEADER_LEN: nat := 78
  const MAX_OBJECT_LEN: nat := 256 * 1024 * 1024

  function KindByte(kind: Kind): byte {
    match kind
    case Chunk => 1
    case Blob => 2
    case Tree => 3
    case Snapshot => 4
    case Xattrs => 5
  }

  function KindFromByte(value: byte): Option<Kind> {
    if value == 1 then Some(Chunk)
    else if value == 2 then Some(Blob)
    else if value == 3 then Some(Tree)
    else if value == 4 then Some(Snapshot)
    else if value == 5 then Some(Xattrs)
    else None
  }

  function Domain(kind: Kind): seq<byte> {
    match kind
    case Chunk => Ascii("furrow:chunk:v1\0")
    case Blob => Ascii("furrow:blob:v1\0")
    case Tree => Ascii("furrow:tree:v1\0")
    case Snapshot => Ascii("furrow:snapshot:v1\0")
    case Xattrs => Ascii("furrow:xattrs:v1\0")
  }

  /** The content address of an object: the hash of its kind's domain tag and its bytes. */
  function ObjectId(h: Hasher, kind: Kind, bytes: seq<byte>): Digest {
    h(Domain(kind) + bytes)
  }

  /** Where the tags of two kinds differ: at the first letter after the common part. */
  lemma TagLetters(kind: Kind)
    ensures 8 <= |Domain(kind)|
    ensures Domain(kind)[7] == (match kind
                                case Chunk => 0x63
                                case Blob => 0x62
                                case Tree => 0x74
                                case Snapshot => 0x73
                                case Xattrs => 0x78)
  {
  }

  /** What is hashed tells the kind and the bytes: no tag with bytes after it is another tag with others after it. */
  lemma DomainSeparates(k: Kind, a: seq<byte>, l: Kind, b: seq<byte>)
    ensures Domain(k) + a == Domain(l) + b <==> k == l && a == b
  {
    TagLetters(k);
    TagLetters(l);
    hide Domain;
    if Domain(k) + a == Domain(l) + b {
      assert (Domain(k) + a)[7] == (Domain(l) + b)[7];
      assert (Domain(k) + a)[|Domain(k)|..] == a && (Domain(l) + b)[|Domain(l)|..] == b;
    }
  }

  /** One object as the writer hands it to the pack. */
  datatype Obj = Obj(kind: Kind, bytes: seq<byte>) {
    function Id(h: Hasher): Digest { ObjectId(h, kind, bytes) }

    predicate Fits() { |bytes| <= MAX_OBJECT_LEN }
  }

  /** Where one complete record sits in a pack. */
  datatype Loc = Loc(start: nat, kind: Kind, id: Digest, len: nat) {
    function Payload(): nat { start + HEADER_LEN }

    function End(): nat { start + HEADER_LEN + len + |OBJECT_END| }
  }

  /** What a read at a record boundary finds. */
  datatype Parsed = Complete(loc: Loc) | Torn | Corrupt

  /** Everything of a record that precedes its payload. */
  function EncodeHeader(h: Hasher, obj: Obj): (r: seq<byte>)
    ensures |r| == HEADER_LEN
  {
    OBJECT_MAGIC + [OBJECT_VERSION, KindByte(obj.kind)] + EncodeLE(|obj.bytes|, 8) + obj.Id(h) + h(obj.bytes)
  }

  function EncodeRecord(h: Hasher, obj: Obj): (r: seq<byte>)
    ensures |r| == HEADER_LEN + |obj.bytes| + |OBJECT_END|
  {
    EncodeHeader(h, obj) + obj.bytes + OBJECT_END
  }

  /** The record format, byte by byte: two readable marks, the version, the kind by number, the length, the identifier and
      the checksum. */
  lemma RecordIs(h: Hasher, obj: Obj)
    ensures var kind: byte := match obj.kind
                              case Chunk => 1 case Blob => 2 case Tree => 3 case Snapshot => 4 case Xattrs => 5;
            EncodeRecord(h, obj) ==
              Ascii("AGOB") + [1, kind] + EncodeLE(|obj.bytes|, 8) + h(Domain(obj.kind) + obj.bytes) + h(obj.bytes)
              + obj.bytes + Ascii("AGND")
  {
    hide EncodeLE, Domain;
    assert Ascii("AGOB") == OBJECT_MAGIC && Ascii("AGND") == OBJECT_END;
  }

  /** And the tags before what is hashed. */
  lemma TagIs(kind: Kind)
    ensures Domain(kind) == Ascii(match kind
                                  case Chunk => "furrow:chunk:v1\0" case Blob => "furrow:blob:v1\0"
                                  case Tree => "furrow:tree:v1\0" case Snapshot => "furrow:snapshot:v1\0"
                                  case Xattrs => "furrow:xattrs:v1\0")
  {
  }

  /** What the fixed-size header at `at` says, or why it cannot be read. */
  datatype Header = Fields(kind: Kind, len: nat, id: Digest, checksum: Digest) | CutShort | Invalid

  function ParseHeader(rest: seq<byte>): (r: Header)
    ensures r.Fields? ==> HEADER_LEN <= |rest| && r.len <= MAX_OBJECT_LEN
  {
    if |rest| < 4 then CutShort
    else if rest[0..4] != OBJECT_MAGIC then Invalid
    else if |rest| < 6 then CutShort
    else if rest[4] != OBJECT_VERSION || KindFromByte(rest[5]).None? then Invalid
    else if |rest| < 14 then CutShort
    else if DecodeLE(rest[6..14]) > MAX_OBJECT_LEN then Invalid
    else if |rest| < HEADER_LEN then CutShort
    else Fields(KindFromByte(rest[5]).value, DecodeLE(rest[6..14]), rest[14..46], rest[46..78])
  }

  /** One step of the recovery scan: the record starting at `at`, or why there is none. */
  function ParseRecord(h: Hasher, pack: seq<byte>, at: nat): (r: Parsed)
    requires at < |pack|
    ensures r.Complete? ==> r.loc.start == at && r.loc.End() <= |pack|
  {
    match ParseHeader(pack[at..])
    case CutShort => Torn
    case Invalid => Corrupt
    case Fields(kind, len, id, checksum) =>
      var payload := at + HEADER_LEN;
      if |pack| - payload < len + 4 then Torn
      else
        var bytes := pack[payload..payload + len];
        if pack[payload + len..payload + len + 4] != OBJECT_END || h(bytes) != checksum
           || ObjectId(h, kind, bytes) != id
        then Corrupt
        else Complete(Loc(at, kind, id, len))
  }

  /** The object a record holds. */
  function ObjAt(pack: seq<byte>, loc: Loc): Obj
    requires loc.End() <= |pack|
  {
    Obj(loc.kind, pack[loc.Payload()..loc.Payload() + loc.len])
  }

  lemma HeaderFields(h: Hasher, obj: Obj)
    requires obj.Fits()
    ensures var r := EncodeHeader(h, obj);
            && r[0..4] == OBJECT_MAGIC && r[4] == OBJECT_VERSION && r[5] == KindByte(obj.kind)
            && r[6..14] == EncodeLE(|obj.bytes|, 8) && DecodeLE(r[6..14]) == |obj.bytes|
            && r[14..46] == obj.Id(h) && r[46..78] == h(obj.bytes)
  {
    var version: seq<byte> := [OBJECT_VERSION, KindByte(obj.kind)];
    JoinOfFive(OBJECT_MAGIC, version, EncodeLE(|obj.bytes|, 8), obj.Id(h), h(obj.bytes));
    var r := EncodeHeader(h, obj);
    assert r[4..6] == version && r[4] == r[4..6][0] && r[5] == r[4..6][1];
    Pow256Eight();
    DecodeEncodeLE(|obj.bytes|, 8);
  }

  /** A header read from the start of an encoded one, possibly cut short. */
  lemma ParseHeaderOf(h: Hasher, obj: Obj, rest: seq<byte>)
    requires obj.Fits()
    requires EncodeHeader(h, obj) <= rest
    ensures ParseHeader(rest) == Fields(obj.kind, |obj.bytes|, obj.Id(h), h(obj.bytes))
  {
    var r := EncodeHeader(h, obj);
    HeaderFields(h, obj);
    hide EncodeHeader, DecodeLE, EncodeLE, Obj.Id;
    assert rest[0..4] == r[0..4] && rest[6..14] == r[6..14];
    assert rest[14..46] == r[14..46] && rest[46..78] == r[46..78];
    assert rest[4] == r[4] && rest[5] == r[5];
  }

  lemma ParseCutHeader(h: Hasher, obj: Obj, cut: nat)
    requires obj.Fits() && cut < HEADER_LEN
    ensures ParseHeader(EncodeHeader(h, obj)[..cut]) == CutShort
  {
    var r := EncodeHeader(h, obj);
    var rest := r[..cut];
    HeaderFields(h, obj);
    hide EncodeHeader, DecodeLE, EncodeLE, Obj.Id;
    if cut >= 14 {
      assert rest[0..4] == r[0..4] && rest[6..14] == r[6..14];
      assert rest[4] == r[4] && rest[5] == r[5];
    } else if cut >= 6 {
      assert rest[0..4] == r[0..4];
      assert rest[4] == r[4] && rest[5] == r[5];
    } else if cut >= 4 {
      assert rest[0..4] == r[0..4];
    }
  }

  lemma HeaderIsEncoded(h: Hasher, rest: seq<byte>, obj: Obj)
    requires ParseHeader(rest) == Fields(obj.kind, |obj.bytes|, obj.Id(h), h(obj.bytes))
    ensures rest[..HEADER_LEN] == EncodeHeader(h, obj)
  {
    EncodeDecodeLE(rest[6..14]);
    hide DecodeLE, EncodeLE, Obj.Id;
    assert rest[4..6] == [OBJECT_VERSION, KindByte(obj.kind)];
    Glue(rest, 0, 4, 6);
    Glue(rest, 0, 6, 14);
    Glue(rest, 0, 14, 46);
    Glue(rest, 0, 46, 78);
  }

  /** The parts of a pack that holds a record between `before` and `after`. */
  lemma RecordParts(h: Hasher, before: seq<byte>, obj: Obj, after: seq<byte>)
    ensures var pack := before + EncodeRecord(h, obj) + after;
            var payload := |before| + HEADER_LEN;
            && EncodeHeader(h, obj) <= pack[|before|..]
            && pack[payload..payload + |obj.bytes|] == obj.bytes
            && pack[payload + |obj.bytes|..payload + |obj.bytes| + 4] == OBJECT_END
  {
    hide EncodeHeader;
    JoinBetween(before, EncodeHeader(h, obj), obj.bytes, OBJECT_END, after);
  }

  /** Writing a record anywhere makes it parse there, whatever surrounds it. */
  lemma ParseEncoded(h: Hasher, before: seq<byte>, obj: Obj, after: seq<byte>)
    requires obj.Fits()
    ensures var pack := before + EncodeRecord(h, obj) + after;
            && ParseRecord(h, pack, |before|) == Complete(Loc(|before|, obj.kind, obj.Id(h), |obj.bytes|))
            && ObjAt(pack, Loc(|before|, obj.kind, obj.Id(h), |obj.bytes|)) == obj
  {
    RecordParts(h, before, obj, after);
    hide EncodeRecord, EncodeHeader, ParseHeader;
    ParseHeaderOf(h, obj, (before + EncodeRecord(h, obj) + after)[|before|..]);
  }

  lemma HeaderBounds(rest: seq<byte>)
    ensures ParseHeader(rest).Fields? ==> HEADER_LEN <= |rest| && ParseHeader(rest).len <= MAX_OBJECT_LEN
  {
  }

  /** Only a written record parses: the bytes of a complete record are the encoding of the object it holds. */
  lemma ParsedIsEncoded(h: Hasher, pack: seq<byte>, at: nat)
    requires at < |pack|
    requires ParseRecord(h, pack, at).Complete?
    ensures var loc := ParseRecord(h, pack, at).loc;
            && pack[at..loc.End()] == EncodeRecord(h, ObjAt(pack, loc))
            && ObjAt(pack, loc).Fits()
            && ObjAt(pack, loc).Id(h) == loc.id
  {
    hide ParseHeader, EncodeHeader;
    var loc := ParseRecord(h, pack, at).loc;
    var payload := loc.Payload();
    HeaderBounds(pack[at..]);
    HeaderIsEncoded(h, pack[at..], ObjAt(pack, loc));
    assert pack[at..][..HEADER_LEN] == pack[at..payload];
    Glue(pack, at, payload, payload + loc.len);
    Glue(pack, at, payload + loc.len, loc.End());
  }

  /** A crash inside an append leaves a torn tail, never one that reads as corruption. */
  lemma CutRecordIsTorn(h: Hasher, before: seq<byte>, obj: Obj, cut: nat)
    requires obj.Fits()
    requires 0 < cut < |EncodeRecord(h, obj)|
    ensures ParseRecord(h, before + EncodeRecord(h, obj)[..cut], |before|) == Torn
  {
    hide ParseHeader, EncodeHeader;
    var pack := before + EncodeRecord(h, obj)[..cut];
    var rest := pack[|before|..];
    assert rest == EncodeRecord(h, obj)[..cut];
    if cut < HEADER_LEN {
      assert rest == EncodeHeader(h, obj)[..cut];
      ParseCutHeader(h, obj, cut);
    } else {
      assert rest[..HEADER_LEN] == EncodeHeader(h, obj);
      ParseHeaderOf(h, obj, rest);
    }
  }

  /** A record found in one pack is found in any pack that agrees with it up to the record's end. */
  lemma ParseIsLocal(h: Hasher, pack: seq<byte>, other: seq<byte>, at: nat)
    requires at < |pack|
    requires ParseRecord(h, pack, at).Complete?
    requires var end := ParseRecord(h, pack, at).loc.End();
             end <= |other| && other[at..end] == pack[at..end]
    ensures at < |other| && ParseRecord(h, other, at) == ParseRecord(h, pack, at)
    ensures ObjAt(other, ParseRecord(h, pack, at).loc) == ObjAt(pack, ParseRecord(h, pack, at).loc)
  {
    var loc := ParseRecord(h, pack, at).loc;
    ParsedIsEncoded(h, pack, at);
    var obj := ObjAt(pack, loc);
    ParseEncoded(h, other[..at], obj, other[loc.End()..]);
    hide ParseRecord, EncodeRecord;
    SharedSlice(pack, other, at, loc.End());
    assert other[..at] + EncodeRecord(h, obj) + other[loc.End()..] == other;
  }

  lemma ParseInPrefix(h: Hasher, pack: seq<byte>, v: nat, at: nat)
    requires at < v <= |pack|
    requires ParseRecord(h, pack[..v], at).Complete?
    ensures ParseRecord(h, pack, at) == ParseRecord(h, pack[..v], at)
    ensures ObjAt(pack, ParseRecord(h, pack, at).loc) == ObjAt(pack[..v], ParseRecord(h, pack, at).loc)
  {
    hide ParseRecord;
    SliceOfPrefix(pack, v, at, ParseRecord(h, pack[..v], at).loc.End());
    ParseIsLocal(h, pack[..v], pack, at);
  }

  lemma ParseToPrefix(h: Hasher, pack: seq<byte>, v: nat, at: nat)
    requires at < |pack| && v <= |pack|
    requires ParseRecord(h, pack, at).Complete? && ParseRecord(h, pack, at).loc.End() <= v
    ensures at < v && ParseRecord(h, pack[..v], at) == ParseRecord(h, pack, at)
    ensures ObjAt(pack[..v], ParseRecord(h, pack, at).loc) == ObjAt(pack, ParseRecord(h, pack, at).loc)
  {
    hide ParseRecord;
    SliceOfPrefix(pack, v, at, ParseRecord(h, pack, at).loc.End());
    ParseIsLocal(h, pack, pack[..v], at);
  }

  // ---- the scan ----

  /** The complete records from `from` on, up to the first place where none starts. */
  function Scan(h: Hasher, pack: seq<byte>, from: nat): (locs: seq<Loc>)
    requires from <= |pack|
    decreases |pack| - from
  {
    if from == |pack| then []
    else
      match ParseRecord(h, pack, from)
      case Complete(loc) => [loc] + Scan(h, pack, loc.End())
      case _ => []
  }

  /** Where the scan stops. */
  function ScanEnd(h: Hasher, pack: seq<byte>, from: nat): (end: nat)
    requires from <= |pack|
    ensures from <= end <= |pack|
    decreases |pack| - from
  {
    if from == |pack| then from
    else
      match ParseRecord(h, pack, from)
      case Complete(loc) => ScanEnd(h, pack, loc.End())
      case _ => from
  }

  /** The pack bytes of a list of objects. */
  function EncodeAll(h: Hasher, objs: seq<Obj>): seq<byte> {
    if objs == [] then [] else EncodeRecord(h, objs[0]) + EncodeAll(h, objs[1..])
  }

  /** The objects the scan finds. */
  function ScanObjs(h: Hasher, pack: seq<byte>, from: nat): (objs: seq<Obj>)
    requires from <= |pack|
    decreases |pack| - from
  {
    if from == |pack| then []
    else
      match ParseRecord(h, pack, from)
      case Complete(loc) => [ObjAt(pack, loc)] + ScanObjs(h, pack, loc.End())
      case _ => []
  }

  lemma EncodeAllCons(h: Hasher, obj: Obj, objs: seq<Obj>)
    ensures EncodeAll(h, [obj] + objs) == EncodeRecord(h, obj) + EncodeAll(h, objs)
  {
    assert ([obj] + objs)[1..] == objs;
  }

  ghost predicate AllFit(objs: seq<Obj>) {
    forall i | 0 <= i < |objs| :: objs[i].Fits()
  }

  /** The scanned prefix is exactly the encoding of the objects it finds. */
  lemma {:induction false} ScanIsEncoding(h: Hasher, pack: seq<byte>, from: nat)
    requires from <= |pack|
    ensures pack[from..ScanEnd(h, pack, from)] == EncodeAll(h, ScanObjs(h, pack, from))
    ensures AllFit(ScanObjs(h, pack, from))
    decreases |pack| - from
  {
    hide ParseRecord, EncodeRecord;
    if from < |pack| && ParseRecord(h, pack, from).Complete? {
      var loc := ParseRecord(h, pack, from).loc;
      ParsedIsEncoded(h, pack, from);
      ScanIsEncoding(h, pack, loc.End());
      Glue(pack, from, loc.End(), ScanEnd(h, pack, from));
      EncodeAllCons(h, ObjAt(pack, loc), ScanObjs(h, pack, loc.End()));
    }
  }

  /**
    * The scan finds the longest valid prefix: whenever a pack begins with the encoding of some objects,
    * the scan finds those objects first, so no longer list of records fits.
    */
  lemma {:induction false} ScanIsLongest(h: Hasher, pack: seq<byte>, from: nat, objs: seq<Obj>)
    requires from <= |pack|
    requires AllFit(objs)
    requires EncodeAll(h, objs) <= pack[from..]
    ensures objs <= ScanObjs(h, pack, from)
    ensures from + |EncodeAll(h, objs)| <= ScanEnd(h, pack, from)
    decreases |objs|
  {
    hide ParseRecord, EncodeRecord;
    if objs != [] {
      var first := EncodeRecord(h, objs[0]);
      PeelTail(pack, from, first, EncodeAll(h, objs[1..]));
      ParseEncoded(h, pack[..from], objs[0], pack[from + |first|..]);
      ScanIsLongest(h, pack, from + |first|, objs[1..]);
      assert objs == [objs[0]] + objs[1..];
    }
  }

  /** Appending a record to a cleanly ending pack extends the scan by exactly that record. */
  lemma {:induction false} ScanAppend(h: Hasher, pack: seq<byte>, from: nat, obj: Obj)
    requires from <= |pack| && ScanEnd(h, pack, from) == |pack|
    requires obj.Fits()
    ensures var pack' := pack + EncodeRecord(h, obj);
            && Scan(h, pack', from) == Scan(h, pack, from) + [Loc(|pack|, obj.kind, obj.Id(h), |obj.bytes|)]
            && ScanEnd(h, pack', from) == |pack'|
    decreases |pack| - from
  {
    var pack' := pack + EncodeRecord(h, obj);
    hide ParseRecord, EncodeRecord;
    if from == |pack| {
      ParseEncoded(h, pack, obj, []);
      assert pack + EncodeRecord(h, obj) + [] == pack';
      assert Scan(h, pack', |pack'|) == [];
    } else {
      var loc := ParseRecord(h, pack, from).loc;
      assert pack'[..|pack|] == pack;
      ParseInPrefix(h, pack', |pack|, from);
      ScanAppend(h, pack, loc.End(), obj);
    }
  }

  /** The scan depends only on the bytes up to where it stops. */
  lemma {:induction false} ScanOfPrefix(h: Hasher, pack: seq<byte>, from: nat)
    requires from <= |pack|
    ensures var end := ScanEnd(h, pack, from);
            && Scan(h, pack[..end], from) == Scan(h, pack, from)
            && ScanEnd(h, pack[..end], from) == end
    decreases |pack| - from
  {
    hide ParseRecord;
    if from < |pack| && ParseRecord(h, pack, from).Complete? {
      var loc := ParseRecord(h, pack, from).loc;
      ParseToPrefix(h, pack, ScanEnd(h, pack, from), from);
      ScanOfPrefix(h, pack, loc.End());
    }
  }

  /** Every record the scan lists parses where it is listed, in order and inside the scanned part. */
  lemma {:induction false} ScanElements(h: Hasher, pack: seq<byte>, from: nat, i: nat)
    requires from <= |pack|
    requires i < |Scan(h, pack, from)|
    ensures var loc := Scan(h, pack, from)[i];
            && from <= loc.start < loc.End() <= ScanEnd(h, pack, from)
            && ParseRecord(h, pack, loc.start) == Complete(loc)
            && Scan(h, pack, loc.start) == Scan(h, pack, from)[i..]
            && Scan(h, pack, loc.End()) == Scan(h, pack, from)[i + 1..]
            && ScanEnd(h, pack, loc.End()) == ScanEnd(h, pack, from)
    decreases i
  {
    hide ParseRecord;
    var loc := ParseRecord(h, pack, from).loc;
    ScanAfter(h, pack, loc.End());
    if i > 0 {
      ScanElements(h, pack, loc.End(), i - 1);
      assert Scan(h, pack, from)[i..] == Scan(h, pack, loc.End())[i - 1..];
      assert Scan(h, pack, from)[i + 1..] == Scan(h, pack, loc.End())[i..];
    }
  }

  lemma ScanAfter(h: Hasher, pack: seq<byte>, from: nat)
    requires from <= |pack|
    ensures from <= ScanEnd(h, pack, from)
  {
  }
}
