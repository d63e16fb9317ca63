/** Packed writes of the remote store (remote.rs): many values in one frame, each key left as a pointer into it. */
module RemoteFrames {
  import opened Bytes
  import opened Paths

  type Key = seq<byte>

  /** The files below the remote root, by their relative paths. */
  type Root = map<seq<byte>, seq<byte>>

  const MAX_KEY_BYTES: nat := 96
  const MAX_REF_BYTES: nat := 80
  const MAX_HAVE_BATCH: nat := 4096
  const MAX_OBJECT_BYTES: nat := 256 * 1024 * 1024 + 1024
  const MAX_METADATA_BYTES: nat := 1024 * 1024 + 1024
  const FRAME_POINTER_MAGIC: seq<byte> := [0x41, 0x47, 0x46, 0x50, 0x01]
  const POINTER_LEN: nat := 85

  // ---------- Keys ----------

  predicate IsLowerHex(b: byte) {
    0x30 <= b <= 0x39 || 0x61 <= b <= 0x66
  }

  predicate IsRefByte(b: byte) {
    0x30 <= b <= 0x39 || 0x41 <= b <= 0x5A || 0x61 <= b <= 0x7A || b == 0x2E || b == 0x5F || b == 0x2D || b == SLASH
  }

  predicate ValidRef(name: seq<byte>) {
    && name != [] && |name| <= MAX_REF_BYTES
    && (forall i | 0 <= i < |name| :: IsRefByte(name[i]))
    && name[0] != SLASH && name[|name| - 1] != SLASH
    && SafeComponents(name)
  }

  predicate StartsWith(text: seq<byte>, prefix: seq<byte>) {
    prefix <= text
  }

  predicate EndsWith(text: seq<byte>, suffix: seq<byte>) {
    |suffix| <= |text| && text[|text| - |suffix|..] == suffix
  }

  /** What a reference key leaves before its last component. */
  function RefName(rest: seq<byte>): Option<seq<byte>> {
    if EndsWith(rest, Ascii("/HEAD")) then Some(rest[..|rest| - 5])
    else if EndsWith(rest, Ascii("/LEASE")) then Some(rest[..|rest| - 6])
    else None
  }

  predicate ValidObjectName(value: seq<byte>) {
    && |value| == 65 && value[2] == SLASH
    && forall i | 0 <= i < |value| && i != 2 :: IsLowerHex(value[i])
  }

  predicate ValidKey(key: Key) {
    if key == Ascii("HEAD") || key == Ascii("LEASE") then true
    else if StartsWith(key, Ascii("refs/")) then RefName(key[5..]).Some? && ValidRef(RefName(key[5..]).value)
    else if StartsWith(key, Ascii("objects/")) then ValidObjectName(key[8..])
    else false
  }

  function KeyLimit(key: Key): nat {
    if StartsWith(key, Ascii("objects/")) then MAX_OBJECT_BYTES else MAX_METADATA_BYTES
  }

  lemma KeysAreShort(key: Key)
    requires ValidKey(key)
    ensures |key| <= MAX_KEY_BYTES
  {
  }

  function Hex(bytes: seq<byte>): (text: seq<byte>)
    ensures |text| == 2 * |bytes|
    ensures forall i | 0 <= i < |text| :: IsLowerHex(text[i])
  {
    if bytes == [] then [] else [Nibble(bytes[0] / 16), Nibble(bytes[0] % 16)] + Hex(bytes[1..])
  }

  function Nibble(n: nat): (b: byte)
    requires n < 16
    ensures IsLowerHex(b)
  {
    if n < 10 then 0x30 + n else 0x61 + n - 10
  }

  function FrameKey(frameId: seq<byte>): seq<byte> {
    Ascii("frames/") + frameId
  }

  // ---- which keys there are ----

  /** Where the head of a reference is published. */
  function HeadKey(name: Option<seq<byte>>): Key {
    if name.None? then Ascii("HEAD") else Ascii("refs/") + name.value + Ascii("/HEAD")
  }

  /** Where its single writer is registered. */
  function LeaseKey(name: Option<seq<byte>>): Key {
    if name.None? then Ascii("LEASE") else Ascii("refs/") + name.value + Ascii("/LEASE")
  }

  /** The hexadecimal form of an identifier, with a slash after its first byte. */
  function Sharded(id: Digest): seq<byte> {
    Hex(id)[..2] + [SLASH] + Hex(id)[2..]
  }

  /** Names of references: letters, digits and four marks, and between slashes always something other than dots. */
  lemma ValidRefIff(name: seq<byte>)
    ensures ValidRef(name) <==>
              && |name| <= 80
              && (forall i | 0 <= i < |name| ::
                    || 'A' as int <= name[i] <= 'Z' as int || 'a' as int <= name[i] <= 'z' as int
                    || '0' as int <= name[i] <= '9' as int || name[i] == '.' as int || name[i] == '_' as int
                    || name[i] == '-' as int || name[i] == '/' as int)
              && !Contains(Fenced(name), Ascii("//")) && !Contains(Fenced(name), Ascii("/./"))
              && !Contains(Fenced(name), Ascii("/../"))
  {
    assert Ascii("//") == [SLASH, SLASH] && Ascii("/./") == [SLASH, DOT, SLASH];
    assert Ascii("/../") == [SLASH, DOT, DOT, SLASH];
    SafeIff(name);
    hide Contains, SafeComponents;
    if SafeComponents(name) {
      SafeEnds(name);
    }
  }

  lemma SafeEnds(text: seq<byte>)
    requires SafeComponents(text)
    ensures text != [] && text[0] != SLASH && text[|text| - 1] != SLASH
  {
    SafeIff(text);
    assert Fenced(text)[0..2] == [SLASH, Fenced(text)[1]];
    var n := |Fenced(text)|;
    assert Fenced(text)[n - 2..n] == [Fenced(text)[n - 2], SLASH];
    assert !OccursAt(Fenced(text), [SLASH, SLASH], 0) && !OccursAt(Fenced(text), [SLASH, SLASH], n - 2);
  }

  /** The keys of a reference are valid exactly if its name is. */
  lemma RefKeysIff(name: seq<byte>)
    ensures ValidKey(HeadKey(Some(name))) <==> ValidRef(name)
    ensures ValidKey(LeaseKey(Some(name))) <==> ValidRef(name)
    ensures ValidKey(HeadKey(None)) && ValidKey(LeaseKey(None))
  {
    hide ValidRef;
    RefRest(name, Ascii("/HEAD"));
    RefRest(name, Ascii("/LEASE"));
    assert name + Ascii("/HEAD") != name + Ascii("/LEASE");
    assert (name + Ascii("/LEASE"))[|name| + 5] != (name + Ascii("/HEAD"))[|name| + 4];
  }

  lemma RefRest(name: seq<byte>, suffix: seq<byte>)
    ensures var key := Ascii("refs/") + name + suffix;
            && StartsWith(key, Ascii("refs/")) && key[5..] == name + suffix
            && EndsWith(name + suffix, suffix) && (name + suffix)[..|name|] == name
  {
  }

  /** No two references share a key, and no head shares one with a lease. */
  lemma RefKeysApart(a: Option<seq<byte>>, b: Option<seq<byte>>)
    ensures HeadKey(a) == HeadKey(b) <==> a == b
    ensures LeaseKey(a) == LeaseKey(b) <==> a == b
    ensures HeadKey(a) != LeaseKey(b)
  {
    var head, lease := Ascii("/HEAD"), Ascii("/LEASE");
    if a.Some? {
      RefRest(a.value, head);
      RefRest(a.value, lease);
    }
    if b.Some? {
      RefRest(b.value, head);
      RefRest(b.value, lease);
    }
    assert HeadKey(a)[|HeadKey(a)| - 1] == 0x44 && LeaseKey(b)[|LeaseKey(b)| - 1] == 0x45;
  }

  function NibbleOf(b: byte): (n: nat)
    requires IsLowerHex(b)
    ensures n < 16 && Nibble(n) == b
  {
    if b <= 0x39 then b - 0x30 else b - 0x61 + 10
  }

  function Unhex(text: seq<byte>): (bytes: seq<byte>)
    requires |text| % 2 == 0 && forall i | 0 <= i < |text| :: IsLowerHex(text[i])
    ensures 2 * |bytes| == |text| && Hex(bytes) == text
  {
    if text == [] then []
    else
      var rest := text[2..];
      assert text == [text[0], text[1]] + rest;
      var first: byte := 16 * NibbleOf(text[0]) + NibbleOf(text[1]);
      assert first / 16 == NibbleOf(text[0]) && first % 16 == NibbleOf(text[1]);
      var bytes := [first] + Unhex(rest);
      assert bytes[1..] == Unhex(rest);
      bytes
  }

  /** The keys of objects are exactly the sharded identifiers. */
  lemma ObjectKeyIff(value: seq<byte>)
    ensures ValidKey(Ascii("objects/") + value) <==> exists id: Digest :: value == Sharded(id)
  {
    var key := Ascii("objects/") + value;
    assert key[8..] == value && StartsWith(key, Ascii("objects/"));
    assert key[0] == 0x6F;
    if ValidObjectName(value) {
      var text := value[..2] + value[3..];
      forall i | 0 <= i < |text|
        ensures IsLowerHex(text[i])
      {
        assert text[i] == value[if i < 2 then i else i + 1];
      }
      var id: Digest := Unhex(text);
      assert Hex(id)[..2] == value[..2] && Hex(id)[2..] == value[3..];
      assert value == value[..2] + [SLASH] + value[3..];
      assert value == Sharded(id);
    }
    if id: Digest :| value == Sharded(id) {
      assert forall i | 0 <= i < 65 && i != 2 :: value[i] == Hex(id)[if i < 2 then i else i - 1];
    }
  }

  /** No key a client may write names a stored frame. */
  lemma FramesAreOutOfReach(key: Key, frameId: seq<byte>)
    requires ValidKey(key)
    ensures key != FrameKey(frameId)
  {
    assert FrameKey(frameId)[0] == 0x66;
    assert Ascii("HEAD")[0] == 0x48 && Ascii("LEASE")[0] == 0x4C && Ascii("refs/")[0] == 0x72 && Ascii("objects/")[0] == 0x6F;
  }

  // ---------- The write frame ----------

  datatype Value = Value(key: Key, bytes: seq<byte>) {
    predicate Allowed() {
      ValidKey(key) && |bytes| <= KeyLimit(key)
    }
  }

  function EncodeValue(v: Value): (r: seq<byte>)
    ensures |r| == 10 + |v.key| + |v.bytes|
  {
    EncodeLE(|v.key|, 2) + EncodeLE(|v.bytes|, 8) + v.key + v.bytes
  }

  function EncodeValues(values: seq<Value>): seq<byte> {
    if values == [] then [] else EncodeValue(values[0]) + EncodeValues(values[1..])
  }

  function EncodeFrame(values: seq<Value>): seq<byte> {
    EncodeLE(|values|, 4) + EncodeValues(values)
  }

  /** A decoded value: its key and where in the payload it lies. */
  datatype Slot = Slot(key: Key, offset: nat, length: nat)

  predicate Inside(payload: seq<byte>, slot: Slot) {
    slot.offset + slot.length <= |payload|
  }

  function ValueAt(payload: seq<byte>, slot: Slot): Value
    requires Inside(payload, slot)
  {
    Value(slot.key, payload[slot.offset..slot.offset + slot.length])
  }

  function DecodeSlot(payload: seq<byte>, at: nat): (slot: Option<Slot>)
    requires at <= |payload|
    ensures slot.Some? ==> at + 10 + |slot.value.key| == slot.value.offset && Inside(payload, slot.value)
  {
    if |payload| < at + 10 then None
    else
      var keyLen, valueLen := DecodeLE(payload[at..at + 2]), DecodeLE(payload[at + 2..at + 10]);
      if MAX_KEY_BYTES < keyLen || |payload| < at + 10 + keyLen + valueLen then None
      else
        var key := payload[at + 10..at + 10 + keyLen];
        if !ValidKey(key) || KeyLimit(key) < valueLen then None else Some(Slot(key, at + 10 + keyLen, valueLen))
  }

  function DecodeSlots(payload: seq<byte>, at: nat, count: nat): Option<seq<Slot>>
    requires at <= |payload|
    decreases count
  {
    if count == 0 then if at == |payload| then Some([]) else None
    else
      match DecodeSlot(payload, at)
      case None => None
      case Some(slot) =>
        match DecodeSlots(payload, slot.offset + slot.length, count - 1)
        case None => None
        case Some(rest) => Some([slot] + rest)
  }

  function DecodeFrame(payload: seq<byte>): Option<seq<Slot>> {
    if |payload| < 4 || MAX_HAVE_BATCH < DecodeLE(payload[..4]) then None
    else DecodeSlots(payload, 4, DecodeLE(payload[..4]))
  }

  method DecodeWriteFrame(payload: seq<byte>) returns (slots: Option<seq<Slot>>)
    ensures slots == DecodeFrame(payload)
  {
    hide ValidKey, KeyLimit, DecodeLE;
    if |payload| < 4 {
      return None;
    }
    var count := DecodeLE(payload[..4]);
    if count > MAX_HAVE_BATCH {
      return None;
    }
    var cursor: nat := 4;
    var found: seq<Slot> := [];
    ghost var all := DecodeSlots(payload, 4, count);
    if all.Some? {
      assert found + all.value == all.value;
    }
    for i := 0 to count
      invariant cursor <= |payload|
      invariant all == match DecodeSlots(payload, cursor, count - i) case None => None case Some(rest) => Some(found + rest)
    {
      if cursor + 10 > |payload| {
        return None;
      }
      var keyLen := DecodeLE(payload[cursor..cursor + 2]);
      var valueLen := DecodeLE(payload[cursor + 2..cursor + 10]);
      if keyLen > MAX_KEY_BYTES || cursor + 10 + keyLen + valueLen > |payload| {
        return None;
      }
      var key := payload[cursor + 10..cursor + 10 + keyLen];
      if !ValidKey(key) || valueLen > KeyLimit(key) {
        return None;
      }
      var slot := Slot(key, cursor + 10 + keyLen, valueLen);
      ghost var rest := DecodeSlots(payload, slot.offset + slot.length, count - i - 1);
      if rest.Some? {
        Regroup(found, [slot], rest.value);
      }
      found := found + [slot];
      cursor := slot.offset + slot.length;
    }
    if cursor != |payload| {
      return None;
    }
    assert found + [] == found;
    slots := Some(found);
  }

  ghost predicate Holding(payload: seq<byte>, slots: seq<Slot>, values: seq<Value>) {
    |slots| == |values| && forall i | 0 <= i < |slots| :: Inside(payload, slots[i]) && ValueAt(payload, slots[i]) == values[i]
  }

  lemma SlotReadsBack(payload: seq<byte>, at: nat, v: Value, after: seq<byte>)
    requires at <= |payload| && v.Allowed() && payload[at..] == EncodeValue(v) + after
    ensures DecodeSlot(payload, at) == Some(Slot(v.key, at + 10 + |v.key|, |v.bytes|))
    ensures ValueAt(payload, Slot(v.key, at + 10 + |v.key|, |v.bytes|)) == v
    ensures payload[at + 10 + |v.key| + |v.bytes|..] == after
  {
    hide ValidKey, KeyLimit, DecodeLE, EncodeLE, EncodeValue;
    KeysAreShort(v.key);
    var k, n := |v.key|, |v.bytes|;
    var rest := payload[at..];
    ValueFields(rest, v, after);
    SliceOfTail(payload, at, 0, 2);
    SliceOfTail(payload, at, 2, 10);
    SliceOfTail(payload, at, 10, 10 + k);
    SliceOfTail(payload, at, 10 + k, 10 + k + n);
  }

  lemma ValueFields(rest: seq<byte>, v: Value, after: seq<byte>)
    requires v.Allowed() && rest == EncodeValue(v) + after
    ensures var k, n := |v.key|, |v.bytes|;
      && DecodeLE(rest[0..2]) == k && DecodeLE(rest[2..10]) == n
      && rest[10..10 + k] == v.key && rest[10 + k..10 + k + n] == v.bytes && rest[10 + k + n..] == after
  {
    hide ValidKey, KeyLimit, DecodeLE, EncodeLE;
    JoinOfFive(EncodeLE(|v.key|, 2), EncodeLE(|v.bytes|, 8), v.key, v.bytes, after);
    SmallLengths(v);
    DecodeEncodeLE(|v.key|, 2);
    DecodeEncodeLE(|v.bytes|, 8);
  }

  lemma SmallLengths(v: Value)
    requires v.Allowed()
    ensures |v.key| < Pow256(2) && |v.bytes| < Pow256(8)
  {
    KeysAreShort(v.key);
    Pow256Eight();
    assert Pow256(2) == 256 * (256 * Pow256(0));
  }

  lemma {:induction false} SlotsReadBack(payload: seq<byte>, at: nat, values: seq<Value>)
    requires at <= |payload| && payload[at..] == EncodeValues(values)
    requires forall i | 0 <= i < |values| :: values[i].Allowed()
    ensures DecodeSlots(payload, at, |values|).Some?
    ensures Holding(payload, DecodeSlots(payload, at, |values|).value, values)
    decreases |values|
  {
    hide EncodeValue, DecodeSlot, ValueAt;
    if values != [] {
      var v := values[0];
      SlotReadsBack(payload, at, v, EncodeValues(values[1..]));
      var next := at + 10 + |v.key| + |v.bytes|;
      SlotsReadBack(payload, next, values[1..]);
      var rest := DecodeSlots(payload, next, |values| - 1).value;
      var slots := [Slot(v.key, at + 10 + |v.key|, |v.bytes|)] + rest;
      forall i | 0 <= i < |slots| ensures Inside(payload, slots[i]) && ValueAt(payload, slots[i]) == values[i] {
        if i > 0 {
          assert slots[i] == rest[i - 1] && values[i] == values[1..][i - 1];
        }
      }
    }
  }

  /** A frame of allowed values decodes exactly when it holds no more than a batch, and then to those values. */
  lemma FrameReadsBack(values: seq<Value>)
    requires |values| < Pow256(4) && forall i | 0 <= i < |values| :: values[i].Allowed()
    ensures DecodeFrame(EncodeFrame(values)).Some? <==> |values| <= MAX_HAVE_BATCH
    ensures |values| <= MAX_HAVE_BATCH ==> Holding(EncodeFrame(values), DecodeFrame(EncodeFrame(values)).value, values)
  {
    hide DecodeSlots, EncodeValues, DecodeLE, EncodeLE, Holding;
    var payload := EncodeFrame(values);
    DecodeEncodeLE(|values|, 4);
    assert payload[..4] == EncodeLE(|values|, 4) && payload[4..] == EncodeValues(values);
    SlotsReadBack(payload, 4, values);
  }

  lemma SlotIsWritten(payload: seq<byte>, at: nat)
    requires at <= |payload| && DecodeSlot(payload, at).Some?
    ensures var slot := DecodeSlot(payload, at).value;
            ValueAt(payload, slot).Allowed()
            && payload[at..slot.offset + slot.length] == EncodeValue(ValueAt(payload, slot))
  {
    hide DecodeLE, EncodeLE, ValidKey, KeyLimit, DecodeSlot;
    SlotShape(payload, at);
    var slot := DecodeSlot(payload, at).value;
    var end := slot.offset + slot.length;
    EncodeDecodeLE(payload[at..at + 2]);
    EncodeDecodeLE(payload[at + 2..at + 10]);
    Glue(payload, at, at + 2, at + 10);
    Glue(payload, at, at + 10, slot.offset);
    Glue(payload, at, slot.offset, end);
  }

  lemma SlotShape(payload: seq<byte>, at: nat)
    requires at <= |payload| && DecodeSlot(payload, at).Some?
    ensures var slot := DecodeSlot(payload, at).value;
      && slot.offset == at + 10 + |slot.key| && slot.offset + slot.length <= |payload|
      && slot.key == payload[at + 10..slot.offset]
      && DecodeLE(payload[at..at + 2]) == |slot.key| && DecodeLE(payload[at + 2..at + 10]) == slot.length
      && ValidKey(slot.key) && slot.length <= KeyLimit(slot.key)
  {
    hide DecodeLE, ValidKey, KeyLimit;
  }

  lemma {:induction false} SlotsAreWritten(payload: seq<byte>, at: nat, count: nat) returns (values: seq<Value>)
    requires at <= |payload| && DecodeSlots(payload, at, count).Some?
    ensures |values| == count && Holding(payload, DecodeSlots(payload, at, count).value, values)
    ensures payload[at..] == EncodeValues(values) && forall i | 0 <= i < |values| :: values[i].Allowed()
    decreases count
  {
    hide EncodeValue, DecodeSlot, ValueAt, ValidKey, KeyLimit;
    if count == 0 {
      values := [];
    } else {
      SlotIsWritten(payload, at);
      var slot := DecodeSlot(payload, at).value;
      var next := slot.offset + slot.length;
      var rest := SlotsAreWritten(payload, next, count - 1);
      values := [ValueAt(payload, slot)] + rest;
      assert values[1..] == rest;
      Glue(payload, at, next, |payload|);
      assert payload[at..|payload|] == payload[at..] && payload[next..|payload|] == payload[next..];
    }
  }

  /** Whatever decodes is, byte for byte, the frame of the values it holds: nothing may trail or hide. */
  lemma FrameIsWritten(payload: seq<byte>) returns (values: seq<Value>)
    requires DecodeFrame(payload).Some?
    ensures payload == EncodeFrame(values) && |values| <= MAX_HAVE_BATCH
    ensures Holding(payload, DecodeFrame(payload).value, values) && forall i | 0 <= i < |values| :: values[i].Allowed()
  {
    hide DecodeSlots, EncodeValues, DecodeLE, EncodeLE, Holding;
    values := SlotsAreWritten(payload, 4, DecodeLE(payload[..4]));
    EncodeDecodeLE(payload[..4]);
    assert payload == payload[..4] + payload[4..];
  }

  // ---------- Pointers ----------

  function Pointer(frameId: seq<byte>, offset: nat, length: nat): (p: seq<byte>)
    requires |frameId| == 64
    ensures |p| == POINTER_LEN
  {
    FRAME_POINTER_MAGIC + frameId + EncodeLE(offset, 8) + EncodeLE(length, 8)
  }

  /** The formats of a frame and of a pointer into one, byte by byte. */
  lemma FrameIs(values: seq<Value>, frameId: seq<byte>, offset: nat, length: nat)
    requires |frameId| == 64
    ensures EncodeFrame(values) == EncodeLE(|values|, 4) + EncodeValues(values)
    ensures values != [] ==>
              EncodeValues(values) ==
                EncodeLE(|values[0].key|, 2) + EncodeLE(|values[0].bytes|, 8) + values[0].key + values[0].bytes
                + EncodeValues(values[1..])
    ensures Pointer(frameId, offset, length) == Ascii("AGFP") + [1] + frameId + EncodeLE(offset, 8) + EncodeLE(length, 8)
  {
    hide EncodeLE;
    assert Ascii("AGFP") + [1] == FRAME_POINTER_MAGIC;
  }

  /** What a reader finds under a key: the file itself, or the part of a frame it points to. */
  function ReadRemoteValue(root: Root, key: Key, limit: nat): Option<seq<byte>> {
    if key !in root || |root[key]| > (if limit < POINTER_LEN then POINTER_LEN else limit) then None
    else
      var pointer := root[key];
      if !StartsWith(pointer, FRAME_POINTER_MAGIC) then if |pointer| <= limit then Some(pointer) else None
      else if |pointer| != POINTER_LEN then None
      else
        var frameId := pointer[5..69];
        var offset, length := DecodeLE(pointer[69..77]), DecodeLE(pointer[77..85]);
        if (exists i :: 0 <= i < |frameId| && !IsLowerHex(frameId[i])) || limit < length || FrameKey(frameId) !in root then None
        else
          var frame := root[FrameKey(frameId)];
          if Pow256(8) <= offset + length || |frame| < offset + length then None else Some(frame[offset..offset + length])
  }

  /** The bytes of a key end up where its last slot in the frame says. */
  /** No read returns more than it was allowed to. */
  lemma ReadsWithinLimit(root: Root, key: Key, limit: nat)
    ensures ReadRemoteValue(root, key, limit).Some? ==> |ReadRemoteValue(root, key, limit).value| <= limit
  {
    hide FrameKey, DecodeLE;
  }

  /** What may be stored under a key: 256 MiB for an object and 1 MiB for anything else, with 1 KiB to spare. */
  lemma AllowedIff(v: Value)
    ensures v.Allowed() <==>
              ValidKey(v.key) && |v.bytes| <= (if Ascii("objects/") <= v.key then 268_436_480 else 1_049_600)
  {
    hide ValidKey;
  }

  function LastSlot(slots: seq<Slot>, key: Key): Option<Slot> {
    if slots == [] then None
    else if slots[|slots| - 1].key == key then Some(slots[|slots| - 1])
    else LastSlot(slots[..|slots| - 1], key)
  }

  /** The root after a packed write: the frame, unless it was there, and a pointer under every listed key. */
  ghost predicate Packed(root: Root, after: Root, payload: seq<byte>, slots: seq<Slot>, frameId: seq<byte>)
    requires |frameId| == 64
  {
    && FrameKey(frameId) in after
    && after[FrameKey(frameId)] == (if FrameKey(frameId) in root then root[FrameKey(frameId)] else payload)
    && forall key | key != FrameKey(frameId) ::
         match LastSlot(slots, key)
         case Some(slot) => key in after && after[key] == Pointer(frameId, slot.offset, slot.length)
         case None => (key in after <==> key in root) && (key in after ==> after[key] == root[key])
  }

  /** Stores the payload once under its hash and leaves a pointer under every key. */
  method WritePackedFrame(h: Hasher, root: Root, payload: seq<byte>, slots: seq<Slot>) returns (after: Root)
    requires forall i | 0 <= i < |slots| :: Inside(payload, slots[i]) && ValidKey(slots[i].key)
    ensures Packed(root, after, payload, slots, Hex(h(payload)))
  {
    hide ValidKey, Hex, Pointer;
    var frameId := Hex(h(payload));
    var frameKey := FrameKey(frameId);
    after := root;
    if frameKey !in root {
      after := after[frameKey := payload];
    }
    for i := 0 to |slots|
      invariant frameKey in after && after[frameKey] == (if frameKey in root then root[frameKey] else payload)
      invariant forall key | key != frameKey ::
        match LastSlot(slots[..i], key)
        case Some(slot) => key in after && after[key] == Pointer(frameId, slot.offset, slot.length)
        case None => (key in after <==> key in root) && (key in after ==> after[key] == root[key])
    {
      FramesAreOutOfReach(slots[i].key, frameId);
      assert slots[..i + 1][..i] == slots[..i];
      after := after[slots[i].key := Pointer(frameId, slots[i].offset, slots[i].length)];
    }
    assert slots[..|slots|] == slots;
  }

  lemma PointerFields(frameId: seq<byte>, offset: nat, length: nat)
    requires |frameId| == 64 && offset < Pow256(8) && length < Pow256(8)
    ensures var p := Pointer(frameId, offset, length);
      StartsWith(p, FRAME_POINTER_MAGIC) && p[5..69] == frameId && DecodeLE(p[69..77]) == offset && DecodeLE(p[77..85]) == length
  {
    hide DecodeLE, EncodeLE;
    JoinOfFive(FRAME_POINTER_MAGIC, frameId, EncodeLE(offset, 8), EncodeLE(length, 8), []);
    var p := Pointer(frameId, offset, length);
    assert FRAME_POINTER_MAGIC + frameId + EncodeLE(offset, 8) + EncodeLE(length, 8) + [] == p;
    assert p[0..5] == FRAME_POINTER_MAGIC;
    DecodeEncodeLE(offset, 8);
    DecodeEncodeLE(length, 8);
  }

  /** Following a pointer. */
  lemma PointerLeads(root: Root, key: Key, frameId: seq<byte>, offset: nat, length: nat, limit: nat)
    requires |frameId| == 64 && (forall i | 0 <= i < 64 :: IsLowerHex(frameId[i])) && FrameKey(frameId) in root
    requires key in root && root[key] == Pointer(frameId, offset, length)
    requires offset + length <= |root[FrameKey(frameId)]| < Pow256(8) && length <= limit
    ensures ReadRemoteValue(root, key, limit) == Some(root[FrameKey(frameId)][offset..offset + length])
  {
    hide DecodeLE, EncodeLE, Pointer, FrameKey, Pow256, StartsWith;
    PointerFields(frameId, offset, length);
  }

  /** After a packed write every listed key reads as the last value framed for it; the frame may already be
      there, if it is the same. */
  lemma ListedKeyReads(h: Hasher, root: Root, payload: seq<byte>, slots: seq<Slot>, after: Root, key: Key)
    requires DecodeFrame(payload) == Some(slots) && |payload| < Pow256(8)
    requires Packed(root, after, payload, slots, Hex(h(payload)))
    requires FrameKey(Hex(h(payload))) in root ==> root[FrameKey(Hex(h(payload)))] == payload
    requires ValidKey(key) && LastSlot(slots, key).Some?
    ensures var slot := LastSlot(slots, key).value;
            Inside(payload, slot) && ReadRemoteValue(after, key, KeyLimit(key)) == Some(ValueAt(payload, slot).bytes)
  {
    hide ValidKey, Hex, KeyLimit, DecodeFrame, EncodeFrame, DecodeLE, Pow256, ReadRemoteValue, Pointer, FrameKey;
    var frameId := Hex(h(payload));
    FramesAreOutOfReach(key, frameId);
    var values := FrameIsWritten(payload);
    var i := LastSlotIs(slots, key);
    assert values[i].Allowed() && ValueAt(payload, slots[i]) == values[i];
    PointerLeads(after, key, frameId, slots[i].offset, slots[i].length, KeyLimit(key));
  }

  /** Every other key reads as before, whether it holds its value or points into an earlier frame. */
  lemma OtherKeyReads(h: Hasher, root: Root, payload: seq<byte>, slots: seq<Slot>, after: Root, key: Key, limit: nat)
    requires DecodeFrame(payload) == Some(slots)
    requires Packed(root, after, payload, slots, Hex(h(payload)))
    requires ValidKey(key) && LastSlot(slots, key).None? && ReadRemoteValue(root, key, limit).Some?
    ensures ReadRemoteValue(after, key, limit) == ReadRemoteValue(root, key, limit)
  {
    hide ValidKey, Hex, KeyLimit, DecodeFrame, EncodeFrame, DecodeLE, Pow256, Pointer, FrameKey, LastSlot, Holding;
    var frameId := Hex(h(payload));
    FramesAreOutOfReach(key, frameId);
    var values := FrameIsWritten(payload);
    if StartsWith(root[key], FRAME_POINTER_MAGIC) {
      FrameKept(root, after, slots, frameId, values, payload, root[key][5..69]);
    }
  }

  lemma {:induction false} LastSlotIs(slots: seq<Slot>, key: Key) returns (i: nat)
    requires LastSlot(slots, key).Some?
    ensures i < |slots| && slots[i] == LastSlot(slots, key).value && slots[i].key == key
  {
    if slots[|slots| - 1].key == key {
      i := |slots| - 1;
    } else {
      i := LastSlotIs(slots[..|slots| - 1], key);
    }
  }

  /** Frames stored earlier stay as they are. */
  lemma FrameKept(
      root: Root, after: Root, slots: seq<Slot>, frameId: seq<byte>, values: seq<Value>, payload: seq<byte>, other: seq<byte>)
    requires Holding(payload, slots, values) && forall i | 0 <= i < |values| :: values[i].Allowed()
    requires forall k | k != FrameKey(frameId) && LastSlot(slots, k).None? :: k in root ==> k in after && after[k] == root[k]
    requires FrameKey(frameId) in root ==> FrameKey(frameId) in after && after[FrameKey(frameId)] == root[FrameKey(frameId)]
    ensures FrameKey(other) in root ==> FrameKey(other) in after && after[FrameKey(other)] == root[FrameKey(other)]
  {
    hide ValidKey, KeyLimit, FrameKey;
    if LastSlot(slots, FrameKey(other)).Some? {
      var i := LastSlotIs(slots, FrameKey(other));
      assert ValueAt(payload, slots[i]) == values[i] && values[i].Allowed();
      FramesAreOutOfReach(slots[i].key, other);
    }
  }

  /** The bytes are a pointer to the place in a stored frame where those same bytes lie: the frame would have to
      contain its own hash. */
  predicate PointsAtItself(root: Root, bytes: seq<byte>) {
    && |bytes| == POINTER_LEN
    && (forall i | 5 <= i < 69 :: IsLowerHex(bytes[i]))
    && FrameKey(bytes[5..69]) in root
    && var offset := DecodeLE(bytes[69..77]);
       && DecodeLE(bytes[77..85]) == POINTER_LEN && offset + POINTER_LEN < Pow256(8)
       && offset + POINTER_LEN <= |root[FrameKey(bytes[5..69])]|
       && root[FrameKey(bytes[5..69])][offset..offset + POINTER_LEN] == bytes
  }

  /** Exactly which values written on their own read back: those that do not begin like a pointer, and a pointer to
      itself. */
  lemma PlainValueReads(root: Root, key: Key, bytes: seq<byte>)
    requires |bytes| <= KeyLimit(key)
    ensures ReadRemoteValue(root[key := bytes], key, KeyLimit(key)) == Some(bytes) <==>
      !StartsWith(bytes, FRAME_POINTER_MAGIC) || PointsAtItself(root[key := bytes], bytes)
  {
    var after := root[key := bytes];
    hide DecodeLE, Pow256, FrameKey, KeyLimit;
    if StartsWith(bytes, FRAME_POINTER_MAGIC) && |bytes| == POINTER_LEN {
      HexSlice(bytes);
    }
  }

  lemma HexSlice(bytes: seq<byte>)
    requires |bytes| == POINTER_LEN
    ensures (forall i | 0 <= i < |bytes[5..69]| :: IsLowerHex(bytes[5..69][i])) <==>
      forall i | 5 <= i < 69 :: IsLowerHex(bytes[i])
  {
    hide IsLowerHex;
    if forall i | 0 <= i < |bytes[5..69]| :: IsLowerHex(bytes[5..69][i]) {
      forall i | 5 <= i < 69 ensures IsLowerHex(bytes[i]) {
        assert bytes[5..69][i - 5] == bytes[i];
      }
    }
  }

  /** One such value: the magic alone is stored but cannot be read, under any key. */
  lemma MagicDoesNotRead(root: Root, key: Key)
    requires |FRAME_POINTER_MAGIC| <= KeyLimit(key)
    ensures ReadRemoteValue(root[key := FRAME_POINTER_MAGIC], key, KeyLimit(key)) == None
  {
    PlainValueReads(root, key, FRAME_POINTER_MAGIC);
    hide KeyLimit, DecodeLE;
  }
}
