/** Content-defined chunking of a stream (chunker.rs). */
module Chunker {
  import opened Bytes

  const MIN_CHUNK: nat := 64 * 1024
  const AVG_CHUNK: nat := 256 * 1024
  const MAX_CHUNK: nat := 1024 * 1024
  const READ_BUFFER: nat := 64 * 1024
  const EARLY_MASK: bv64 := 0x7FFFF
  const LATE_MASK: bv64 := 0x1FFFF

  function GearState(i: nat): bv64 {
    if i == 0 then 0x9e3779b97f4a7c15
    else
      var a := GearState(i - 1);
      var b := a ^ (a >> 12);
      var c := b ^ (b << 25);
      c ^ (c >> 27)
  }

  function Gear(value: byte): bv64 {
    GearState(value + 1) * 0x2545f4914f6cdd1d
  }

  function Rolled(hash: bv64, value: byte): bv64 {
    hash.RotateLeft(1) + Gear(value)
  }

  /** Every byte turns the hash by one bit and adds its own number. */
  lemma RollIs(hash: bv64, value: byte)
    ensures Rolled(hash, value) == ((hash << 1) | (hash >> 63)) + Gear(value)
  {
    hide Gear;
  }

  function HashOf(chunk: seq<byte>): bv64 {
    if chunk == [] then 0 else Rolled(HashOf(chunk[..|chunk| - 1]), chunk[|chunk| - 1])
  }

  predicate CutsAfter(length: nat, hash: bv64) {
    if length < MIN_CHUNK then false
    else if length < AVG_CHUNK then hash & EARLY_MASK == 0
    else hash & LATE_MASK == 0
  }

  /** Where the chunk at the start of `rest` ends, if its first `n` bytes hold no boundary. */
  function CutFrom(rest: seq<byte>, n: nat): (length: nat)
    requires n <= |rest| && n <= MAX_CHUNK
    ensures n <= length <= |rest| && length <= MAX_CHUNK
    decreases |rest| - n
  {
    if n == |rest| || n == MAX_CHUNK then n
    else if CutsAfter(n + 1, HashOf(rest[..n + 1])) then n + 1
    else CutFrom(rest, n + 1)
  }

  /** The first chunk depends on the bytes that are left and on nothing else. */
  function ChunkLen(rest: seq<byte>): nat {
    CutFrom(rest, 0)
  }

  lemma {:induction false} ChunkLenBounds(rest: seq<byte>, n: nat)
    requires n < |rest| && n < MAX_CHUNK
    ensures 0 < CutFrom(rest, n)
    ensures CutFrom(rest, n) < |rest| ==> CutFrom(rest, n) >= MIN_CHUNK
    decreases |rest| - n
  {
    hide HashOf;
    if n + 1 < |rest| && n + 1 < MAX_CHUNK && !CutsAfter(n + 1, HashOf(rest[..n + 1])) {
      ChunkLenBounds(rest, n + 1);
    }
  }

  /** How rare a boundary is: early in a chunk one hash in two average lengths, later one in half of one. */
  predicate Divides(hash: bv64, early: bool) {
    if early then hash % 0x80000 == 0 else hash % 0x20000 == 0
  }

  lemma RaritiesAre()
    ensures (0x80000 as bv64) as nat == 2 * AVG_CHUNK && (0x20000 as bv64) as nat == AVG_CHUNK / 2
  {
  }

  predicate BoundaryAt(rest: seq<byte>, n: nat)
    requires n <= |rest|
  {
    MIN_CHUNK <= n && Divides(HashOf(rest[..n]), n < AVG_CHUNK)
  }

  lemma CutsAfterIff(rest: seq<byte>, n: nat)
    requires n <= |rest|
    ensures CutsAfter(n, HashOf(rest[..n])) <==> BoundaryAt(rest, n)
  {
    hide HashOf, Divides;
    MasksDivide(HashOf(rest[..n]));
  }

  lemma MasksDivide(hash: bv64)
    ensures hash & EARLY_MASK == 0 <==> Divides(hash, true)
    ensures hash & LATE_MASK == 0 <==> Divides(hash, false)
  {
    LowBits(hash);
    hide Divides;
  }

  lemma LowBits(hash: bv64)
    ensures hash & 0x7FFFF == 0 <==> Divides(hash, true)
    ensures hash & 0x1FFFF == 0 <==> Divides(hash, false)
  {
  }

  /** A chunk ends at the first boundary from the minimum length on, at the maximum length, or with the input. */
  lemma {:induction false} CutIsFirstBoundary(rest: seq<byte>, n: nat)
    requires n <= |rest| && n <= MAX_CHUNK
    ensures var length := CutFrom(rest, n);
            && (forall m | n < m < length :: !BoundaryAt(rest, m))
            && (n < |rest| && n < MAX_CHUNK ==>
                  n < length && (length == |rest| || length == MAX_CHUNK || BoundaryAt(rest, length)))
    decreases |rest| - n
  {
    hide HashOf, CutsAfter, BoundaryAt;
    if n < |rest| && n < MAX_CHUNK {
      CutsAfterIff(rest, n + 1);
      if !CutsAfter(n + 1, HashOf(rest[..n + 1])) {
        CutIsFirstBoundary(rest, n + 1);
      }
    }
  }

  /** Where the first chunk of a nonempty input ends. */
  lemma ChunkEndsIff(rest: seq<byte>, n: nat)
    requires 0 < n <= |rest|
    ensures n == ChunkLen(rest) <==>
              && n <= MAX_CHUNK && (n == |rest| || n == MAX_CHUNK || BoundaryAt(rest, n))
              && forall m | 0 < m < n :: !BoundaryAt(rest, m)
  {
    hide CutFrom, BoundaryAt;
    CutIsFirstBoundary(rest, 0);
    ChunkLenBounds(rest, 0);
  }

  function Chunks(rest: seq<byte>): seq<seq<byte>>
    decreases |rest|
  {
    if rest == [] then []
    else
      ChunkLenBounds(rest, 0);
      [rest[..ChunkLen(rest)]] + Chunks(rest[ChunkLen(rest)..])
  }

  /** The chunks put the input together again, and their sizes are bounded: only the last may be small. */
  lemma {:induction false} ChunksRebuild(rest: seq<byte>)
    ensures Joined(Chunks(rest)) == rest
    ensures forall i | 0 <= i < |Chunks(rest)| :: 0 < |Chunks(rest)[i]| <= MAX_CHUNK
    ensures forall i | 0 <= i < |Chunks(rest)| - 1 :: MIN_CHUNK <= |Chunks(rest)[i]|
    decreases |rest|
  {
    hide Chunks, CutFrom;
    if rest == [] {
      NoChunks();
    } else {
      ChunkLenBounds(rest, 0);
      ChunksCons(rest);
      var n := ChunkLen(rest);
      var later := Chunks(rest[n..]);
      ChunksRebuild(rest[n..]);
      assert ([rest[..n]] + later)[1..] == later;
      assert rest == rest[..n] + rest[n..];
      if later == [] {
        assert rest[n..] == [];
      } else {
        NonemptyHasRest(rest[n..]);
      }
    }
  }

  lemma NonemptyHasRest(rest: seq<byte>)
    requires Chunks(rest) != []
    ensures rest != []
  {
  }

  lemma {:induction false} CutIgnoresTail(rest: seq<byte>, tail: seq<byte>, n: nat)
    requires n <= |rest| && n <= MAX_CHUNK && CutFrom(rest, n) < |rest|
    ensures CutFrom(rest + tail, n) == CutFrom(rest, n)
    decreases |rest| - n
  {
    hide HashOf;
    if n < |rest| && n < MAX_CHUNK {
      assert (rest + tail)[..n + 1] == rest[..n + 1];
      if !CutsAfter(n + 1, HashOf(rest[..n + 1])) {
        CutIgnoresTail(rest, tail, n + 1);
      }
    }
  }

  /** Appending to an input changes none of its chunks but the last. */
  lemma {:induction false} AppendKeepsChunks(rest: seq<byte>, tail: seq<byte>)
    requires rest != []
    ensures Chunks(rest) != []
    ensures Chunks(rest)[..|Chunks(rest)| - 1] <= Chunks(rest + tail)
    decreases |rest|
  {
    hide Chunks, CutFrom;
    ChunkLenBounds(rest, 0);
    ChunksCons(rest);
    var n := ChunkLen(rest);
    if n < |rest| {
      CutIgnoresTail(rest, tail, 0);
      AppendKeepsChunks(rest[n..], tail);
      ChunksCons(rest + tail);
      assert (rest + tail)[n..] == rest[n..] + tail && (rest + tail)[..n] == rest[..n];
      FrontOfCons(rest[..n], Chunks(rest[n..]), Chunks(rest[n..] + tail));
    } else {
      NoChunks();
      assert rest[n..] == [];
    }
  }

  lemma ChunksCons(rest: seq<byte>)
    requires rest != []
    ensures 0 < ChunkLen(rest) <= |rest|
    ensures Chunks(rest) == [rest[..ChunkLen(rest)]] + Chunks(rest[ChunkLen(rest)..])
  {
    hide CutFrom;
    ChunkLenBounds(rest, 0);
  }

  lemma NoChunks()
    ensures Chunks([]) == []
  {
  }

  lemma FrontOfCons<T>(first: T, a: seq<T>, b: seq<T>)
    requires a != [] && a[..|a| - 1] <= b
    ensures ([first] + a)[..|[first] + a| - 1] <= [first] + b
  {
    assert ([first] + a)[..|a|] == [first] + a[..|a| - 1];
  }

  class ChunkStream {
    var source: seq<byte>
    const buffer: array<byte>
    var position: nat
    var filled: nat
    var eof: bool

    constructor (input: seq<byte>)
      ensures Valid() && fresh(buffer) && Rest() == input
    {
      source := input;
      buffer := new byte[READ_BUFFER](_ => 0);
      position, filled, eof := 0, 0, false;
    }

    ghost predicate Valid()
      reads this, buffer
    {
      && buffer.Length == READ_BUFFER && position <= filled <= buffer.Length
      && (eof ==> position == filled && source == [])
    }

    /** The bytes not yet handed out. */
    ghost function Rest(): seq<byte>
      reads this, buffer
      requires Valid()
    {
      buffer[position..filled] + source
    }

    /** One read of the underlying reader: any number of bytes that fits, none only at the end. */
    method Fill()
      requires Valid() && position == filled && !eof
      modifies this`source, this`position, this`filled, buffer
      ensures Valid() && Rest() == old(Rest())
      ensures position == 0 && (filled == 0 <==> old(source) == [])
    {
      var most := if |source| < READ_BUFFER then |source| else READ_BUFFER;
      var count: nat :| count <= most && (source != [] ==> 0 < count);
      CopyIn(source[..count]);
      assert source == source[..count] + source[count..];
      source, position, filled := source[count..], 0, count;
      assert buffer[position..filled] == buffer[..count];
    }

    method CopyIn(data: seq<byte>)
      requires |data| <= buffer.Length
      modifies buffer
      ensures buffer[..|data|] == data
    {
      forall i | 0 <= i < |data| {
        buffer[i] := data[i];
      }
    }

    /** Moves up to `take` buffered bytes into the chunk, stopping after a boundary. */
    method TakeRun(out: seq<byte>, hash: bv64, take: nat, ghost rest: seq<byte>)
      returns (grown: seq<byte>, rolled: bv64, boundary: bool)
      requires Valid() && position + take <= filled
      requires |out| + take <= |rest| && |out| + take <= MAX_CHUNK
      requires out == rest[..|out|] && Rest() == rest[|out|..] && hash == HashOf(out)
      modifies this`position
      ensures Valid() && eof == old(eof) && source == old(source) && filled == old(filled)
      ensures |out| <= |grown| <= |rest| && |grown| <= MAX_CHUNK && grown == rest[..|grown|] && rolled == HashOf(grown)
      ensures Rest() == rest[|grown|..]
      ensures if boundary then CutFrom(rest, |out|) == |grown|
              else |grown| == |out| + take && CutFrom(rest, |out|) == CutFrom(rest, |grown|)
    {
      hide CutFrom, Rolled, HashOf, CutsAfter;
      var start := position;
      grown, rolled := out, hash;
      for offset := 0 to take
        invariant position == start && Valid()
        invariant |grown| == |out| + offset && grown == rest[..|grown|] && rolled == HashOf(grown)
        invariant CutFrom(rest, |out|) == CutFrom(rest, |grown|)
      {
        var value := buffer[start + offset];
        assert value == Rest()[offset] == rest[|grown|];
        CutStep(rest, |grown|);
        HashStep(grown, value);
        assert rest[..|grown| + 1] == grown + [value];
        grown := grown + [value];
        rolled := Rolled(rolled, value);
        var length := |grown|;
        if CutsAfter(length, rolled) {
          position := position + offset + 1;
          RestMoves(rest, |out|, offset + 1, buffer[start..filled], source);
          return grown, rolled, true;
        }
      }
      position := position + take;
      RestMoves(rest, |out|, take, buffer[start..filled], source);
      boundary := false;
    }

    /** The next chunk is the first chunk of what is left, however the reader splits its reads. */
    method NextChunk() returns (chunk: Option<seq<byte>>)
      requires Valid()
      modifies this, buffer
      ensures Valid()
      ensures old(Rest()) == [] ==> chunk == None && Rest() == []
      ensures old(Rest()) != [] ==>
        var n := ChunkLen(old(Rest()));
        chunk == Some(old(Rest())[..n]) && Rest() == old(Rest())[n..]
    {
      hide CutFrom, HashOf;
      ghost var rest := Rest();
      if eof {
        return None;
      }
      EmptyHash();
      var out: seq<byte> := [];
      var hash: bv64 := 0;
      while |out| < MAX_CHUNK
        invariant Valid() && |out| <= MAX_CHUNK && |out| <= |rest|
        invariant out == rest[..|out|] && Rest() == rest[|out|..] && hash == HashOf(out)
        invariant CutFrom(rest, |out|) == CutFrom(rest, 0)
        invariant !eof
        decreases |rest| - |out|
      {
        if position == filled {
          Fill();
          if filled == 0 {
            eof := true;
            assert Rest() == [] && |out| == |rest|;
            break;
          }
        }
        var available := filled - position;
        var take := if available < MAX_CHUNK - |out| then available else MAX_CHUNK - |out|;
        assert |Rest()| >= available;
        var boundary;
        ghost var before := |out|;
        out, hash, boundary := TakeRun(out, hash, take, rest);
        if boundary {
          NonemptyCut(rest, before);
          return Some(out);
        }
      }
      CutEnds(rest, |out|);
      chunk := if out == [] then None else Some(out);
    }

    /** Drains the stream. */
    method AllChunks() returns (chunks: seq<seq<byte>>)
      requires Valid()
      modifies this, buffer
      ensures Valid() && Rest() == []
      ensures chunks == Chunks(old(Rest()))
    {
      hide CutFrom, Chunks;
      NoChunks();
      chunks := [];
      ghost var all := Chunks(Rest());
      while true
        invariant Valid() && all == chunks + Chunks(Rest())
        decreases |Rest()|
      {
        ghost var rest := Rest();
        var chunk := NextChunk();
        if chunk.None? {
          assert rest == [];
          return;
        }
        ChunksCons(rest);
        Regroup(chunks, [chunk.value], Chunks(Rest()));
        chunks := chunks + [chunk.value];
      }
    }
  }

  lemma EmptyHash()
    ensures HashOf([]) == 0
  {
  }

  lemma HashStep(chunk: seq<byte>, value: byte)
    ensures HashOf(chunk + [value]) == Rolled(HashOf(chunk), value)
  {
    assert (chunk + [value])[..|chunk|] == chunk;
  }

  lemma CutStep(rest: seq<byte>, n: nat)
    requires n < |rest| && n < MAX_CHUNK
    ensures CutFrom(rest, n) == if CutsAfter(n + 1, HashOf(rest[..n + 1])) then n + 1 else CutFrom(rest, n + 1)
  {
    hide HashOf;
  }

  lemma CutEnds(rest: seq<byte>, n: nat)
    requires n <= |rest| && n <= MAX_CHUNK && (n == |rest| || n == MAX_CHUNK)
    ensures CutFrom(rest, n) == n
  {
  }

  lemma NonemptyCut(rest: seq<byte>, n: nat)
    requires n <= |rest| && n < MAX_CHUNK && rest != []
    ensures CutFrom(rest, n) > 0
  {
    if n < |rest| {
      ChunkLenBounds(rest, n);
    }
  }

  lemma RestMoves(rest: seq<byte>, from: nat, count: nat, buffered: seq<byte>, source: seq<byte>)
    requires from <= |rest| && rest[from..] == buffered + source && count <= |buffered|
    ensures from + count <= |rest| && rest[from + count..] == buffered[count..] + source
  {
    assert rest[from + count..] == rest[from..][count..];
  }
}
