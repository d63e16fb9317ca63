/** Claim patterns (claims.rs): the memoised matcher, what a pattern denotes, and the overlap test. */
module Globs {
  import opened Bytes
  import opened Paths

  const STAR: byte := 0x2A
  const QUESTION: byte := 0x3F
  const OPEN: byte := 0x5B
  const CLOSE: byte := 0x5D
  const DASH: byte := 0x2D
  const BANG: byte := 0x21
  const CARET: byte := 0x5E

  // ---------- Character classes ----------

  /** Membership in the ranges and single bytes up to the closing bracket, and where that is. */
  function ClassScan(pattern: seq<byte>, index: nat, value: byte, matched: bool): (r: (bool, nat))
    requires index <= |pattern|
    ensures index <= r.1 <= |pattern|
    decreases |pattern| - index
  {
    if index == |pattern| || pattern[index] == CLOSE then (matched, index)
    else if index + 2 < |pattern| && pattern[index + 1] == DASH && pattern[index + 2] != CLOSE then
      ClassScan(pattern, index + 3, value, matched || pattern[index] <= value <= pattern[index + 2])
    else ClassScan(pattern, index + 1, value, matched || pattern[index] == value)
  }

  predicate Negated(pattern: seq<byte>, index: nat) {
    index < |pattern| && (pattern[index] == BANG || pattern[index] == CARET)
  }

  function ContentStart(pattern: seq<byte>, start: nat): (index: nat)
    requires start < |pattern|
    ensures start < index <= |pattern|
  {
    start + 1 + (if Negated(pattern, start + 1) then 1 else 0)
  }

  /** Whether `value` is in the class that opens at `start`, and where the pattern goes on; none for a slash,
      at the end of the path, and for a bracket that is never closed or closes nothing. */
  function CharacterClass(pattern: seq<byte>, start: nat, value: Option<byte>): (r: Option<(bool, nat)>)
    requires start < |pattern|
    ensures r.Some? ==> start < r.value.1 <= |pattern|
  {
    if value.None? || value.value == SLASH then None
    else
      var content := ContentStart(pattern, start);
      var (matched, index) := ClassScan(pattern, content, value.value, false);
      if index == |pattern| || index == content then None
      else Some((matched != Negated(pattern, start + 1), index + 1))
  }

  method ClassifyByte(pattern: seq<byte>, start: nat, value: Option<byte>) returns (r: Option<(bool, nat)>)
    requires start < |pattern|
    ensures r == CharacterClass(pattern, start, value)
  {
    if value.None? || value.value == SLASH {
      return None;
    }
    var v := value.value;
    var index := start + 1;
    var negated := index < |pattern| && (pattern[index] == BANG || pattern[index] == CARET);
    if negated {
      index := index + 1;
    }
    var contentStart := index;
    var matched := false;
    while index < |pattern| && pattern[index] != CLOSE
      invariant contentStart <= index <= |pattern|
      invariant ClassScan(pattern, index, v, matched) == ClassScan(pattern, contentStart, v, false)
      decreases |pattern| - index
    {
      if index + 2 < |pattern| && pattern[index + 1] == DASH && pattern[index + 2] != CLOSE {
        matched := matched || (pattern[index] <= v && v <= pattern[index + 2]);
        index := index + 3;
      } else {
        matched := matched || pattern[index] == v;
        index := index + 1;
      }
    }
    if index == |pattern| || index == contentStart {
      return None;
    }
    r := Some((matched != negated, index + 1));
  }

  // ---------- The matcher ----------

  function ByteAt(path: Path, index: nat): Option<byte> {
    if index < |path| then Some(path[index]) else None
  }

  /** The matcher's recursion without its table. */
  predicate Glob(pattern: seq<byte>, path: Path, p: nat, x: nat)
    requires p <= |pattern| && x <= |path|
    decreases |pattern| - p, |path| - x
  {
    if p == |pattern| then x == |path|
    else if pattern[p] == STAR then
      var recursive := p + 1 < |pattern| && pattern[p + 1] == STAR;
      Glob(pattern, path, p + (if recursive then 2 else 1), x)
      || (x < |path| && (recursive || path[x] != SLASH) && Glob(pattern, path, p, x + 1))
    else if pattern[p] == QUESTION then
      x < |path| && path[x] != SLASH && Glob(pattern, path, p + 1, x + 1)
    else if pattern[p] == OPEN then
      match CharacterClass(pattern, p, ByteAt(path, x))
      case Some((matches, next)) => matches && Glob(pattern, path, next, x + 1)
      case None => ByteAt(path, x) == Some(OPEN) && Glob(pattern, path, p + 1, x + 1)
    else ByteAt(path, x) == Some(pattern[p]) && Glob(pattern, path, p + 1, x + 1)
  }

  ghost predicate MemoHolds(pattern: seq<byte>, path: Path, memo: seq<Option<bool>>) {
    var width := |path| + 1;
    && |memo| == (|pattern| + 1) * width
    && forall k: nat | k < |memo| && memo[k].Some? ::
         k / width <= |pattern| && memo[k].value == Glob(pattern, path, k / width, k % width)
  }

  lemma Slot(rows: nat, width: nat, p: nat, x: nat)
    requires p <= rows && x < width
    ensures p * width + x < (rows + 1) * width
    ensures (p * width + x) / width == p && (p * width + x) % width == x
  {
    assert (p + 1) * width <= (rows + 1) * width;
    assert (p * width + x) - width * p == x;
    DivMod(p, width, x);
  }

  lemma DivMod(p: nat, width: nat, x: nat)
    requires x < width
    ensures (p * width + x) / width == p && (p * width + x) % width == x
  {
    var n := p * width + x;
    var q, r := n / width, n % width;
    assert n == q * width + r;
    if q < p {
      Times(q + 1, p, width);
    } else if p < q {
      Times(p + 1, q, width);
    }
  }

  lemma Times(a: nat, b: nat, c: nat)
    requires 0 < a <= b
    ensures (a - 1) * c + c == a * c <= b * c
  {
  }

  lemma MemoStored(pattern: seq<byte>, path: Path, memo: seq<Option<bool>>, p: nat, x: nat)
    requires MemoHolds(pattern, path, memo) && p <= |pattern| && x <= |path|
    requires p * (|path| + 1) + x < |memo|
    ensures MemoHolds(pattern, path, memo[p * (|path| + 1) + x := Some(Glob(pattern, path, p, x))])
  {
    hide Glob;
    Slot(|pattern|, |path| + 1, p, x);
  }

  /** The table never leads the matcher out of bounds or astray. */
  method GlobMatch(
      pattern: seq<byte>, path: Path, patternIndex: nat, pathIndex: nat, width: nat, memo: array<Option<bool>>)
    returns (result: bool)
    requires patternIndex <= |pattern| && pathIndex <= |path| && width == |path| + 1
    requires MemoHolds(pattern, path, memo[..])
    modifies memo
    ensures MemoHolds(pattern, path, memo[..])
    ensures result == Glob(pattern, path, patternIndex, pathIndex)
    decreases |pattern| - patternIndex, |path| - pathIndex
  {
    hide MemoHolds, CharacterClass;
    var slot := patternIndex * width + pathIndex;
    MemoSlot(pattern, path, memo[..], patternIndex, pathIndex);
    if memo[slot].Some? {
      return memo[slot].value;
    }
    if patternIndex == |pattern| {
      result := pathIndex == |path|;
    } else if pattern[patternIndex] == STAR {
      var recursive := patternIndex + 1 < |pattern| && pattern[patternIndex + 1] == STAR;
      var next := patternIndex + (if recursive then 2 else 1);
      result := GlobMatch(pattern, path, next, pathIndex, width, memo);
      if !result && pathIndex < |path| && (recursive || path[pathIndex] != SLASH) {
        result := GlobMatch(pattern, path, patternIndex, pathIndex + 1, width, memo);
      }
    } else if pattern[patternIndex] == QUESTION {
      result := pathIndex < |path| && path[pathIndex] != SLASH;
      if result {
        result := GlobMatch(pattern, path, patternIndex + 1, pathIndex + 1, width, memo);
      }
    } else if pattern[patternIndex] == OPEN {
      var classified := ClassifyByte(pattern, patternIndex, ByteAt(path, pathIndex));
      ClassNeedsByte(pattern, patternIndex, ByteAt(path, pathIndex));
      match classified {
        case Some((matches, next)) =>
          result := matches;
          if result {
            result := GlobMatch(pattern, path, next, pathIndex + 1, width, memo);
          }
        case None =>
          result := ByteAt(path, pathIndex) == Some(OPEN);
          if result {
            result := GlobMatch(pattern, path, patternIndex + 1, pathIndex + 1, width, memo);
          }
      }
    } else {
      result := ByteAt(path, pathIndex) == Some(pattern[patternIndex]);
      if result {
        result := GlobMatch(pattern, path, patternIndex + 1, pathIndex + 1, width, memo);
      }
    }
    MemoStored(pattern, path, memo[..], patternIndex, pathIndex);
    ghost var before := memo[..];
    memo[slot] := Some(result);
    assert memo[..] == before[slot := Some(result)];
  }

  lemma ClassNeedsByte(pattern: seq<byte>, start: nat, value: Option<byte>)
    requires start < |pattern|
    ensures CharacterClass(pattern, start, value).Some? ==> value.Some? && value.value != SLASH
  {
  }

  lemma MemoSlot(pattern: seq<byte>, path: Path, memo: seq<Option<bool>>, p: nat, x: nat)
    requires MemoHolds(pattern, path, memo) && p <= |pattern| && x <= |path|
    ensures var slot := p * (|path| + 1) + x;
            slot < |memo| && (memo[slot].Some? ==> memo[slot].value == Glob(pattern, path, p, x))
  {
    hide Glob;
    Slot(|pattern|, |path| + 1, p, x);
  }

  method MatchesPath(pattern: seq<byte>, path: Path) returns (matches: bool)
    ensures matches <==> Denotes(pattern, path)
  {
    var width := |path| + 1;
    var memo := new Option<bool>[(|pattern| + 1) * width](_ => None);
    EmptyMemo(pattern, path, memo[..]);
    matches := GlobMatch(pattern, path, 0, 0, width, memo);
    GlobIsSplit(pattern, path, 0, 0);
    assert path[0..] == path;
  }

  lemma EmptyMemo(pattern: seq<byte>, path: Path, memo: seq<Option<bool>>)
    requires |memo| == (|pattern| + 1) * (|path| + 1)
    requires forall k | 0 <= k < |memo| :: memo[k] == None
    ensures MemoHolds(pattern, path, memo)
  {
  }

  // ---------- What a pattern denotes ----------

  /** A byte of a pattern stands for itself, for one byte, or for a run of bytes. */
  datatype Token =
    | Literal(value: byte)
    | AnyByte
    | Class(negated: bool, content: seq<byte>)
    | AnyRun
    | AnyDeepRun

  /** Where the class that opens at `start` closes, if it does and is not empty. */
  function ClassEnd(pattern: seq<byte>, start: nat): (r: Option<nat>)
    requires start < |pattern|
    ensures r.Some? ==> ContentStart(pattern, start) < r.value < |pattern|
  {
    var content := ContentStart(pattern, start);
    var end := FindClose(pattern, content);
    if end == |pattern| || end == content then None else Some(end)
  }

  function FindClose(pattern: seq<byte>, index: nat): (end: nat)
    requires index <= |pattern|
    ensures index <= end <= |pattern|
    decreases |pattern| - index
  {
    if index == |pattern| || pattern[index] == CLOSE then index
    else if index + 2 < |pattern| && pattern[index + 1] == DASH && pattern[index + 2] != CLOSE then
      FindClose(pattern, index + 3)
    else FindClose(pattern, index + 1)
  }

  /** `value` is listed in the content, alone or in a range. */
  predicate Listed(content: seq<byte>, value: byte)
    decreases |content|
  {
    if content == [] then false
    else if 2 < |content| && content[1] == DASH then content[0] <= value <= content[2] || Listed(content[3..], value)
    else content[0] == value || Listed(content[1..], value)
  }

  /** The token at a position of the pattern and how many bytes spell it. */
  function TokenAt(pattern: seq<byte>, p: nat): (r: (Token, nat))
    requires p < |pattern|
    ensures 0 < r.1 && p + r.1 <= |pattern|
  {
    if pattern[p] == STAR then
      if p + 1 < |pattern| && pattern[p + 1] == STAR then (AnyDeepRun, 2) else (AnyRun, 1)
    else if pattern[p] == QUESTION then (AnyByte, 1)
    else if pattern[p] == OPEN then
      match ClassEnd(pattern, p)
      case Some(end) =>
        (Class(Negated(pattern, p + 1), pattern[ContentStart(pattern, p)..end]), end + 1 - p)
      case None => (Literal(OPEN), 1)
    else (Literal(pattern[p]), 1)
  }

  function Tokens(pattern: seq<byte>, p: nat): seq<Token>
    requires p <= |pattern|
    decreases |pattern| - p
  {
    if p == |pattern| then []
    else
      var (token, length) := TokenAt(pattern, p);
      [token] + Tokens(pattern, p + length)
  }

  /** The pieces of a path one token can stand for: only a deep run crosses a slash. */
  predicate Stands(token: Token, piece: seq<byte>) {
    match token
    case Literal(value) => piece == [value]
    case AnyByte => |piece| == 1 && piece[0] != SLASH
    case Class(negated, content) => |piece| == 1 && piece[0] != SLASH && (Listed(content, piece[0]) != negated)
    case AnyRun => SLASH !in piece
    case AnyDeepRun => true
  }

  /** The path cuts into one piece per token. */
  ghost predicate Splits(tokens: seq<Token>, path: Path) {
    exists pieces: seq<seq<byte>> ::
      |pieces| == |tokens| && Joined(pieces) == path
      && forall i | 0 <= i < |tokens| :: Stands(tokens[i], pieces[i])
  }

  ghost predicate Denotes(pattern: seq<byte>, path: Path) {
    Splits(Tokens(pattern, 0), path)
  }

  lemma SplitsEmpty(path: Path)
    ensures Splits([], path) <==> path == []
  {
    if path == [] {
      var pieces: seq<seq<byte>> := [];
      assert Joined(pieces) == path;
    }
  }

  lemma SplitsCons(token: Token, rest: seq<Token>, piece: seq<byte>, path: Path)
    requires Stands(token, piece) && Splits(rest, path)
    ensures Splits([token] + rest, piece + path)
  {
    var pieces: seq<seq<byte>> :|
      |pieces| == |rest| && Joined(pieces) == path && forall i | 0 <= i < |rest| :: Stands(rest[i], pieces[i]);
    var more := [piece] + pieces;
    assert more[1..] == pieces;
    assert Joined(more) == piece + path;
  }

  lemma SplitsHead(token: Token, rest: seq<Token>, path: Path) returns (n: nat)
    requires Splits([token] + rest, path)
    ensures n <= |path| && Stands(token, path[..n]) && Splits(rest, path[n..])
  {
    var tokens := [token] + rest;
    var pieces: seq<seq<byte>> :|
      |pieces| == |tokens| && Joined(pieces) == path && forall i | 0 <= i < |tokens| :: Stands(tokens[i], pieces[i]);
    n := |pieces[0]|;
    assert path[..n] == pieces[0] && path[n..] == Joined(pieces[1..]);
    assert Stands(tokens[0], pieces[0]);
    assert forall i | 0 <= i < |rest| :: tokens[i + 1] == rest[i] && pieces[1..][i] == pieces[i + 1];
  }

  /** A token that stands for single bytes takes the first one. */
  lemma SingleByte(token: Token, rest: seq<Token>, path: Path)
    requires !token.AnyRun? && !token.AnyDeepRun?
    ensures Splits([token] + rest, path) <==> path != [] && Stands(token, path[..1]) && Splits(rest, path[1..])
  {
    if Splits([token] + rest, path) {
      var n := SplitsHead(token, rest, path);
    }
    if path != [] && Stands(token, path[..1]) && Splits(rest, path[1..]) {
      SplitsCons(token, rest, path[..1], path[1..]);
      assert path[..1] + path[1..] == path;
    }
  }

  /** A run is empty, or takes one more byte and goes on. */
  lemma RunOfBytes(token: Token, rest: seq<Token>, path: Path)
    requires token.AnyRun? || token.AnyDeepRun?
    ensures Splits([token] + rest, path) <==>
      Splits(rest, path) || (path != [] && Stands(token, path[..1]) && Splits([token] + rest, path[1..]))
  {
    hide Splits;
    if Splits([token] + rest, path) {
      RunShrinks(token, rest, path);
    }
    if Splits(rest, path) {
      SplitsCons(token, rest, [], path);
      assert [] + path == path;
    }
    if path != [] && Stands(token, path[..1]) && Splits([token] + rest, path[1..]) {
      RunGrows(token, rest, path);
    }
  }

  lemma RunShrinks(token: Token, rest: seq<Token>, path: Path)
    requires token.AnyRun? || token.AnyDeepRun?
    requires Splits([token] + rest, path)
    ensures Splits(rest, path) || (path != [] && Stands(token, path[..1]) && Splits([token] + rest, path[1..]))
  {
    hide Splits;
    var n := SplitsHead(token, rest, path);
    if n == 0 {
      assert path[0..] == path;
    } else {
      var piece, after := path[1..n], path[n..];
      assert path[..n] == path[..1] + piece;
      assert piece + after == path[1..];
      assert forall v | v in piece :: v in path[..n];
      assert forall v | v in path[..1] :: v in path[..n];
      SplitsCons(token, rest, piece, after);
    }
  }

  lemma RunGrows(token: Token, rest: seq<Token>, path: Path)
    requires token.AnyRun? || token.AnyDeepRun?
    requires path != [] && Stands(token, path[..1]) && Splits([token] + rest, path[1..])
    ensures Splits([token] + rest, path)
  {
    hide Splits;
    var n := SplitsHead(token, rest, path[1..]);
    var piece, after := path[..1] + path[1..][..n], path[1..][n..];
    assert piece + after == path;
    SplitsCons(token, rest, piece, after);
  }

  /** The running scan of a class computes membership in its content. */
  lemma {:induction false} ScanIsListed(pattern: seq<byte>, index: nat, value: byte, matched: bool)
    requires index <= |pattern| && FindClose(pattern, index) < |pattern|
    ensures var end := FindClose(pattern, index);
            ClassScan(pattern, index, value, matched) == (matched || Listed(pattern[index..end], value), end)
    decreases |pattern| - index
  {
    var end := FindClose(pattern, index);
    var content := pattern[index..end];
    if pattern[index] == CLOSE {
    } else if index + 2 < |pattern| && pattern[index + 1] == DASH && pattern[index + 2] != CLOSE {
      ScanIsListed(pattern, index + 3, value, matched || pattern[index] <= value <= pattern[index + 2]);
      assert content[3..] == pattern[index + 3..end];
    } else {
      ScanIsListed(pattern, index + 1, value, matched || pattern[index] == value);
      assert content[1..] == pattern[index + 1..end];
      DashNotRange(pattern, index, end);
    }
  }

  /** Inside the content a dash makes a range exactly where it does in the whole pattern. */
  lemma DashNotRange(pattern: seq<byte>, index: nat, end: nat)
    requires index < |pattern| && end == FindClose(pattern, index) < |pattern| && pattern[index] != CLOSE
    requires !(index + 2 < |pattern| && pattern[index + 1] == DASH && pattern[index + 2] != CLOSE)
    ensures !(2 < end - index && pattern[index + 1] == DASH)
  {
    if index + 2 < |pattern| && pattern[index + 1] == DASH {
      assert FindClose(pattern, index + 2) == index + 2;
      assert FindClose(pattern, index + 1) == index + 2;
    }
  }

  lemma {:induction false} ScanWithoutClose(pattern: seq<byte>, index: nat, value: byte, matched: bool)
    requires index <= |pattern|
    ensures ClassScan(pattern, index, value, matched).1 == FindClose(pattern, index)
    decreases |pattern| - index
  {
    if index < |pattern| && pattern[index] != CLOSE {
      if index + 2 < |pattern| && pattern[index + 1] == DASH && pattern[index + 2] != CLOSE {
        ScanWithoutClose(pattern, index + 3, value, matched || pattern[index] <= value <= pattern[index + 2]);
      } else {
        ScanWithoutClose(pattern, index + 1, value, matched || pattern[index] == value);
      }
    }
  }

  /** At a bracket the matcher does what the token says. */
  lemma ClassIsToken(pattern: seq<byte>, p: nat, value: Option<byte>)
    requires p < |pattern| && pattern[p] == OPEN
    ensures var (token, length) := TokenAt(pattern, p);
            match CharacterClass(pattern, p, value)
            case Some((matches, next)) =>
              token.Class? && next == p + length && value.Some? && (matches <==> Stands(token, [value.value]))
            case None => token == Literal(OPEN) || value.None? || value.value == SLASH
  {
    if value.Some? && value.value != SLASH {
      var content := ContentStart(pattern, p);
      ScanWithoutClose(pattern, content, value.value, false);
      if ClassEnd(pattern, p).Some? {
        ScanIsListed(pattern, content, value.value, false);
      }
    }
  }

  /** The matcher computes what the pattern denotes. */
  lemma {:induction false} GlobIsSplit(pattern: seq<byte>, path: Path, p: nat, x: nat)
    requires p <= |pattern| && x <= |path|
    ensures Glob(pattern, path, p, x) <==> Splits(Tokens(pattern, p), path[x..])
    decreases |pattern| - p, |path| - x
  {
    hide Splits, CharacterClass, ClassEnd, Listed;
    if p == |pattern| {
      SplitsEmpty(path[x..]);
    } else {
      var (token, length) := TokenAt(pattern, p);
      var rest := Tokens(pattern, p + length);
      GlobStep(pattern, path, p, x);
      if token.AnyRun? || token.AnyDeepRun? {
        RunOfBytes(token, rest, path[x..]);
        GlobIsSplit(pattern, path, p + length, x);
        if x < |path| {
          assert path[x..][1..] == path[x + 1..] && path[x..][..1] == [path[x]];
          GlobIsSplit(pattern, path, p, x + 1);
        }
      } else {
        SingleByte(token, rest, path[x..]);
        if x < |path| {
          assert path[x..][1..] == path[x + 1..] && path[x..][..1] == [path[x]];
          GlobIsSplit(pattern, path, p + length, x + 1);
        }
      }
    }
  }

  /** One step of the matcher, told by its token. */
  lemma GlobStep(pattern: seq<byte>, path: Path, p: nat, x: nat)
    requires p < |pattern| && x <= |path|
    ensures var (token, length) := TokenAt(pattern, p);
      Glob(pattern, path, p, x) <==>
        if token.AnyRun? || token.AnyDeepRun? then
          Glob(pattern, path, p + length, x) || (x < |path| && Stands(token, [path[x]]) && Glob(pattern, path, p, x + 1))
        else x < |path| && Stands(token, [path[x]]) && Glob(pattern, path, p + length, x + 1)
  {
    hide CharacterClass, ClassEnd, Listed;
    if pattern[p] == OPEN {
      ClassIsToken(pattern, p, ByteAt(path, x));
    }
  }

  // ---------- Patterns as they are written ----------

  lemma DenotesIffGlob(pattern: seq<byte>, path: Path)
    ensures Denotes(pattern, path) <==> Glob(pattern, path, 0, 0)
  {
    hide Splits, Glob;
    GlobIsSplit(pattern, path, 0, 0);
    assert path[0..] == path;
  }

  /** One star stays within a component, two cross them, and a question mark is one byte of a component. */
  lemma WildcardsMean(path: Path)
    ensures Denotes(Ascii("*"), path) <==> Ascii("/")[0] !in path
    ensures Denotes(Ascii("**"), path)
    ensures Denotes(Ascii("?"), path) <==> |path| == 1 && path != Ascii("/")
  {
    hide Glob;
    DenotesIffGlob(Ascii("*"), path);
    DenotesIffGlob(Ascii("**"), path);
    DenotesIffGlob(Ascii("?"), path);
    StarTail(Ascii("*"), path, 0);
    DeepTail(Ascii("**"), path, 0);
    QuestionTail(path);
  }

  lemma {:induction false} StarTail(pattern: seq<byte>, path: Path, x: nat)
    requires pattern == [STAR] && x <= |path|
    ensures Glob(pattern, path, 0, x) <==> SLASH !in path[x..]
    decreases |path| - x
  {
    if x < |path| {
      StarTail(pattern, path, x + 1);
      assert path[x..] == [path[x]] + path[x + 1..];
    }
  }

  lemma {:induction false} DeepTail(pattern: seq<byte>, path: Path, x: nat)
    requires pattern == [STAR, STAR] && x <= |path|
    ensures Glob(pattern, path, 0, x)
    decreases |path| - x
  {
    if x < |path| {
      DeepTail(pattern, path, x + 1);
    }
  }

  lemma QuestionTail(path: Path)
    ensures Glob([QUESTION], path, 0, 0) <==> |path| == 1 && path[0] != SLASH
    ensures Ascii("?") == [QUESTION] && Ascii("/") == [SLASH] && Ascii("*") == [STAR] && Ascii("**") == [STAR, STAR]
  {
  }

  /** A class that begins with a caret or an exclamation mark is one byte of a component that is not listed. */
  lemma NegatedClassMeans(x: byte, path: Path)
    requires [x] != Ascii("]")
    ensures Denotes(Ascii("[^") + [x] + Ascii("]"), path) <==> |path| == 1 && path != [x] && path != Ascii("/")
    ensures Denotes(Ascii("[!") + [x] + Ascii("]"), path) <==> |path| == 1 && path != [x] && path != Ascii("/")
  {
    assert Ascii("[^") + [x] + Ascii("]") == [OPEN, CARET, x, CLOSE];
    assert Ascii("[!") + [x] + Ascii("]") == [OPEN, BANG, x, CLOSE];
    NegatedTail(CARET, x, path);
    NegatedTail(BANG, x, path);
  }

  lemma NegatedTail(sign: byte, x: byte, path: Path)
    requires (sign == BANG || sign == CARET) && x != CLOSE
    ensures Denotes([OPEN, sign, x, CLOSE], path) <==> |path| == 1 && path[0] != x && path[0] != SLASH
  {
    var pattern: seq<byte> := [OPEN, sign, x, CLOSE];
    hide Denotes;
    DenotesIffGlob(pattern, path);
    if path != [] {
      assert ClassScan(pattern, 3, path[0], path[0] == x) == (path[0] == x, 3);
    }
  }

  /** A class of one byte, and of one range. */
  lemma ClassMeans(a: byte, b: byte, path: Path)
    requires [a] != Ascii("]") && [a] != Ascii("^") && [a] != Ascii("!") && [b] != Ascii("]")
    ensures Denotes(Ascii("[") + [a] + Ascii("]"), path) <==> path == [a] && path != Ascii("/")
    ensures Denotes(Ascii("[") + [a] + Ascii("-") + [b] + Ascii("]"), path) <==>
              |path| == 1 && a <= path[0] <= b && path != Ascii("/")
  {
    assert Ascii("[") + [a] + Ascii("]") == [OPEN, a, CLOSE];
    assert Ascii("[") + [a] + Ascii("-") + [b] + Ascii("]") == [OPEN, a, DASH, b, CLOSE];
    OneTail(a, path);
    RangeTail(a, b, path);
  }

  lemma OneTail(a: byte, path: Path)
    requires a != CLOSE && a != CARET && a != BANG
    ensures Denotes([OPEN, a, CLOSE], path) <==> |path| == 1 && path[0] == a && path[0] != SLASH
  {
    var pattern: seq<byte> := [OPEN, a, CLOSE];
    hide Denotes;
    DenotesIffGlob(pattern, path);
    if path != [] {
      assert ClassScan(pattern, 2, path[0], path[0] == a) == (path[0] == a, 2);
    }
  }

  lemma RangeTail(a: byte, b: byte, path: Path)
    requires a != CLOSE && a != CARET && a != BANG && b != CLOSE
    ensures Denotes([OPEN, a, DASH, b, CLOSE], path) <==> |path| == 1 && a <= path[0] <= b && path[0] != SLASH
  {
    var pattern: seq<byte> := [OPEN, a, DASH, b, CLOSE];
    hide Denotes;
    DenotesIffGlob(pattern, path);
    if path != [] {
      assert ClassScan(pattern, 4, path[0], a <= path[0] <= b) == (a <= path[0] <= b, 4);
    }
  }

  /** A bracket that is never closed, or closes nothing, stands for itself. */
  lemma OpenBracketMeans(path: Path)
    ensures Denotes(Ascii("["), path) <==> path == Ascii("[")
    ensures Denotes(Ascii("[]"), path) <==> path == Ascii("[]")
  {
    assert Ascii("[") == [OPEN] && Ascii("[]") == [OPEN, CLOSE];
    NeverClosed(path);
    ClosesNothing(path);
  }

  lemma NeverClosed(path: Path)
    ensures Denotes([OPEN], path) <==> path == [OPEN]
  {
    hide Denotes;
    DenotesIffGlob([OPEN], path);
    if path != [] {
      assert ClassScan([OPEN], 1, path[0], false) == (false, 1);
    }
  }

  lemma ClosesNothing(path: Path)
    ensures Denotes([OPEN, CLOSE], path) <==> path == [OPEN, CLOSE]
  {
    var pattern: seq<byte> := [OPEN, CLOSE];
    hide Denotes;
    DenotesIffGlob(pattern, path);
    if path != [] {
      assert ClassScan(pattern, 1, path[0], false) == (false, 1);
      assert Glob(pattern, path, 1, 1) <==> |path| == 2 && path[1] == CLOSE;
    }
  }
}
