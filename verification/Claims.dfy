/** The claim registry (claims.rs): advisory path claims that exclude the claims of other holders. */
module Claims {
  import opened Bytes
  import opened Paths
  import opened Globs

  const MAX_PATTERN_BYTES: nat := 1024
  const MAX_OWNER_BYTES: nat := 256
  const MAX_TTL_SECONDS: nat := 7 * 24 * 60 * 60
  const MAX_TIME: int := 0x7FFF_FFFF_FFFF_FFFF

  /** UTF-8 text by its bytes. */
  type Text = seq<byte>

  // ---------- The overlap test ----------

  predicate IsWildcard(value: byte) {
    value == STAR || value == QUESTION || value == OPEN
  }

  predicate ContainsWildcard(text: seq<byte>) {
    exists i :: 0 <= i < |text| && IsWildcard(text[i])
  }

  function TakeLiteral(components: seq<seq<byte>>): seq<seq<byte>> {
    if components == [] || ContainsWildcard(components[0]) then []
    else [components[0]] + TakeLiteral(components[1..])
  }

  function LiteralPrefix(pattern: seq<byte>): seq<seq<byte>> {
    TakeLiteral(Components(pattern))
  }

  predicate ComponentPrefix(left: seq<seq<byte>>, right: seq<seq<byte>>) {
    |left| <= |right| && forall i | 0 <= i < |left| :: left[i] == right[i]
  }

  predicate PatternsMayOverlap(left: seq<byte>, right: seq<byte>) {
    if left == right then true
    else if !ContainsWildcard(left) && !ContainsWildcard(right) then false
    else
      var leftPrefix, rightPrefix := LiteralPrefix(left), LiteralPrefix(right);
      ComponentPrefix(leftPrefix, rightPrefix) || ComponentPrefix(rightPrefix, leftPrefix)
  }

  /** The first `n` components are free of wildcards. */
  predicate LiteralUpTo(components: seq<seq<byte>>, n: nat) {
    n <= |components| && forall j | 0 <= j < n :: !ContainsWildcard(components[j])
  }

  /** The patterns part at a component before which, and at which, neither has a wildcard. */
  predicate PartsAt(left: seq<byte>, right: seq<byte>, i: nat) {
    && LiteralUpTo(Components(left), i + 1) && LiteralUpTo(Components(right), i + 1)
    && Components(left)[i] != Components(right)[i]
  }

  /** Patterns seen to be disjoint: two different paths, or patterns that part at a literal component. */
  ghost predicate Parted(left: seq<byte>, right: seq<byte>) {
    || (left != right && !ContainsWildcard(left) && !ContainsWildcard(right))
    || exists i: nat :: PartsAt(left, right, i)
  }

  lemma {:induction false} TakenAreLiteral(components: seq<seq<byte>>)
    ensures var taken := TakeLiteral(components);
            && |taken| <= |components| && taken == components[..|taken|] && LiteralUpTo(components, |taken|)
            && (|taken| < |components| ==> ContainsWildcard(components[|taken|]))
  {
    hide ContainsWildcard;
    if components != [] && !ContainsWildcard(components[0]) {
      TakenAreLiteral(components[1..]);
      var rest := TakeLiteral(components[1..]);
      assert forall j | 0 <= j < |rest| :: components[1..][j] == components[j + 1];
      assert components[..|rest| + 1] == [components[0]] + components[1..][..|rest|];
    }
  }

  /** The overlap test is exact about what it looks at: it refuses nothing but patterns whose literal components agree
      as far as both have any. */
  lemma OverlapIff(left: seq<byte>, right: seq<byte>)
    ensures PatternsMayOverlap(left, right) <==> !Parted(left, right)
  {
    hide ContainsWildcard, Components;
    TakenAreLiteral(Components(left));
    TakenAreLiteral(Components(right));
    var l, r := LiteralPrefix(left), LiteralPrefix(right);
    if exists i: nat :: PartsAt(left, right, i) {
      var i: nat :| PartsAt(left, right, i);
      assert i < |l| && i < |r| && l[i] != r[i];
    } else {
      forall i: nat | i < |l| && i < |r|
        ensures l[i] == r[i]
      {
        assert !PartsAt(left, right, i);
      }
    }
  }

  /** Whatever a pattern matches begins with the pattern's literal components. */
  lemma {:induction false} GlobKeepsPrefix(pattern: seq<byte>, path: Path, p: nat, x: nat)
    requires p <= |pattern| && x <= |path| && Glob(pattern, path, p, x)
    ensures ComponentPrefix(TakeLiteral(Components(pattern[p..])), Components(path[x..]))
    decreases |pattern| - p
  {
    hide CharacterClass;
    if p == |pattern| {
    } else if IsWildcard(pattern[p]) {
      WildcardFirst(pattern[p..]);
    } else {
      GlobKeepsPrefix(pattern, path, p + 1, x + 1);
      assert pattern[p..][1..] == pattern[p + 1..] && path[x..][1..] == path[x + 1..];
      PrefixGrows(pattern[p..], path[x..]);
    }
  }

  lemma WildcardFirst(text: seq<byte>)
    requires text != [] && IsWildcard(text[0])
    ensures TakeLiteral(Components(text)) == []
  {
    assert Components(text)[0][0] == text[0];
  }

  lemma PrefixGrows(text: seq<byte>, path: Path)
    requires text != [] && path != [] && text[0] == path[0] && !IsWildcard(text[0])
    requires ComponentPrefix(TakeLiteral(Components(text[1..])), Components(path[1..]))
    ensures ComponentPrefix(TakeLiteral(Components(text)), Components(path))
  {
    var t, u := Components(text[1..]), Components(path[1..]);
    var literal := TakeLiteral(t);
    if text[0] == SLASH {
      assert Components(text)[1..] == t;
      var none: seq<byte> := [];
      assert !ContainsWildcard(none);
      assert TakeLiteral(Components(text)) == [none] + literal;
    } else {
      var first := [text[0]] + t[0];
      assert Components(text) == [first] + t[1..];
      assert Components(path) == [[path[0]] + u[0]] + u[1..];
      if ContainsWildcard(t[0]) {
        var i :| 0 <= i < |t[0]| && IsWildcard(t[0][i]);
        assert IsWildcard(first[i + 1]);
      } else {
        assert !ContainsWildcard(first);
        assert literal == [t[0]] + TakeLiteral(t[1..]);
        assert (Components(text))[1..] == t[1..];
        assert TakeLiteral(Components(text)) == [first] + TakeLiteral(t[1..]);
        forall i | 0 <= i < |TakeLiteral(Components(text))| ensures TakeLiteral(Components(text))[i] == Components(path)[i] {
          assert literal[i] == u[i];
        }
      }
    }
  }

  /** A pattern without wildcards matches itself alone. */
  lemma {:induction false} LiteralMatchesItself(pattern: seq<byte>, path: Path, p: nat, x: nat)
    requires p <= |pattern| && x <= |path| && !ContainsWildcard(pattern)
    ensures Glob(pattern, path, p, x) <==> pattern[p..] == path[x..]
    decreases |pattern| - p
  {
    hide CharacterClass;
    if p < |pattern| {
      assert !IsWildcard(pattern[p]);
      if x < |path| {
        LiteralMatchesItself(pattern, path, p + 1, x + 1);
        assert pattern[p..] == [pattern[p]] + pattern[p + 1..] && path[x..] == [path[x]] + path[x + 1..];
      }
    }
  }

  /** The bytes taken for wildcards are exactly those that need not stand for themselves. */
  lemma WildcardIff(value: byte)
    ensures IsWildcard(value) <==> exists rest, path :: Denotes([value] + rest, path) && !([value] <= path)
  {
    if IsWildcard(value) {
      WildcardVaries(value);
    } else {
      forall rest, path | Denotes([value] + rest, path)
        ensures [value] <= path
      {
        LiteralFirst(value, rest, path);
      }
    }
  }

  lemma LiteralFirst(value: byte, rest: seq<byte>, path: Path)
    requires !IsWildcard(value) && Denotes([value] + rest, path)
    ensures [value] <= path
  {
    hide Denotes;
    DenotesIffGlob([value] + rest, path);
  }

  lemma WildcardVaries(value: byte)
    requires IsWildcard(value)
    ensures exists rest, path :: Denotes([value] + rest, path) && !([value] <= path)
  {
    var other: Path := [0x61];
    var rest: seq<byte> := if value == OPEN then [0x61, CLOSE] else [];
    hide Denotes, Glob;
    if value == OPEN {
      assert [value] + rest == [OPEN, 0x61, CLOSE];
      OneTail(0x61, other);
    } else {
      WildcardsMean(other);
      QuestionTail(other);
      assert [value] + rest == [value];
    }
    assert Denotes([value] + rest, other) && !([value] <= other);
  }

  lemma PrefixesNest(a: seq<seq<byte>>, b: seq<seq<byte>>, c: seq<seq<byte>>)
    requires ComponentPrefix(a, c) && ComponentPrefix(b, c)
    ensures ComponentPrefix(a, b) || ComponentPrefix(b, a)
  {
  }

  /** Two patterns that share a path are seen to overlap: no clash of claims goes unnoticed. */
  lemma SharedPathOverlaps(left: seq<byte>, right: seq<byte>, path: Path)
    requires Denotes(left, path) && Denotes(right, path)
    ensures PatternsMayOverlap(left, right) && PatternsMayOverlap(right, left)
  {
    hide Denotes, Glob, LiteralPrefix, ComponentPrefix;
    assert path[0..] == path && left[0..] == left && right[0..] == right;
    DenotesIffGlob(left, path);
    DenotesIffGlob(right, path);
    if !ContainsWildcard(left) && !ContainsWildcard(right) {
      LiteralMatchesItself(left, path, 0, 0);
      LiteralMatchesItself(right, path, 0, 0);
    }
    KeepsPrefix(left, path);
    KeepsPrefix(right, path);
    PrefixesNest(LiteralPrefix(left), LiteralPrefix(right), Components(path));
  }

  lemma KeepsPrefix(pattern: seq<byte>, path: Path)
    requires Glob(pattern, path, 0, 0)
    ensures ComponentPrefix(LiteralPrefix(pattern), Components(path))
  {
    hide Glob, ComponentPrefix;
    GlobKeepsPrefix(pattern, path, 0, 0);
    assert pattern[0..] == pattern && path[0..] == path;
  }

  // ---------- Requests ----------

  /** A control character of a UTF-8 text: U+0000 to U+001F, U+007F to U+009F. */
  predicate HasControl(text: seq<byte>) {
    exists i :: 0 <= i < |text| && ControlAt(text, i)
  }

  predicate ControlAt(text: seq<byte>, i: nat) {
    i < |text|
    && (text[i] < 0x20 || text[i] == 0x7F || (text[i] == 0xC2 && i + 1 < |text| && 0x80 <= text[i + 1] <= 0x9F))
  }

  /** UTF-8, section 3 of RFC 3629. */
  function Utf8(c: nat): (bytes: seq<byte>)
    requires c < 0x11_0000
    ensures bytes != []
  {
    if c < 0x80 then [c]
    else if c < 0x800 then [0xC0 + c / 64, 0x80 + c % 64]
    else if c < 0x1_0000 then [0xE0 + c / 4096, 0x80 + c / 64 % 64, 0x80 + c % 64]
    else [0xF0 + c / 262_144, 0x80 + c / 4096 % 64, 0x80 + c / 64 % 64, 0x80 + c % 64]
  }

  type Char = c: nat | c < 0x11_0000

  function Utf8Text(chars: seq<Char>): seq<byte> {
    if chars == [] then [] else Utf8(chars[0]) + Utf8Text(chars[1..])
  }

  lemma ControlInChar(c: Char, rest: seq<byte>, i: nat)
    requires i < |Utf8(c)|
    ensures ControlAt(Utf8(c) + rest, i) <==> i == 0 && (c < 0x20 || 0x7F <= c <= 0x9F)
  {
    var bytes := Utf8(c);
    assert forall k | 0 <= k < |bytes| :: (bytes + rest)[k] == bytes[k];
  }

  /** The bytes show a control character exactly if the text has one. */
  lemma {:induction false} ControlIff(chars: seq<Char>)
    ensures HasControl(Utf8Text(chars)) <==> exists k :: 0 <= k < |chars| && (chars[k] < 0x20 || 0x7F <= chars[k] <= 0x9F)
  {
    if chars != [] {
      var first, rest := Utf8(chars[0]), Utf8Text(chars[1..]);
      ControlIff(chars[1..]);
      ControlInChar(chars[0], rest, 0);
      forall i: nat | i < |first|
        ensures ControlAt(first + rest, i) <==> i == 0 && (chars[0] < 0x20 || 0x7F <= chars[0] <= 0x9F)
      {
        ControlInChar(chars[0], rest, i);
      }
      forall i: nat
        ensures ControlAt(first + rest, |first| + i) <==> ControlAt(rest, i)
      {
      }
      if i: nat :| ControlAt(first + rest, i) {
        assert |first| <= i ==> ControlAt(rest, i - |first|);
      }
      if i: nat :| ControlAt(rest, i) {
        assert ControlAt(first + rest, |first| + i);
      }
      assert forall k | 0 <= k < |chars| - 1 :: chars[1..][k] == chars[k + 1];
    }
  }

  predicate ValidOwner(owner: seq<byte>) {
    owner != [] && |owner| <= MAX_OWNER_BYTES && !HasControl(owner)
  }

  predicate ValidPattern(pattern: seq<byte>) {
    && pattern != [] && |pattern| <= MAX_PATTERN_BYTES && pattern[0] != SLASH && !HasControl(pattern)
    && SafeComponents(pattern)
  }

  /** What may be claimed, told by the text: between slashes, one before it and one after it included, there is always
      something, and never one dot or two. */
  lemma ValidPatternIff(pattern: seq<byte>)
    ensures ValidPattern(pattern) <==>
              && |pattern| <= 1024 && !HasControl(pattern)
              && !Contains(Fenced(pattern), Ascii("//")) && !Contains(Fenced(pattern), Ascii("/./"))
              && !Contains(Fenced(pattern), Ascii("/../"))
  {
    assert Ascii("//") == [SLASH, SLASH] && Ascii("/./") == [SLASH, DOT, SLASH];
    assert Ascii("/../") == [SLASH, DOT, DOT, SLASH];
    SafeIff(pattern);
    hide Contains, SafeComponents;
    var none: seq<byte> := [];
    ComponentIff(pattern, none);
    assert Fenced(none) == [SLASH, SLASH];
    if pattern == [] || pattern[0] == SLASH {
      LeadingSlash(pattern);
    }
  }

  lemma LeadingSlash(text: seq<byte>)
    requires text == [] || text[0] == SLASH
    ensures !SafeComponents(text)
  {
    assert Components(text)[0] == [];
  }

  datatype ClaimRecord =
    ClaimRecord(
      id: Text, pattern: Text, owner: Text, workspace: Text, createdAt: int, expiresAt: int)

  type Table = map<Text, ClaimRecord>

  datatype Request = Request(pattern: Text, owner: Text, workspace: Text, ttlSeconds: nat) {
    predicate Valid() {
      ValidPattern(pattern) && ValidOwner(owner) && 1 <= ttlSeconds <= MAX_TTL_SECONDS
    }

    predicate HeldBy(claim: ClaimRecord) {
      claim.workspace == workspace && claim.owner == owner
    }

    predicate Contests(claim: ClaimRecord) {
      !HeldBy(claim) && PatternsMayOverlap(claim.pattern, pattern)
    }
  }

  /** Who may claim what, and for how long. */
  lemma RequestIff(request: Request)
    ensures request.Valid() <==>
              && ValidPattern(request.pattern)
              && 1 <= |request.owner| <= 256 && !HasControl(request.owner)
              && 1 <= request.ttlSeconds <= 604_800
  {
    hide ValidPattern, HasControl;
  }

  /** The rows that `DELETE ... WHERE expires_at <= now` leaves. */
  function Live(table: Table, now: int): Table {
    map id | id in table && now < table[id].expiresAt :: table[id]
  }

  function NewClaim(request: Request, now: int, id: Text): ClaimRecord {
    ClaimRecord(id, request.pattern, request.owner, request.workspace, now,
                if now + request.ttlSeconds > MAX_TIME then MAX_TIME else now + request.ttlSeconds)
  }

  predicate AlreadyHeld(table: Table, request: Request) {
    exists id | id in table :: request.HeldBy(table[id]) && table[id].pattern == request.pattern
  }

  predicate Contested(table: Table, request: Request) {
    exists id | id in table :: request.Contests(table[id])
  }

  /** Every claim of another holder parts from the one asked for. */
  ghost predicate AllParted(table: Table, request: Request) {
    forall id | id in table :: !request.HeldBy(table[id]) ==> Parted(table[id].pattern, request.pattern)
  }

  datatype Operation =
    | Claim(request: Request, now: int, newId: Text)
    | Active(now: int)
    | Release(selector: Text, owner: Text, workspace: Text)
    | ReleaseWorkspace(workspace: Text)

  predicate Selected(claim: ClaimRecord, selector: Text, owner: Text, workspace: Text) {
    (claim.id == selector || claim.pattern == selector) && claim.owner == owner && claim.workspace == workspace
  }

  /** The table after an operation; a failed one is rolled back, expiry included. */
  function Step(table: Table, op: Operation): Table {
    match op
    case Claim(request, now, newId) =>
      if !request.Valid() then table
      else if AlreadyHeld(Live(table, now), request) then Live(table, now)
      else if Contested(Live(table, now), request) || newId in Live(table, now) then table
      else Live(table, now)[newId := NewClaim(request, now, newId)]
    case Active(now) => Live(table, now)
    case Release(selector, owner, workspace) =>
      if !ValidOwner(owner) then table
      else map id | id in table && !Selected(table[id], selector, owner, workspace) :: table[id]
    case ReleaseWorkspace(workspace) => map id | id in table && table[id].workspace != workspace :: table[id]
  }

  datatype ClaimOutcome = Granted(claim: ClaimRecord) | Conflict(held: ClaimRecord) | Refused

  class Registry {
    var claims: Table

    constructor ()
      ensures claims == map[]
    {
      claims := map[];
    }

    /** A repeated claim returns the one already held; a claim that may overlap another holder's is refused. */
    method Claim(request: Request, now: int, newId: Text) returns (r: ClaimOutcome)
      modifies this
      ensures claims == Step(old(claims), Operation.Claim(request, now, newId))
      ensures var live := Live(old(claims), now);
        if !request.Valid() then r.Refused?
        else if AlreadyHeld(live, request) then
          r.Granted? && request.HeldBy(r.claim) && r.claim.pattern == request.pattern
          && exists id :: id in live && live[id] == r.claim
        else if Contested(live, request) then
          r.Conflict? && request.Contests(r.held) && exists id :: id in live && live[id] == r.held
        else if newId in live then r.Refused?
        else r == Granted(NewClaim(request, now, newId))
      ensures var live := Live(old(claims), now);
        request.Valid() && newId !in live && AllParted(live, request) ==> r.Granted? && r.claim.pattern == request.pattern
      ensures r.Conflict? ==>
        !request.HeldBy(r.held) && now < r.held.expiresAt && !Parted(r.held.pattern, request.pattern)
    {
      forall left, right
        ensures PatternsMayOverlap(left, right) <==> !Parted(left, right)
      {
        OverlapIff(left, right);
      }
      hide ValidPattern, ValidOwner, PatternsMayOverlap, Parted;
      if !request.Valid() {
        return Refused;
      }
      var before := claims;
      claims := Live(claims, now);
      if id :| id in claims && request.HeldBy(claims[id]) && claims[id].pattern == request.pattern {
        return Granted(claims[id]);
      }
      if id :| id in claims && request.Contests(claims[id]) {
        r := Conflict(claims[id]);
        claims := before;
        return;
      }
      if newId in claims {
        claims := before;
        return Refused;
      }
      var claim := NewClaim(request, now, newId);
      claims := claims[newId := claim];
      r := Granted(claim);
    }

    method Active(now: int) returns (active: set<ClaimRecord>)
      modifies this
      ensures claims == Step(old(claims), Operation.Active(now))
      ensures forall claim :: claim in active <==>
        exists id :: id in old(claims) && old(claims)[id] == claim && now < claim.expiresAt
    {
      claims := Live(claims, now);
      active := set id | id in claims :: claims[id];
      forall id | id in old(claims) && now < old(claims)[id].expiresAt ensures old(claims)[id] in active {
        assert claims[id] == old(claims)[id];
      }
    }

    /** Fails when nothing is selected. */
    method Release(selector: Text, owner: Text, workspace: Text)
      returns (released: Option<set<ClaimRecord>>)
      modifies this
      ensures claims == Step(old(claims), Operation.Release(selector, owner, workspace))
      ensures released.Some? <==>
        ValidOwner(owner)
        && exists id :: id in old(claims) && Selected(old(claims)[id], selector, owner, workspace)
      ensures released.Some? ==> forall claim :: claim in released.value <==>
        exists id :: id in old(claims) && old(claims)[id] == claim && Selected(claim, selector, owner, workspace)
    {
      hide ValidOwner;
      if !ValidOwner(owner) {
        return None;
      }
      var chosen := set id | id in claims && Selected(claims[id], selector, owner, workspace);
      if chosen == {} {
        assert forall id | id in claims :: id !in chosen;
        assert Step(claims, Operation.Release(selector, owner, workspace)) == claims;
        return None;
      }
      released := Some(set id | id in chosen :: claims[id]);
      var id :| id in chosen;
      claims := claims - chosen;
    }

    method ReleaseWorkspace(workspace: Text) returns (removed: nat)
      modifies this
      ensures claims == Step(old(claims), Operation.ReleaseWorkspace(workspace))
      ensures removed == |old(claims)| - |claims|
    {
      var before := claims;
      claims := map id | id in claims && claims[id].workspace != workspace :: claims[id];
      FewerRows(before, claims);
      removed := |before| - |claims|;
    }
  }

  lemma FewerRows(before: Table, after: Table)
    requires after.Keys <= before.Keys
    ensures |after| <= |before|
  {
    var gone := before.Keys - after.Keys;
    assert before.Keys == after.Keys + gone;
    assert |after.Keys + gone| == |after.Keys| + |gone|;
  }

  // ---------- Exclusion ----------

  predicate SameHolder(a: ClaimRecord, b: ClaimRecord) {
    a.workspace == b.workspace && a.owner == b.owner
  }

  /** Claims of different holders are not even suspected of overlapping. */
  ghost predicate Exclusive(table: Table) {
    forall a, b | a in table && b in table && !SameHolder(table[a], table[b]) ::
      !PatternsMayOverlap(table[a].pattern, table[b].pattern)
  }

  /** A holder has one claim for a pattern, and each row is filed under its own id. */
  ghost predicate Orderly(table: Table) {
    && (forall id | id in table :: table[id].id == id)
    && forall a, b | a in table && b in table && SameHolder(table[a], table[b]) && table[a].pattern == table[b].pattern ::
         a == b
  }

  lemma OverlapIsSymmetric(left: seq<byte>, right: seq<byte>)
    ensures PatternsMayOverlap(left, right) <==> PatternsMayOverlap(right, left)
  {
  }

  lemma StepKeepsExclusive(table: Table, op: Operation)
    requires Exclusive(table) && Orderly(table)
    ensures Exclusive(Step(table, op)) && Orderly(Step(table, op))
  {
    hide PatternsMayOverlap, ValidPattern, ValidOwner;
    if op.Claim? {
      var live := Live(table, op.now);
      if op.request.Valid() && !AlreadyHeld(live, op.request) && !Contested(live, op.request) && op.newId !in live {
        forall id | id in live && !op.request.HeldBy(live[id])
          ensures !PatternsMayOverlap(live[id].pattern, op.request.pattern)
          ensures !PatternsMayOverlap(op.request.pattern, live[id].pattern)
        {
          assert !op.request.Contests(live[id]);
          OverlapIsSymmetric(live[id].pattern, op.request.pattern);
        }
      }
    }
  }

  function Run(table: Table, ops: seq<Operation>): Table {
    if ops == [] then table else Step(Run(table, ops[..|ops| - 1]), ops[|ops| - 1])
  }

  lemma {:induction false} RunKeepsExclusive(ops: seq<Operation>)
    ensures Exclusive(Run(map[], ops)) && Orderly(Run(map[], ops))
  {
    hide Step, Exclusive, Orderly;
    if ops == [] {
      NothingClaimed();
    } else {
      RunKeepsExclusive(ops[..|ops| - 1]);
      StepKeepsExclusive(Run(map[], ops[..|ops| - 1]), ops[|ops| - 1]);
    }
  }

  lemma NothingClaimed()
    ensures Exclusive(map[]) && Orderly(map[])
  {
  }

  /** Whatever was claimed, released and left to expire, and whatever the clock did meanwhile: no path is
      matched by claims of two holders. */
  lemma NoSharedPath(ops: seq<Operation>, a: Text, b: Text, path: Path)
    requires a in Run(map[], ops) && b in Run(map[], ops)
    requires Denotes(Run(map[], ops)[a].pattern, path) && Denotes(Run(map[], ops)[b].pattern, path)
    ensures SameHolder(Run(map[], ops)[a], Run(map[], ops)[b])
  {
    hide Run, Denotes, PatternsMayOverlap;
    RunKeepsExclusive(ops);
    SharedPathOverlaps(Run(map[], ops)[a].pattern, Run(map[], ops)[b].pattern, path);
  }

  // ---------- How long a claim holds ----------

  /** The operation leaves the claim alone: its time is not over, and it is not its holder who lets it go. */
  predicate Spares(op: Operation, claim: ClaimRecord) {
    match op
    case Claim(_, now, _) => now < claim.expiresAt
    case Active(now) => now < claim.expiresAt
    case Release(selector, owner, workspace) =>
      owner != claim.owner || workspace != claim.workspace || (selector != claim.id && selector != claim.pattern)
    case ReleaseWorkspace(workspace) => workspace != claim.workspace
  }

  lemma StepKeepsClaim(table: Table, op: Operation, id: Text)
    requires id in table && Spares(op, table[id])
    ensures id in Step(table, op) && Step(table, op)[id] == table[id]
  {
    hide Contested, AlreadyHeld, ValidPattern, ValidOwner;
  }

  lemma {:induction false} RunKeepsClaim(ops: seq<Operation>, k: nat, id: Text)
    requires k <= |ops| && id in Run(map[], ops[..k])
    requires forall i | k <= i < |ops| :: Spares(ops[i], Run(map[], ops[..k])[id])
    ensures id in Run(map[], ops) && Run(map[], ops)[id] == Run(map[], ops[..k])[id]
    decreases |ops|
  {
    hide Step, Spares;
    if k == |ops| {
      assert ops[..k] == ops;
    } else {
      var front := ops[..|ops| - 1];
      assert front[..k] == ops[..k];
      RunKeepsClaim(front, k, id);
      StepKeepsClaim(Run(map[], front), ops[|ops| - 1], id);
    }
  }

  /** The clock of an operation, if it looks at one, is before `end`. */
  predicate Before(op: Operation, end: int) {
    match op case Claim(_, now, _) => now < end case Active(now) => now < end case _ => true
  }

  /** The holder lets the claim go. */
  predicate LetsGo(op: Operation, request: Request, id: Text) {
    match op
    case Release(selector, owner, workspace) =>
      owner == request.owner && workspace == request.workspace && (selector == id || selector == request.pattern)
    case ReleaseWorkspace(workspace) => workspace == request.workspace
    case _ => false
  }

  /**
    * A claim keeps others out for as long as was asked: from the grant on, whatever anyone else does, and until its time
    * is over or its holder lets it go, no other holder is granted a pattern that shares a path with it.
    */
  lemma ClaimProtects(ops: seq<Operation>, k: nat, later: Request, now: int, newId: Text, path: Path)
    requires k < |ops| && ops[k].Claim? && ops[k].newId !in Run(map[], ops[..k]) && ops[k].newId in Run(map[], ops[..k + 1])
    requires var end := ops[k].now + ops[k].request.ttlSeconds;
             && end <= MAX_TIME && now < end
             && forall i | k < i < |ops| :: Before(ops[i], end) && !LetsGo(ops[i], ops[k].request, ops[k].newId)
    requires later.workspace != ops[k].request.workspace || later.owner != ops[k].request.owner
    requires Denotes(ops[k].request.pattern, path) && Denotes(later.pattern, path)
    ensures Contested(Live(Run(map[], ops), now), later) && !AlreadyHeld(Live(Run(map[], ops), now), later)
    ensures Step(Run(map[], ops), Operation.Claim(later, now, newId)) == Run(map[], ops)
  {
    var granted, id := ops[k].request, ops[k].newId;
    hide Denotes, PatternsMayOverlap, ValidPattern, ValidOwner, Run, Step, Live, Contested, AlreadyHeld, Spares, Before,
         LetsGo, Exclusive, Orderly;
    GrantedNow(ops, k);
    var claim := NewClaim(granted, ops[k].now, id);
    forall i | k + 1 <= i < |ops|
      ensures Spares(ops[i], claim)
    {
      AskedIsSpared(ops[i], granted, ops[k].now, id);
    }
    RunKeepsClaim(ops, k + 1, id);
    SharedPathOverlaps(granted.pattern, later.pattern, path);
    StillContests(Run(map[], ops), now, later, id);
    RunKeepsExclusive(ops);
    NotAlreadyHeld(Run(map[], ops), now, later, id);
    ContestedIsRefused(Run(map[], ops), now, later, newId);
  }

  lemma NotAlreadyHeld(table: Table, now: int, later: Request, id: Text)
    requires Exclusive(table) && id in table && !later.HeldBy(table[id])
    requires PatternsMayOverlap(table[id].pattern, later.pattern)
    ensures !AlreadyHeld(Live(table, now), later)
  {
    hide PatternsMayOverlap;
  }

  lemma ContestedIsRefused(table: Table, now: int, later: Request, newId: Text)
    requires Contested(Live(table, now), later) && !AlreadyHeld(Live(table, now), later)
    ensures Step(table, Operation.Claim(later, now, newId)) == table
  {
    hide Contested, AlreadyHeld, Live, ValidPattern, ValidOwner;
  }

  lemma GrantedNow(ops: seq<Operation>, k: nat)
    requires k < |ops| && ops[k].Claim? && ops[k].newId !in Run(map[], ops[..k]) && ops[k].newId in Run(map[], ops[..k + 1])
    ensures Run(map[], ops[..k + 1])[ops[k].newId] == NewClaim(ops[k].request, ops[k].now, ops[k].newId)
  {
    assert ops[..k + 1][..k] == ops[..k];
    assert Run(map[], ops[..k + 1]) == Step(Run(map[], ops[..k]), ops[k]);
    hide Run, PatternsMayOverlap, ValidPattern, ValidOwner, AlreadyHeld, Contested;
  }

  lemma AskedIsSpared(op: Operation, request: Request, start: int, id: Text)
    requires start + request.ttlSeconds <= MAX_TIME
    requires Before(op, start + request.ttlSeconds) && !LetsGo(op, request, id)
    ensures Spares(op, NewClaim(request, start, id))
  {
  }

  lemma StillContests(table: Table, now: int, later: Request, id: Text)
    requires id in table && now < table[id].expiresAt && !later.HeldBy(table[id])
    requires PatternsMayOverlap(table[id].pattern, later.pattern)
    ensures Contested(Live(table, now), later)
  {
    hide PatternsMayOverlap;
    assert Live(table, now)[id] == table[id];
    assert later.Contests(Live(table, now)[id]);
  }
}
