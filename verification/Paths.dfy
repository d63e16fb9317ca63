/** Repository-relative byte paths: the order of the maps that hold them, and what lies below a directory. */
module Paths {
  import opened Bytes

  type Path = seq<byte>

  const SLASH: byte := 0x2F

  /** Bytewise lexicographic order. */
  predicate Less(a: Path, b: Path) {
    b != [] && (a == [] || a[0] < b[0] || (a[0] == b[0] && Less(a[1..], b[1..])))
  }

  predicate AtMost(a: Path, b: Path) {
    a == b || Less(a, b)
  }

  predicate IsDescendant(path: Path, ancestor: Path) {
    |path| > |ancestor| && path[..|ancestor|] == ancestor && path[|ancestor|] == SLASH
  }

  function JoinPath(prefix: Path, name: seq<byte>): Path {
    if prefix == [] then name else prefix + [SLASH] + name
  }

  /** The text between slashes. */
  function Components(text: seq<byte>): (r: seq<seq<byte>>)
    ensures r != []
  {
    if text == [] then [[]]
    else
      var rest := Components(text[1..]);
      if text[0] == SLASH then [[]] + rest else [[text[0]] + rest[0]] + rest[1..]
  }

  // ---------- Components told by the text ----------

  const DOT: byte := 0x2E

  predicate OccursAt(text: seq<byte>, part: seq<byte>, at: nat) {
    at + |part| <= |text| && text[at..at + |part|] == part
  }

  ghost predicate Contains(text: seq<byte>, part: seq<byte>) {
    exists at: nat :: OccursAt(text, part, at)
  }

  function Fenced(text: seq<byte>): seq<byte> {
    [SLASH] + text + [SLASH]
  }

  lemma FencedCons(text: seq<byte>)
    requires text != []
    ensures Fenced(text)[0] == SLASH && Fenced(text)[1] == text[0]
    ensures Fenced(text)[2..] == Fenced(text[1..])[1..]
    ensures text[0] == SLASH ==> Fenced(text) == [SLASH] + Fenced(text[1..])
  {
    assert text == [text[0]] + text[1..];
  }

  /** The first component is what stands between the first two slashes of the fenced text. */
  lemma {:induction false} FirstComponent(text: seq<byte>, component: seq<byte>)
    requires SLASH !in component
    ensures OccursAt(Fenced(text), Fenced(component), 0) <==> component == Components(text)[0]
  {
    var f, c := Fenced(text), Fenced(component);
    if text == [] {
      if OccursAt(f, c, 0) {
        assert |component| == 0;
      }
    } else {
      FencedCons(text);
      if component == [] {
        assert f[0..2] == [SLASH, text[0]];
        assert c == [SLASH, SLASH];
      } else {
        FencedCons(component);
        assert c[1] == component[0];
        if text[0] == SLASH {
          OccursIn(f, c, 0, 1);
        } else {
          FirstComponent(text[1..], component[1..]);
          var g, d := Fenced(text[1..]), Fenced(component[1..]);
          assert f[2..] == g[1..] && c[2..] == d[1..];
          assert component == [component[0]] + component[1..];
          if OccursAt(f, c, 0) {
            OccursIn(f, c, 0, 1);
            assert g[0..|d|] == [SLASH] + g[1..|d|] && d == [SLASH] + d[1..];
            assert g[1..|d|] == f[2..|c|] == c[2..];
          }
          if text[0] == component[0] && OccursAt(g, d, 0) {
            assert f[0..|c|] == [SLASH, text[0]] + f[2..|c|] && c == [SLASH, component[0]] + c[2..];
            assert f[2..|c|] == g[1..|d|] == d[1..];
          }
        }
      }
    }
  }

  lemma OccursIn(text: seq<byte>, part: seq<byte>, at: nat, k: nat)
    requires k < |part|
    ensures OccursAt(text, part, at) ==> at + k < |text| && text[at + k] == part[k]
  {
    if OccursAt(text, part, at) {
      assert text[at..at + |part|][k] == text[at + k];
    }
  }

  /** An occurrence past the first two bytes is one in the rest. */
  lemma OccursLater(text: seq<byte>, part: seq<byte>, at: nat)
    requires text != [] && (0 < at || text[0] == SLASH)
    ensures OccursAt(Fenced(text), part, at + 1) <==> OccursAt(Fenced(text[1..]), part, at)
  {
    FencedCons(text);
    var f, g := Fenced(text), Fenced(text[1..]);
    if at + |part| <= |g| {
      assert g[at..at + |part|] == f[at + 1..at + 1 + |part|];
    }
  }

  ghost predicate OccursPast(text: seq<byte>, part: seq<byte>) {
    exists at: nat :: 0 < at && OccursAt(text, part, at)
  }

  /** Any later component is what stands between two later slashes. */
  lemma {:induction false} LaterComponent(text: seq<byte>, component: seq<byte>)
    requires SLASH !in component
    ensures OccursPast(Fenced(text), Fenced(component)) <==> component in Components(text)[1..]
  {
    var f, c := Fenced(text), Fenced(component);
    if text == [] {
      assert forall at: nat | 0 < at :: !OccursAt(f, c, at);
    } else {
      var g, rest := Fenced(text[1..]), Components(text[1..]);
      LaterComponent(text[1..], component);
      FirstComponent(text[1..], component);
      if text[0] == SLASH {
        PastSlash(text, c);
        assert Components(text)[1..] == rest;
        assert rest == [rest[0]] + rest[1..];
      } else {
        PastByte(text, c);
        assert Components(text)[1..] == rest[1..];
      }
    }
  }

  lemma PastSlash(text: seq<byte>, part: seq<byte>)
    requires text != [] && text[0] == SLASH
    ensures OccursPast(Fenced(text), part) <==>
              OccursAt(Fenced(text[1..]), part, 0) || OccursPast(Fenced(text[1..]), part)
  {
    hide OccursAt, Fenced;
    OccursLater(text, part, 0);
    if at: nat :| 0 < at && OccursAt(Fenced(text), part, at) {
      OccursLater(text, part, at - 1);
    }
    if at: nat :| 0 < at && OccursAt(Fenced(text[1..]), part, at) {
      OccursLater(text, part, at);
    }
  }

  lemma PastByte(text: seq<byte>, part: seq<byte>)
    requires text != [] && text[0] != SLASH && part != [] && part[0] == SLASH
    ensures OccursPast(Fenced(text), part) <==> OccursPast(Fenced(text[1..]), part)
  {
    OccursIn(Fenced(text), part, 1, 0);
    assert Fenced(text)[1] == text[0];
    hide OccursAt, Fenced;
    if at: nat :| 0 < at && OccursAt(Fenced(text), part, at) {
      if 1 < at {
        OccursLater(text, part, at - 1);
      }
    }
    if at: nat :| 0 < at && OccursAt(Fenced(text[1..]), part, at) {
      OccursLater(text, part, at);
    }
  }

  /** A component is what stands between two slashes of the text, counting one before it and one after. */
  lemma ComponentIff(text: seq<byte>, component: seq<byte>)
    requires SLASH !in component
    ensures component in Components(text) <==> Contains(Fenced(text), Fenced(component))
  {
    FirstComponent(text, component);
    LaterComponent(text, component);
    var all, f, c := Components(text), Fenced(text), Fenced(component);
    assert all == [all[0]] + all[1..];
  }

  /** No component is empty, the directory itself, or the one above. */
  predicate SafeComponents(text: seq<byte>) {
    forall i | 0 <= i < |Components(text)| ::
      Components(text)[i] != [] && Components(text)[i] != [DOT] && Components(text)[i] != [DOT, DOT]
  }

  lemma SafeIff(text: seq<byte>)
    ensures SafeComponents(text) <==>
              && !Contains(Fenced(text), [SLASH, SLASH]) && !Contains(Fenced(text), [SLASH, DOT, SLASH])
              && !Contains(Fenced(text), [SLASH, DOT, DOT, SLASH])
  {
    hide Components, Contains;
    ComponentIff(text, []);
    ComponentIff(text, [DOT]);
    ComponentIff(text, [DOT, DOT]);
    assert Fenced([]) == [SLASH, SLASH] && Fenced([DOT]) == [SLASH, DOT, SLASH];
    assert Fenced([DOT, DOT]) == [SLASH, DOT, DOT, SLASH];
  }

  lemma {:induction false} LessTotal(a: Path, b: Path)
    ensures a == b || Less(a, b) || Less(b, a)
    ensures !(Less(a, b) && Less(b, a)) && !Less(a, a)
  {
    if a != [] {
      LessTotal(a[1..], if b == [] then a[1..] else b[1..]);
      LessTotal(a[1..], a[1..]);
      assert a == [a[0]] + a[1..];
      assert b != [] ==> b == [b[0]] + b[1..];
    }
  }

  lemma {:induction false} LessTransitive(a: Path, b: Path, c: Path)
    requires Less(a, b) && Less(b, c)
    ensures Less(a, c)
  {
    if a != [] && a[0] == b[0] == c[0] {
      LessTransitive(a[1..], b[1..], c[1..]);
    }
  }

  lemma {:induction false} PrefixIsLess(a: Path, rest: seq<byte>)
    requires rest != []
    ensures Less(a, a + rest)
  {
    if a != [] {
      PrefixIsLess(a[1..], rest);
      assert (a + rest)[1..] == a[1..] + rest;
    }
  }

  /** What sorts between a prefix and something that starts with it starts with it too. */
  lemma {:induction false} BetweenSharesPrefix(prefix: Path, middle: Path, rest: seq<byte>)
    requires AtMost(prefix, middle) && AtMost(middle, prefix + rest)
    ensures prefix <= middle
  {
    if prefix != [] {
      assert (prefix + rest)[1..] == prefix[1..] + rest;
      assert middle != [];
      assert middle == [middle[0]] + middle[1..];
      assert prefix == [prefix[0]] + prefix[1..];
      if middle[0] != prefix[0] {
        LessTotal(prefix, middle);
        LessTotal(middle, prefix + rest);
      }
      BetweenSharesPrefix(prefix[1..], middle[1..], rest);
    }
  }

  lemma DescendantStarts(path: Path, ancestor: Path)
    ensures IsDescendant(path, ancestor) <==> ancestor + [SLASH] <= path
  {
    if IsDescendant(path, ancestor) {
      assert path[..|ancestor| + 1] == ancestor + [SLASH];
    }
    if ancestor + [SLASH] <= path {
      assert path[..|ancestor|] == (ancestor + [SLASH])[..|ancestor|];
      assert path[|ancestor|] == (ancestor + [SLASH])[|ancestor|];
    }
  }

  lemma DescendantIsTransitive(path: Path, middle: Path, ancestor: Path)
    requires IsDescendant(path, middle) && IsDescendant(middle, ancestor)
    ensures IsDescendant(path, ancestor)
  {
    assert path[..|ancestor|] == middle[..|ancestor|];
    assert path[|ancestor|] == path[..|middle|][|ancestor|];
  }
}
