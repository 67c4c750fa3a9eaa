/**
  `su::brackets_mismatch` (common.shared/string_utils.h) against a grammar of
  balanced words. Bracket kinds are independent: kind `k` is opened by the
  `k`-th character of the open set and closed by that of the close set.
 */
module Brackets {

  datatype Paren = Open | Close

  /** A balanced word by its derivation: nothing, or `( inner ) rest`. */
  datatype Derivation = Nothing | Pair(inner: Derivation, rest: Derivation)

  ghost function Word(t: Derivation): seq<Paren> {
    match t
    case Nothing => []
    case Pair(inner, rest) => [Open] + Word(inner) + [Close] + Word(rest)
  }

  ghost predicate Balanced(w: seq<Paren>) {
    exists t: Derivation :: Word(t) == w
  }

  ghost function Closers(n: nat): seq<Paren> {
    seq(n, _ => Close)
  }

  /** Appending closing brackets makes it balanced. */
  ghost predicate Completable(w: seq<Paren>) {
    exists n: nat :: Balanced(w + Closers(n))
  }

  /** `string_view::find`: the first position of a character, or `npos`, here the length. */
  function IndexIn(brackets: string, c: char): (i: nat)
    ensures i <= |brackets| && (i < |brackets| ==> brackets[i] == c)
    ensures forall j :: 0 <= j < i ==> brackets[j] != c
  {
    if brackets == "" || brackets[0] == c then 0 else 1 + IndexIn(brackets[1..], c)
  }

  /** What one character means for kind `k`; it may both open and close. */
  ghost function Marks(c: char, opens: string, closes: string, k: nat): seq<Paren> {
    (if IndexIn(opens, c) == k then [Open] else []) + (if IndexIn(closes, c) == k then [Close] else [])
  }

  ghost function Projection(s: string, opens: string, closes: string, k: nat): seq<Paren> {
    if s == "" then [] else Projection(s[..|s| - 1], opens, closes, k) + Marks(s[|s| - 1], opens, closes, k)
  }

  /** Every kind can still be closed. */
  ghost predicate AllCompletable(s: string, opens: string, closes: string) {
    forall k: nat :: k < |opens| ==> Completable(Projection(s, opens, closes, k))
  }

  // ---------------------------------------------------------------- counting

  ghost function Depth(w: seq<Paren>): int {
    if w == [] then 0 else Depth(w[..|w| - 1]) + (if w[|w| - 1] == Open then 1 else -1)
  }

  /** The counter never goes below zero. */
  ghost predicate NonNegative(w: seq<Paren>) {
    w == [] || (NonNegative(w[..|w| - 1]) && Depth(w) >= 0)
  }

  lemma {:induction false} DepthConcat(a: seq<Paren>, b: seq<Paren>)
    ensures Depth(a + b) == Depth(a) + Depth(b)
  {
    if b == [] {
      assert a + b == a;
    } else {
      DepthConcat(a, b[..|b| - 1]);
      assert (a + b)[..|a + b| - 1] == a + b[..|b| - 1];
    }
  }

  /** From level `base`, the word never goes below zero. */
  ghost predicate Above(base: int, w: seq<Paren>) {
    forall i :: 0 <= i <= |w| ==> base + Depth(w[..i]) >= 0
  }

  lemma {:induction false} NonNegativeIsAbove(w: seq<Paren>)
    ensures NonNegative(w) <==> Above(0, w)
  {
    if w != [] {
      var front := w[..|w| - 1];
      NonNegativeIsAbove(front);
      assert forall i :: 0 <= i <= |front| ==> w[..i] == front[..i];
      assert w[..|w|] == w;
      if Above(0, w) {
        assert forall i :: 0 <= i <= |front| ==> 0 + Depth(w[..i]) >= 0;
      }
    }
  }

  lemma DepthOfPrefix(a: seq<Paren>, b: seq<Paren>, i: nat)
    requires i <= |a| + |b|
    ensures Depth((a + b)[..i]) == if i <= |a| then Depth(a[..i]) else Depth(a) + Depth(b[..i - |a|])
  {
    if i <= |a| {
      assert (a + b)[..i] == a[..i];
    } else {
      assert (a + b)[..i] == a + b[..i - |a|];
      DepthConcat(a, b[..i - |a|]);
    }
  }

  lemma AboveParts(base: int, a: seq<Paren>, b: seq<Paren>)
    requires Above(base, a + b)
    ensures Above(base, a) && Above(base + Depth(a), b)
  {
    forall i | 0 <= i <= |a| ensures base + Depth(a[..i]) >= 0 {
      DepthOfPrefix(a, b, i);
      assert base + Depth((a + b)[..i]) >= 0;
    }
    forall j | 0 <= j <= |b| ensures base + Depth(a) + Depth(b[..j]) >= 0 {
      DepthOfPrefix(a, b, |a| + j);
      assert base + Depth((a + b)[..|a| + j]) >= 0;
      assert j == 0 ==> a[..|a|] == a && b[..0] == [];
    }
  }

  lemma AboveWhole(base: int, a: seq<Paren>, b: seq<Paren>)
    requires Above(base, a) && Above(base + Depth(a), b)
    ensures Above(base, a + b)
  {
    forall i | 0 <= i <= |a + b| ensures base + Depth((a + b)[..i]) >= 0 {
      DepthOfPrefix(a, b, i);
      if i <= |a| {
        assert base + Depth(a[..i]) >= 0;
      } else {
        assert base + Depth(a) + Depth(b[..i - |a|]) >= 0;
      }
    }
  }

  lemma AboveOne(base: int, p: Paren)
    ensures Depth([p]) == (if p == Open then 1 else -1)
    ensures Above(base, [p]) <==> base >= 0 && base + Depth([p]) >= 0
  {
    assert [p][..0] == [] && [p][..1] == [p];
    if Above(base, [p]) {
      assert base + Depth([p][..0]) >= 0 && base + Depth([p][..1]) >= 0;
    }
  }

  /** Balanced words return to the level they start at and never go below it. */
  lemma {:induction false} WordIsAbove(t: Derivation, base: nat)
    ensures Depth(Word(t)) == 0 && Above(base, Word(t))
  {
    match t {
      case Nothing =>
      case Pair(inner, rest) =>
        WordIsAbove(inner, base + 1);
        WordIsAbove(rest, base);
        var a := [Open] + Word(inner);
        AboveOne(base, Open);
        AboveOne(base + 1, Close);
        DepthConcat([Open], Word(inner));
        DepthConcat(a, [Close]);
        DepthConcat(a + [Close], Word(rest));
        AboveWhole(base, [Open], Word(inner));
        AboveWhole(base, a, [Close]);
        AboveWhole(base, a + [Close], Word(rest));
    }
  }

  lemma {:induction false} ClosersDepth(n: nat, base: nat)
    ensures Depth(Closers(n)) + n == 0 && (n <= base ==> Above(base, Closers(n)))
  {
    if n == 0 {
      assert Closers(0) == [];
    } else {
      ClosersDepth(n - 1, base);
      assert Closers(n) == Closers(n - 1) + [Close];
      DepthConcat(Closers(n - 1), [Close]);
      AboveOne(base - (n - 1), Close);
      if n <= base {
        AboveWhole(base, Closers(n - 1), [Close]);
      }
    }
  }

  /** A word that stays above zero and ends at zero has a derivation. */
  lemma {:induction false} Derive(w: seq<Paren>) returns (t: Derivation)
    requires Above(0, w) && Depth(w) == 0
    ensures Word(t) == w
    decreases |w|
  {
    if w == [] {
      t := Nothing;
    } else {
      var i := FirstReturn(w);
      var inner, rest := w[1..i], w[i + 1..];
      assert w == [Open] + inner + [Close] + rest;
      SplitAtReturn(w, inner, rest);
      var a := Derive(inner);
      var b := Derive(rest);
      t := Pair(a, b);
    }
  }

  /** The position of the bracket that closes the first one. */
  lemma FirstReturn(w: seq<Paren>) returns (i: nat)
    requires w != [] && Above(0, w) && Depth(w) == 0
    ensures 1 <= i < |w| && w[0] == Open && w[i] == Close && Depth(w[..i]) == 1 && Depth(w[..i + 1]) == 0
    ensures forall k :: 1 <= k <= i ==> Depth(w[..k]) >= 1
  {
    assert w[..1] == [w[0]] && Depth(w[..1]) >= 0;
    AboveOne(0, w[0]);
    i := 1;
    assert w[..|w|] == w;
    while Depth(w[..i + 1]) != 0
      invariant 1 <= i < |w| && Depth(w[..i]) >= 1
      invariant forall k :: 1 <= k <= i ==> Depth(w[..k]) >= 1
      decreases |w| - i
    {
      assert Depth(w[..i + 1]) >= 0;
      i := i + 1;
      assert i < |w|;
    }
    assert w[..i + 1][..i] == w[..i];
  }

  lemma SplitAtReturn(w: seq<Paren>, inner: seq<Paren>, rest: seq<Paren>)
    requires w == [Open] + inner + [Close] + rest && Above(0, w) && Depth(w) == 0
    requires Depth([Open] + inner) == 1
    requires forall k :: 1 <= k <= |inner| + 1 ==> Depth(w[..k]) >= 1
    ensures Above(0, inner) && Depth(inner) == 0 && Above(0, rest) && Depth(rest) == 0
  {
    AboveOne(0, Open);
    AboveOne(1, Close);
    DepthConcat([Open], inner);
    DepthConcat([Open] + inner, [Close]);
    DepthConcat([Open] + inner + [Close], rest);
    AboveParts(0, [Open] + inner + [Close], rest);
    forall j | 0 <= j <= |inner| ensures 0 + Depth(inner[..j]) >= 0 {
      assert w[..j + 1] == [Open] + inner[..j];
      DepthConcat([Open], inner[..j]);
    }
  }

  /** A word can be completed exactly when the counter never goes below zero. */
  lemma CompletableIffNonNegative(w: seq<Paren>)
    ensures Completable(w) <==> NonNegative(w)
  {
    NonNegativeIsAbove(w);
    if Completable(w) {
      var n: nat :| Balanced(w + Closers(n));
      var t: Derivation :| Word(t) == w + Closers(n);
      WordIsAbove(t, 0);
      AboveParts(0, w, Closers(n));
    }
    if NonNegative(w) {
      assert w[..|w|] == w && 0 + Depth(w[..|w|]) >= 0;
      var n := Depth(w);
      ClosersDepth(n, n);
      AboveWhole(0, w, Closers(n));
      DepthConcat(w, Closers(n));
      var t := Derive(w + Closers(n));
      assert Balanced(w + Closers(n));
    }
  }

  // ---------------------------------------------------------------- the scan

  /** The counters describe the characters read so far. */
  ghost predicate Describes(counters: seq<nat>, s: string, opens: string, closes: string) {
    && |counters| == |opens|
    && forall k: nat :: k < |opens| ==>
      NonNegative(Projection(s, opens, closes, k)) && counters[k] == Depth(Projection(s, opens, closes, k))
  }

  lemma ProjectionAppend(s: string, c: char, opens: string, closes: string, k: nat)
    ensures Projection(s + [c], opens, closes, k) == Projection(s, opens, closes, k) + Marks(c, opens, closes, k)
  {
    assert (s + [c])[..|s|] == s;
  }

  lemma NonNegativeAppend(w: seq<Paren>, p: Paren)
    ensures Depth(w + [p]) == Depth(w) + (if p == Open then 1 else -1)
    ensures NonNegative(w + [p]) <==> NonNegative(w) && Depth(w + [p]) >= 0
  {
    assert (w + [p])[..|w|] == w;
  }

  /** A word with an opening mark, a closing mark, or one after the other. */
  function Marked(w: seq<Paren>, up: bool, down: bool): (r: seq<Paren>)
  {
    var mid := if up then w + [Open] else w;
    if down then mid + [Close] else mid
  }

  /** An opening mark counts up, then a closing mark counts down if it can. */
  lemma MarkedDepth(w: seq<Paren>, up: bool, down: bool)
    requires NonNegative(w)
    ensures var d := Depth(w) + (if up then 1 else 0);
      if down then (NonNegative(Marked(w, up, down)) <==> d > 0) && Depth(Marked(w, up, down)) + 1 == d
      else NonNegative(Marked(w, up, down)) && Depth(Marked(w, up, down)) == d
  {
    var mid := if up then w + [Open] else w;
    NonNegativeLevel(w);
    if up { NonNegativeAppend(w, Open); }
    if down { NonNegativeAppend(mid, Close); }
  }

  lemma MarksAreMarked(w: seq<Paren>, c: char, opens: string, closes: string, k: nat)
    ensures w + Marks(c, opens, closes, k) == Marked(w, IndexIn(opens, c) == k, IndexIn(closes, c) == k)
  {}

  /** One character for one kind. */
  lemma ReadOne(s: string, c: char, opens: string, closes: string, k: nat)
    requires NonNegative(Projection(s, opens, closes, k))
    ensures var d := Depth(Projection(s, opens, closes, k)) + (if IndexIn(opens, c) == k then 1 else 0);
      var w := Projection(s + [c], opens, closes, k);
      if IndexIn(closes, c) == k then (NonNegative(w) <==> d > 0) && Depth(w) + 1 == d
      else NonNegative(w) && Depth(w) == d
  {
    var w, up, down := Projection(s, opens, closes, k), IndexIn(opens, c) == k, IndexIn(closes, c) == k;
    ProjectionAppend(s, c, opens, closes, k);
    MarksAreMarked(w, c, opens, closes, k);
    MarkedDepth(w, up, down);
  }

  ghost predicate AllNonNegative(s: string, opens: string, closes: string) {
    forall k: nat :: k < |opens| ==> NonNegative(Projection(s, opens, closes, k))
  }

  lemma AllCompletableIff(s: string, opens: string, closes: string)
    ensures AllCompletable(s, opens, closes) <==> AllNonNegative(s, opens, closes)
  {
    forall k: nat
      ensures Completable(Projection(s, opens, closes, k)) <==> NonNegative(Projection(s, opens, closes, k))
    {
      CompletableIffNonNegative(Projection(s, opens, closes, k));
    }
  }

  lemma NonNegativeLevel(w: seq<Paren>)
    requires NonNegative(w)
    ensures Depth(w) >= 0
  {}

  /** A word that can be completed has only prefixes that can. */
  lemma {:induction false} CompletablePrefix(s: string, n: nat, opens: string, closes: string)
    requires n <= |s| && AllNonNegative(s, opens, closes)
    ensures AllNonNegative(s[..n], opens, closes)
    decreases |s|
  {
    if n < |s| {
      var front := s[..|s| - 1];
      forall k: nat | k < |opens| ensures NonNegative(Projection(front, opens, closes, k)) {
        var w, m := Projection(front, opens, closes, k), Marks(s[|s| - 1], opens, closes, k);
        assert NonNegative(Projection(s, opens, closes, k));
        NonNegativeIsAbove(w + m);
        AboveParts(0, w, m);
        NonNegativeIsAbove(w);
      }
      CompletablePrefix(front, n, opens, closes);
      assert front[..n] == s[..n];
    } else {
      assert s[..n] == s;
    }
  }

  // ---------------------------------------------------------------- the same by counting characters

  /** No bracket is in a set twice, and none in both. */
  ghost predicate Separate(opens: string, closes: string) {
    && |opens| == |closes|
    && (forall i, j :: 0 <= i < j < |opens| ==> opens[i] != opens[j] && closes[i] != closes[j])
    && (forall i, j :: 0 <= i < |opens| && 0 <= j < |closes| ==> opens[i] != closes[j])
  }

  /** Of no kind are there more closing brackets than opening ones. */
  ghost predicate Ahead(s: string, opens: string, closes: string)
    requires |opens| == |closes|
  {
    forall k :: 0 <= k < |opens| ==> multiset(s)[closes[k]] <= multiset(s)[opens[k]]
  }

  /** Not in the first `n` characters, wherever one stops. */
  ghost predicate AlwaysAhead(s: string, n: nat, opens: string, closes: string)
    requires |opens| == |closes| && n <= |s|
  {
    forall m :: 0 <= m <= n ==> Ahead(s[..m], opens, closes)
  }

  lemma MarksOfSeparate(c: char, opens: string, closes: string, k: nat)
    requires Separate(opens, closes) && k < |opens|
    ensures Marks(c, opens, closes, k) == if c == opens[k] then [Open] else if c == closes[k] then [Close] else []
  {
    var i, j := IndexIn(opens, c), IndexIn(closes, c);
    assert i == k <==> c == opens[k];
    assert j == k <==> c == closes[k];
  }

  lemma CountAppend(s: string, c: char, x: char)
    ensures multiset(s + [c])[x] == multiset(s)[x] + (if c == x then 1 else 0)
  {}

  /** What one more character does to the counter of a kind. */
  lemma DepthOneMore(s: string, c: char, opens: string, closes: string, k: nat)
    requires Separate(opens, closes) && k < |opens|
    ensures Depth(Projection(s + [c], opens, closes, k)) ==
      Depth(Projection(s, opens, closes, k)) + (if c == opens[k] then 1 else 0) - (if c == closes[k] then 1 else 0)
    ensures NonNegative(Projection(s + [c], opens, closes, k)) <==>
      NonNegative(Projection(s, opens, closes, k)) && Depth(Projection(s + [c], opens, closes, k)) >= 0
  {
    var w := Projection(s, opens, closes, k);
    ProjectionAppend(s, c, opens, closes, k);
    MarksOfSeparate(c, opens, closes, k);
    if c == opens[k] {
      NonNegativeAppend(w, Open);
    } else if c == closes[k] {
      NonNegativeAppend(w, Close);
    } else {
      assert w + [] == w;
      if NonNegative(w) { NonNegativeLevel(w); }
    }
  }

  /** The counter of a kind is its opening brackets less its closing ones. */
  lemma {:induction false} DepthIsCount(s: string, opens: string, closes: string, k: nat)
    requires Separate(opens, closes) && k < |opens|
    ensures Depth(Projection(s, opens, closes, k)) + multiset(s)[closes[k]] == multiset(s)[opens[k]]
  {
    if s != "" {
      var front, c := s[..|s| - 1], s[|s| - 1];
      assert s == front + [c];
      DepthIsCount(front, opens, closes, k);
      DepthOneMore(front, c, opens, closes, k);
      CountAppend(front, c, opens[k]);
      CountAppend(front, c, closes[k]);
    }
  }

  lemma AheadOneMore(s: string, c: char, opens: string, closes: string)
    requires Separate(opens, closes)
    ensures AllNonNegative(s + [c], opens, closes) <==>
      AllNonNegative(s, opens, closes) && Ahead(s + [c], opens, closes)
  {
    forall k: nat | k < |opens|
      ensures NonNegative(Projection(s + [c], opens, closes, k)) <==>
        NonNegative(Projection(s, opens, closes, k))
        && multiset(s + [c])[closes[k]] <= multiset(s + [c])[opens[k]]
    {
      DepthOneMore(s, c, opens, closes, k);
      DepthIsCount(s + [c], opens, closes, k);
    }
  }

  /** All kinds can be closed exactly when, in every prefix, no kind has more closing brackets than opening ones. */
  lemma {:induction false} NonNegativeIsAhead(s: string, n: nat, opens: string, closes: string)
    requires Separate(opens, closes) && n <= |s|
    ensures AllNonNegative(s[..n], opens, closes) <==> AlwaysAhead(s, n, opens, closes)
  {
    if n > 0 {
      NonNegativeIsAhead(s, n - 1, opens, closes);
      assert s[..n] == s[..n - 1] + [s[n - 1]];
      AheadOneMore(s[..n - 1], s[n - 1], opens, closes);
    }
  }

  // ---------------------------------------------------------------- the loop

  /** The counters with an opening character counted. */
  ghost function CountUp(counters: seq<nat>, i: nat): (r: seq<nat>) {
    if i < |counters| then counters[i := counters[i] + 1] else counters
  }

  /** One character for all kinds: the counters keep describing the text, or the closing bracket has no partner. */
  lemma CountOne(counters: seq<nat>, s: string, c: char, opens: string, closes: string)
    requires |opens| == |closes| && Describes(counters, s, opens, closes)
    ensures var up, j := CountUp(counters, IndexIn(opens, c)), IndexIn(closes, c);
      if j == |closes| then Describes(up, s + [c], opens, closes)
      else if up[j] == 0 then !AllNonNegative(s + [c], opens, closes)
      else Describes(up[j := up[j] - 1], s + [c], opens, closes)
  {
    var up, j := CountUp(counters, IndexIn(opens, c)), IndexIn(closes, c);
    var now := if j == |closes| || up[j] == 0 then up else up[j := up[j] - 1];
    forall k: nat | k < |opens|
      ensures j == k && up[k] == 0 ==> !NonNegative(Projection(s + [c], opens, closes, k))
      ensures !(j == k && up[k] == 0) ==>
        NonNegative(Projection(s + [c], opens, closes, k)) && now[k] == Depth(Projection(s + [c], opens, closes, k))
    {
      ReadOne(s, c, opens, closes, k);
    }
  }

  /**
    `brackets_mismatch`: the end of the longest prefix in which every kind of
    bracket can still be closed. For sets of different sizes it is the end.
   */
  method BracketsMismatch(s: string, opens: string, closes: string) returns (r: nat)
    ensures r <= |s|
    ensures |opens| != |closes| ==> r == |s|
    ensures |opens| == |closes| ==>
      forall n :: 0 <= n <= |s| ==> (AllCompletable(s[..n], opens, closes) <==> n <= r)
    ensures Separate(opens, closes) ==>
      forall n :: 0 <= n <= |s| ==> (AlwaysAhead(s, n, opens, closes) <==> n <= r)
  {
    if |opens| != |closes| {
      return |s|;
    }
    var n := |opens|;
    var counters := new nat[n](_ => 0);
    r := 0;
    assert Describes(counters[..], s[..0], opens, closes);
    while r < |s|
      invariant r <= |s| && counters.Length == n
      invariant Describes(counters[..], s[..r], opens, closes)
    {
      assert s[..r + 1] == s[..r] + [s[r]];
      assert AllNonNegative(s[..r], opens, closes);
      var matched := CountCharacter(counters, s[r], opens, closes, s[..r]);
      if !matched {
        break;
      }
      r := r + 1;
    }
    assert AllNonNegative(s[..r], opens, closes);
    ScanEnds(s, r, opens, closes);
  }

  /**
    The body of that loop; `before` is the text read so far.
    The scan goes on while every closing bracket is matched.
   */
  method CountCharacter(counters: array<nat>, c: char, opens: string, closes: string, ghost before: string)
    returns (matched: bool)
    requires |opens| == |closes| && Describes(counters[..], before, opens, closes)
    modifies counters
    ensures matched ==> Describes(counters[..], before + [c], opens, closes)
    ensures !matched ==> Describes(old(counters[..]), before, opens, closes)
    ensures !matched ==> !AllNonNegative(before + [c], opens, closes)
  {
    CountOne(counters[..], before, c, opens, closes);
    ghost var up := CountUp(counters[..], IndexIn(opens, c));
    matched := true;
    var i := IndexIn(opens, c);
    if i != |opens| {
      counters[i] := counters[i] + 1;
    }
    assert counters[..] == up;
    i := IndexIn(closes, c);
    if i != |closes| {
      if counters[i] != 0 {
        counters[i] := counters[i] - 1;
        assert counters[..] == up[i := up[i] - 1];
      } else {
        matched := false;
      }
    }
  }

  /** Where the scan stops is the end of the longest prefix. */
  lemma Longest(s: string, r: nat, opens: string, closes: string)
    requires r <= |s| && AllNonNegative(s[..r], opens, closes)
    requires r < |s| ==> !AllNonNegative(s[..r + 1], opens, closes)
    ensures forall n :: 0 <= n <= |s| ==> (AllCompletable(s[..n], opens, closes) <==> n <= r)
  {
    forall n | 0 <= n <= |s| ensures AllCompletable(s[..n], opens, closes) <==> n <= r {
      AllCompletableIff(s[..n], opens, closes);
      if n <= r {
        CompletablePrefix(s[..r], n, opens, closes);
        assert s[..r][..n] == s[..n];
      } else if AllNonNegative(s[..n], opens, closes) {
        assert s[..n][..r + 1] == s[..r + 1];
        CompletablePrefix(s[..n], r + 1, opens, closes);
      }
    }
  }

  /** The same, and for separate sets in terms of counts. */
  lemma ScanEnds(s: string, r: nat, opens: string, closes: string)
    requires |opens| == |closes| && r <= |s| && AllNonNegative(s[..r], opens, closes)
    requires r < |s| ==> !AllNonNegative(s[..r + 1], opens, closes)
    ensures forall n :: 0 <= n <= |s| ==> (AllCompletable(s[..n], opens, closes) <==> n <= r)
    ensures Separate(opens, closes) ==>
      forall n :: 0 <= n <= |s| ==> (AlwaysAhead(s, n, opens, closes) <==> n <= r)
  {
    Longest(s, r, opens, closes);
    if Separate(opens, closes) {
      forall n | 0 <= n <= |s| ensures AlwaysAhead(s, n, opens, closes) <==> n <= r {
        AllCompletableIff(s[..n], opens, closes);
        NonNegativeIsAhead(s, n, opens, closes);
      }
    }
  }
}
