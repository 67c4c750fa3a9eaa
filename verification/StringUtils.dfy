/**
  Splitting and joining (common.shared/string_utils.h, namespace `su`).
  Tokens are views into the source there; here they are strings.
 */
module StringUtils {

  datatype TokenCompress = Off | On

  /** `std::find_if`: the first position that satisfies `p`, or the end. */
  function FindIf(s: string, p: char -> bool): (i: nat)
    ensures i <= |s|
    ensures forall k :: 0 <= k < i ==> !p(s[k])
    ensures i < |s| ==> p(s[i])
  {
    if s == "" || p(s[0]) then 0 else 1 + FindIf(s[1..], p)
  }

  /** The pieces between delimiters; a delimiter at the very end starts no piece. */
  function Tokens(s: string, p: char -> bool): (ts: seq<string>)
    decreases |s|
  {
    if s == "" then []
    else
      var i := FindIf(s, p);
      if i == |s| then [s] else [s[..i]] + Tokens(s[i + 1..], p)
  }

  function NonEmpty(ts: seq<string>): (r: seq<string>)
  {
    if ts == [] then []
    else (if ts[0] == "" then [] else [ts[0]]) + NonEmpty(ts[1..])
  }

  lemma NonEmptyCons(t: string, ts: seq<string>)
    ensures NonEmpty([t] + ts) == (if t == "" then [] else [t]) + NonEmpty(ts)
  {
    assert ([t] + ts)[1..] == ts;
  }

  /** The tokens that are not empty, as often as they were. */
  lemma {:induction false} NonEmptyCount(ts: seq<string>, t: string)
    ensures multiset(NonEmpty(ts))[t] == if t == "" then 0 else multiset(ts)[t]
  {
    if ts != [] {
      var rest := ts[1..];
      var one := if ts[0] == "" then [] else [ts[0]];
      NonEmptyCount(rest, t);
      assert ts == [ts[0]] + rest && NonEmpty(ts) == one + NonEmpty(rest);
      assert multiset(NonEmpty(ts)) == multiset(one) + multiset(NonEmpty(rest));
    }
  }

  lemma Regroup(a: seq<string>, b: seq<string>, c: seq<string>)
    ensures a + (b + c) == (a + b) + c
  {}

  /** And in their order. */
  lemma {:induction false} NonEmptyInOrder(a: seq<string>, b: seq<string>)
    ensures NonEmpty(a + b) == NonEmpty(a) + NonEmpty(b)
  {
    if a == [] {
      assert a + b == b;
    } else {
      var one, rest := if a[0] == "" then [] else [a[0]], a[1..];
      NonEmptyInOrder(rest, b);
      NonEmptyCons(a[0], rest + b);
      NonEmptyCons(a[0], rest);
      assert a == [a[0]] + rest && a + b == [a[0]] + (rest + b);
      Regroup(one, NonEmpty(rest), NonEmpty(b));
    }
  }

  /** What a split keeps of the tokens. */
  function Kept(mode: TokenCompress, ts: seq<string>): (r: seq<string>)
  {
    if mode == On then NonEmpty(ts) else ts
  }

  /** The last token of a nonempty string. */
  lemma LastToken(s: string, p: char -> bool)
    requires s != "" && FindIf(s, p) == |s|
    ensures Tokens(s, p) == [s] && NonEmpty(Tokens(s, p)) == [s]
  {
    NonEmptyCons(s, []);
    assert [s] + [] == [s];
  }

  /** A token that a delimiter ends. */
  lemma FirstToken(s: string, p: char -> bool, token: string, after: string)
    requires FindIf(s, p) < |s| && token == s[..FindIf(s, p)] && after == s[FindIf(s, p) + 1..]
    ensures Tokens(s, p) == [token] + Tokens(after, p)
  {}

  lemma KeptFirst(mode: TokenCompress, token: string, ts: seq<string>)
    ensures Kept(mode, [token] + ts) == (if mode == On && token == "" then [] else [token]) + Kept(mode, ts)
  {
    NonEmptyCons(token, ts);
  }

  /** What the split keeps of the text from a position on. */
  ghost function Rest(source: string, first: nat, p: char -> bool, mode: TokenCompress): (r: seq<string>)
    requires first <= |source|
  {
    Kept(mode, Tokens(source[first..], p))
  }

  /** The token from `first` to the end. */
  lemma RestIsLast(source: string, first: nat, p: char -> bool, mode: TokenCompress)
    requires first < |source| && FindIf(source[first..], p) == |source| - first
    ensures Rest(source, first, p, mode) == [source[first..]]
  {
    LastToken(source[first..], p);
  }

  /** A compressed empty token is skipped, any other token comes first. */
  lemma RestIsNext(source: string, first: nat, p: char -> bool, second: nat, mode: TokenCompress)
    requires first <= second < |source| && second == first + FindIf(source[first..], p)
    ensures Rest(source, first, p, mode)
         == (if mode == On && first == second then [] else [source[first..second]]) + Rest(source, second + 1, p, mode)
  {
    var token, after := source[first..second], source[second + 1..];
    SameSlices(source, first, second);
    FirstToken(source[first..], p, token, after);
    KeptFirst(mode, token, Tokens(after, p));
    assert token == "" <==> first == second;
  }

  lemma SameSlices(source: string, first: nat, second: nat)
    requires first <= second < |source|
    ensures source[first..][..second - first] == source[first..second]
    ensures source[first..][second - first + 1..] == source[second + 1..]
  {}

  /** What is still to come from position `first` on completes the output. */
  ghost predicate Progress(all: seq<string>, source: string, first: nat, p: char -> bool, mode: TokenCompress,
                           out: seq<string>)
  {
    first <= |source| && all == out + Rest(source, first, p, mode)
  }

  lemma ProgressNext(all: seq<string>, out: seq<string>, token: seq<string>, rest: seq<string>)
    requires all == out + (token + rest)
    ensures all == (out + token) + rest
  {}

  /**
    `split_if`. With compression the result is exactly the nonempty tokens of
    the split without it.
   */
  method SplitIf(source: string, p: char -> bool, mode: TokenCompress) returns (out: seq<string>)
    ensures out == Kept(mode, Tokens(source, p))
  {
    out := [];
    var first := 0;
    assert source[0..] == source;
    ghost var all := Rest(source, 0, p, mode);
    while first != |source|
      invariant Progress(all, source, first, p, mode, out)
      decreases |source| - first
    {
      out, first := SplitOne(source, first, p, mode, out, all);
    }
    assert source[first..] == "";
  }

  /** The body of that loop: a token is skipped or written, and the next begins behind its delimiter. */
  method SplitOne(source: string, first: nat, p: char -> bool, mode: TokenCompress, before: seq<string>,
                  ghost all: seq<string>)
    returns (out: seq<string>, next: nat)
    requires first < |source| && Progress(all, source, first, p, mode, before)
    ensures first < next && Progress(all, source, next, p, mode, out)
  {
    out := before;
    var second := first + FindIf(source[first..], p);
    if second < |source| {
      RestIsNext(source, first, p, second, mode);
      if mode == On && first == second {
        ProgressNext(all, out, [], Rest(source, second + 1, p, mode));
        return out, second + 1;
      }
      ProgressNext(all, out, [source[first..second]], Rest(source, second + 1, p, mode));
    } else {
      RestIsLast(source, first, p, mode);
      assert source[first..second] == source[first..] && source[second..] == "";
    }
    out := out + [source[first..second]];
    next := if second < |source| then second + 1 else second;
  }

  /** `split`. */
  function Split(s: string, d: char): (ts: seq<string>)
  {
    Tokens(s, c => c == d)
  }

  /** What `join` produces. */
  function Joined(ts: seq<string>, sep: string): (s: string)
  {
    if ts == [] then "" else if |ts| == 1 then ts[0] else ts[0] + sep + Joined(ts[1..], sep)
  }

  lemma {:induction false} JoinAppend(ts: seq<string>, t: string, sep: string)
    requires ts != []
    ensures Joined(ts + [t], sep) == Joined(ts, sep) + sep + t
  {
    assert (ts + [t])[1..] == ts[1..] + [t];
    if |ts| > 1 {
      JoinAppend(ts[1..], t, sep);
    }
  }

  /** `join_impl`. */
  method Join(ts: seq<string>, sep: string) returns (res: string)
    ensures res == Joined(ts, sep)
  {
    res := "";
    var first := 0;
    if first != |ts| {
      res := res + ts[first];
      first := first + 1;
      assert ts[..1] == [ts[0]];
    }
    while first != |ts|
      invariant 0 <= first <= |ts| && (ts != [] ==> first > 0)
      invariant res == Joined(ts[..first], sep)
      decreases |ts| - first
    {
      JoinAppend(ts[..first], ts[first], sep);
      assert ts[..first + 1] == ts[..first] + [ts[first]];
      res := res + sep;
      res := res + ts[first];
      first := first + 1;
    }
    assert ts[..first] == ts;
  }

  // ---------------------------------------------------------------- round trips

  /** The string less one delimiter at its end, if it has one there. */
  function WithoutTrailing(s: string, d: char): (r: string)
  {
    if s != "" && s[|s| - 1] == d then s[..|s| - 1] else s
  }

  /** The text in front of the first delimiter and the text behind it. */
  lemma SplitNext(s: string, d: char) returns (t: string, rest: string)
    requires FindIf(s, c => c == d) < |s|
    ensures s == t + [d] + rest && Split(s, d) == [t] + Split(rest, d)
  {
    var i := FindIf(s, c => c == d);
    t, rest := s[..i], s[i + 1..];
  }

  lemma SplitLast(s: string, d: char)
    requires s != "" && FindIf(s, c => c == d) == |s|
    ensures Split(s, d) == [s] && (|s| > 0 ==> s[|s| - 1] != d)
  {}

  lemma SplitEmptyIff(s: string, d: char)
    ensures Split(s, d) == [] <==> s == ""
  {}

  lemma TrailingBehind(front: string, d: char, rest: string)
    ensures WithoutTrailing(front + [d] + rest, d) == if rest ==
      "" then front else front + [d] + WithoutTrailing(rest, d)
  {
    var s := front + [d] + rest;
    if rest == "" {
      assert s[..|s| - 1] == front;
    } else {
      assert rest[|rest| - 1] == s[|s| - 1];
      assert s[..|s| - 1] == front + [d] + rest[..|rest| - 1];
    }
  }

  lemma JoinedCons(t: string, ts: seq<string>, sep: string)
    ensures Joined([t] + ts, sep) == if ts == [] then t else t + sep + Joined(ts, sep)
  {
    assert ([t] + ts)[1..] == ts;
  }

  lemma JoinStep(t: string, ts: seq<string>, rest: string, d: char)
    requires (ts == [] <==> rest == "") && Joined(ts, [d]) == WithoutTrailing(rest, d)
    ensures Joined([t] + ts, [d]) == WithoutTrailing(t + [d] + rest, d)
  {
    JoinedCons(t, ts, [d]);
    TrailingBehind(t, d, rest);
  }

  /** Joining the tokens of a string gives it back, less one trailing delimiter. */
  lemma {:induction false} JoinOfSplit(s: string, d: char)
    ensures Joined(Split(s, d), [d]) == WithoutTrailing(s, d)
    decreases |s|
  {
    if s != "" {
      if FindIf(s, c => c == d) < |s| {
        var t, rest := SplitNext(s, d);
        JoinOfSplit(rest, d);
        SplitEmptyIff(rest, d);
        JoinStep(t, Split(rest, d), rest, d);
      } else {
        SplitLast(s, d);
      }
    }
  }

  ghost predicate Free(ts: seq<string>, d: char) {
    forall i :: 0 <= i < |ts| ==> d !in ts[i]
  }

  lemma {:induction false} SplitIsFree(s: string, d: char)
    ensures Free(Split(s, d), d)
    decreases |s|
  {
    if s != "" {
      var i := FindIf(s, c => c == d);
      if i < |s| {
        SplitIsFree(s[i + 1..], d);
      }
    }
  }

  lemma FindDelimiter(t: string, d: char, rest: string)
    requires d !in t
    ensures FindIf(t + [d] + rest, c => c == d) == |t|
  {
    var s := t + [d] + rest;
    assert s[|t|] == d;
    forall k | 0 <= k < |t| ensures s[k] != d { assert s[k] == t[k]; }
  }

  /** A word in front of a delimiter is the first token. */
  lemma SplitWord(t: string, d: char, rest: string)
    requires d !in t
    ensures Split(t + [d] + rest, d) == [t] + Split(rest, d)
  {
    var s := t + [d] + rest;
    FindDelimiter(t, d, rest);
    assert s[..|t|] == t && s[|t| + 1..] == rest;
  }

  lemma {:induction false} SplitOfJoin(ts: seq<string>, d: char)
    requires Free(ts, d) && (ts == [] || ts[|ts| - 1] != "")
    ensures Split(Joined(ts, [d]), d) == ts
  {
    if |ts| == 1 {
      var t := ts[0];
      forall k | 0 <= k < |t| ensures t[k] != d { assert t[k] in t; }
    } else if |ts| > 1 {
      var rest := Joined(ts[1..], [d]);
      SplitOfJoin(ts[1..], d);
      FindDelimiter(ts[0], d, rest);
      var s := ts[0] + [d] + rest;
      assert s[..|ts[0]|] == ts[0] && s[|ts[0]| + 1..] == rest;
      assert ts == [ts[0]] + ts[1..];
    }
  }

  lemma JoinEndsInDelimiter(ts: seq<string>, d: char)
    requires |ts| > 1 && ts[|ts| - 1] == ""
    ensures var s := Joined(ts, [d]); WithoutTrailing(s, d) != s
  {
    var front := ts[..|ts| - 1];
    JoinAppend(front, "", [d]);
    assert ts == front + [""];
    var s := Joined(front, [d]) + [d];
    assert Joined(ts, [d]) == s + "" == s;
    assert s[|s| - 1] == d;
  }

  /** Splitting a join gives the tokens back exactly when none holds the delimiter and the last is not empty. */
  lemma SplitOfJoinIff(ts: seq<string>, d: char)
    ensures Split(Joined(ts, [d]), d) == ts <==> Free(ts, d) && (ts == [] || ts[|ts| - 1] != "")
  {
    var s := Joined(ts, [d]);
    if Free(ts, d) && (ts == [] || ts[|ts| - 1] != "") {
      SplitOfJoin(ts, d);
    } else if Free(ts, d) {
      JoinOfSplit(s, d);
      if |ts| > 1 {
        JoinEndsInDelimiter(ts, d);
      }
    } else {
      SplitIsFree(s, d);
    }
  }
}
