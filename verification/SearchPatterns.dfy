/**
  The last search patterns of one contact (core/search_pattern_history.cpp,
  `contact_last_patterns`): a short most-recently-used list and its file form.
  `lower` stands for `tools::system::to_lower`, of which nothing is assumed.
 */
module SearchPatterns {
  import opened StringUtils

  const MAX_PATTERNS := 10

  // ---------------------------------------------------------------- the list

  /** `remove_if`: the patterns whose lower-case form is another. */
  function Others(ps: seq<string>, key: string, lower: string -> string): (r: seq<string>)
  {
    if ps == [] then []
    else (if lower(ps[0]) == key then [] else [ps[0]]) + Others(ps[1..], key, lower)
  }

  function Resized(ps: seq<string>): (r: seq<string>)
  {
    if |ps| > MAX_PATTERNS then ps[..MAX_PATTERNS] else ps
  }

  /** `add_pattern`; an empty pattern is ignored. */
  function Added(ps: seq<string>, p: string, lower: string -> string): (r: seq<string>)
  {
    if p == "" then ps else Resized([p] + Others(ps, lower(p), lower))
  }

  /** `remove_pattern`. */
  function Removed(ps: seq<string>, p: string, lower: string -> string): (r: seq<string>)
  {
    Others(ps, lower(p), lower)
  }

  datatype Edit = Add(pattern: string) | Remove(pattern: string)

  function Stored(ps: seq<string>, es: seq<Edit>, lower: string -> string): (r: seq<string>)
  {
    if es == [] then ps
    else
      var before := Stored(ps, es[..|es| - 1], lower);
      match es[|es| - 1]
      case Add(p) => Added(before, p, lower)
      case Remove(p) => Removed(before, p, lower)
  }

  /** The same edits on a list without a limit. */
  function Ideal(ps: seq<string>, es: seq<Edit>, lower: string -> string): (r: seq<string>)
  {
    if es == [] then ps
    else
      var before := Ideal(ps, es[..|es| - 1], lower);
      match es[|es| - 1]
      case Add(p) => if p == "" then before else [p] + Others(before, lower(p), lower)
      case Remove(p) => Others(before, lower(p), lower)
  }

  /** No two patterns are equal but for case. */
  ghost predicate NoRepeats(ps: seq<string>, lower: string -> string) {
    forall i, j :: 0 <= i < j < |ps| ==> lower(ps[i]) != lower(ps[j])
  }

  lemma HeadFirst(a: seq<string>, b: seq<string>, c: seq<string>)
    ensures a + (b + c) == (a + b) + c
  {}

  lemma {:induction false} OthersConcat(a: seq<string>, b: seq<string>, key: string, lower: string -> string)
    ensures Others(a + b, key, lower) == Others(a, key, lower) + Others(b, key, lower)
  {
    if a == [] {
      assert a + b == b;
    } else {
      OthersConcat(a[1..], b, key, lower);
      assert (a + b)[1..] == a[1..] + b;
      var head := if lower(a[0]) == key then [] else [a[0]];
      HeadFirst(head, Others(a[1..], key, lower), Others(b, key, lower));
    }
  }

  lemma {:induction false} OthersAre(ps: seq<string>, key: string, lower: string -> string)
    ensures |Others(ps, key, lower)| <= |ps|
    ensures forall p :: p in Others(ps, key, lower) <==> p in ps && lower(p) != key
    ensures NoRepeats(ps, lower) ==> NoRepeats(Others(ps, key, lower), lower)
  {
    if ps != [] {
      var rest := ps[1..];
      OthersAre(rest, key, lower);
      assert forall p :: p in ps <==> p == ps[0] || p in rest;
      if NoRepeats(ps, lower) {
        assert forall k :: 0 <= k < |rest| ==> rest[k] == ps[k + 1];
        forall p | p in Others(rest, key, lower) ensures lower(p) != lower(ps[0]) {
          var k :| 0 <= k < |rest| && rest[k] == p;
        }
        ConsNoRepeats(ps[0], Others(rest, key, lower), lower);
      }
    }
  }

  lemma ConsNoRepeats(p: string, ps: seq<string>, lower: string -> string)
    requires NoRepeats(ps, lower) && forall q :: q in ps ==> lower(q) != lower(p)
    ensures NoRepeats([p] + ps, lower)
  {
    var r := [p] + ps;
    forall i, j | 0 <= i < j < |r| ensures lower(r[i]) != lower(r[j]) {
      assert r[j] == ps[j - 1] && ps[j - 1] in ps;
    }
  }

  /** Without repeats at most one pattern is taken out. */
  lemma {:induction false} OthersOfUnique(ps: seq<string>, key: string, lower: string -> string)
    requires NoRepeats(ps, lower)
    ensures |ps| - 1 <= |Others(ps, key, lower)|
  {
    if ps != [] {
      var rest := ps[1..];
      assert forall k :: 0 <= k < |rest| ==> rest[k] == ps[k + 1];
      OthersOfUnique(rest, key, lower);
      if lower(ps[0]) == key {
        forall k | 0 <= k < |rest| ensures lower(rest[k]) != key {}
        OthersAll(rest, key, lower);
      }
    }
  }

  lemma {:induction false} OthersAll(ps: seq<string>, key: string, lower: string -> string)
    requires forall k :: 0 <= k < |ps| ==> lower(ps[k]) != key
    ensures Others(ps, key, lower) == ps
  {
    if ps != [] { OthersAll(ps[1..], key, lower); }
  }

  lemma OthersOfPrefix(a: seq<string>, b: seq<string>, key: string, lower: string -> string)
    requires a <= b
    ensures Others(a, key, lower) <= Others(b, key, lower)
  {
    assert b == a + b[|a|..];
    OthersConcat(a, b[|a|..], key, lower);
  }

  /** How often each pattern is left: as often as before, or not at all if it is the one removed but for case. */
  lemma {:induction false} OthersCount(ps: seq<string>, key: string, lower: string -> string, q: string)
    ensures multiset(Others(ps, key, lower))[q] == if lower(q) == key then 0 else multiset(ps)[q]
  {
    if ps != [] {
      var rest := ps[1..];
      var one := if lower(ps[0]) == key then [] else [ps[0]];
      OthersCount(rest, key, lower, q);
      assert ps == [ps[0]] + rest && Others(ps, key, lower) == one + Others(rest, key, lower);
      assert multiset(Others(ps, key, lower)) == multiset(one) + multiset(Others(rest, key, lower));
    }
  }

  /** Which patterns are left, and that they keep their order: `at` says where each comes from. */
  lemma {:induction false} OthersInOrder(ps: seq<string>, key: string, lower: string -> string) returns (at: seq<nat>)
    ensures |at| == |Others(ps, key, lower)|
    ensures forall k :: 0 <= k < |at| ==> at[k] < |ps| && Others(ps, key, lower)[k] == ps[at[k]]
    ensures forall j, k :: 0 <= j < k < |at| ==> at[j] < at[k]
  {
    if ps == [] {
      at := [];
    } else {
      var n := |ps| - 1;
      var front := ps[..n];
      at := OthersInOrder(front, key, lower);
      OthersConcat(front, [ps[n]], key, lower);
      assert ps == front + [ps[n]];
      if lower(ps[n]) != key { at := at + [n]; }
    }
  }

  /** `remove_pattern` takes out every form of the pattern, leaves the others as often as they were, in their order. */
  lemma RemovedAre(ps: seq<string>, p: string, lower: string -> string) returns (at: seq<nat>)
    ensures forall q :: multiset(Removed(ps, p, lower))[q] == if lower(q) == lower(p) then 0 else multiset(ps)[q]
    ensures |at| == |Removed(ps, p, lower)|
    ensures forall k :: 0 <= k < |at| ==> at[k] < |ps| && Removed(ps, p, lower)[k] == ps[at[k]]
    ensures forall j, k :: 0 <= j < k < |at| ==> at[j] < at[k]
  {
    forall q ensures multiset(Removed(ps, p, lower))[q] == if lower(q) == lower(p) then 0 else multiset(ps)[q] {
      OthersCount(ps, lower(p), lower, q);
    }
    at := OthersInOrder(ps, lower(p), lower);
  }

  /** `add_pattern` puts the pattern in front of what its removal leaves, and keeps ten. */
  lemma AddedIs(ps: seq<string>, p: string, lower: string -> string)
    ensures p == "" ==> Added(ps, p, lower) == ps
    ensures p != "" ==>
      var all := [p] + Removed(ps, p, lower);
      Added(ps, p, lower) == if |all| > 10 then all[..10] else all
  {}

  /**
    Whatever the edits, the stored list is a prefix of the unlimited
    most-recently-used list, holds at most ten patterns and no repeats.
   */
  lemma {:induction false} StoredIsPrefixOfIdeal(ps: seq<string>, es: seq<Edit>, lower: string -> string)
    requires |ps| <= MAX_PATTERNS
    ensures Stored(ps, es, lower) <= Ideal(ps, es, lower)
    ensures |Stored(ps, es, lower)| <= 10
    ensures NoRepeats(ps, lower) ==> NoRepeats(Stored(ps, es, lower), lower) && NoRepeats(Ideal(ps, es, lower), lower)
  {
    if es != [] {
      var front, e := es[..|es| - 1], es[|es| - 1];
      StoredIsPrefixOfIdeal(ps, front, lower);
      var s, i := Stored(ps, front, lower), Ideal(ps, front, lower);
      var key := lower(e.pattern);
      OthersOfPrefix(s, i, key, lower);
      OthersAre(s, key, lower);
      OthersAre(i, key, lower);
      if e.Add? && e.pattern != "" {
        if NoRepeats(ps, lower) {
          ConsNoRepeats(e.pattern, Others(s, key, lower), lower);
          ConsNoRepeats(e.pattern, Others(i, key, lower), lower);
        }
      }
    }
  }

  /** With adds only, from a list without repeats, it is exactly the ten most recent patterns. */
  lemma {:induction false} AddsKeepTheMostRecent(ps: seq<string>, es: seq<Edit>, lower: string -> string)
    requires |ps| <= MAX_PATTERNS && NoRepeats(ps, lower) && forall e :: e in es ==> e.Add?
    ensures var ideal := Ideal(ps, es, lower);
      Stored(ps, es, lower) == if |ideal| > 10 then ideal[..10] else ideal
  {
    if es != [] {
      var front, e := es[..|es| - 1], es[|es| - 1];
      assert e in es;
      AddsKeepTheMostRecent(ps, front, lower);
      StoredIsPrefixOfIdeal(ps, front, lower);
      var s, i := Stored(ps, front, lower), Ideal(ps, front, lower);
      if e.pattern != "" && |i| > MAX_PATTERNS {
        var key := lower(e.pattern);
        OthersOfUnique(s, key, lower);
        OthersOfPrefix(s, i, key, lower);
      }
    }
  }

  // ---------------------------------------------------------------- the file

  predicate IsSpace(c: char) {
    c == ' ' || c == '\t' || c == '\n' || c == '\r' || c == '\U{B}' || c == '\U{C}'
  }

  /** `boost::trim`. */
  function Trim(s: string): (r: string)
  {
    if s != "" && IsSpace(s[0]) then Trim(s[1..]) else TrimEnd(s)
  }

  function TrimEnd(s: string): (r: string)
  {
    if s != "" && IsSpace(s[|s| - 1]) then TrimEnd(s[..|s| - 1]) else s
  }

  /** Nothing to trim. */
  predicate Trimmed(s: string) {
    s == "" || (!IsSpace(s[0]) && !IsSpace(s[|s| - 1]))
  }

  lemma {:induction false} TrimTrims(s: string)
    ensures Trimmed(Trim(s)) && forall c :: c in Trim(s) ==> c in s
    ensures Trimmed(s) ==> Trim(s) == s
  {
    if s != "" && IsSpace(s[0]) {
      TrimTrims(s[1..]);
    } else {
      TrimEndTrims(s);
    }
  }

  lemma {:induction false} TrimEndTrims(s: string)
    requires s == "" || !IsSpace(s[0])
    ensures Trimmed(TrimEnd(s)) && forall c :: c in TrimEnd(s) ==> c in s
    ensures Trimmed(s) ==> TrimEnd(s) == s
  {
    if s != "" && IsSpace(s[|s| - 1]) {
      TrimEndTrims(s[..|s| - 1]);
    }
  }

  /** What is trimmed away is white space of the C locale, and nothing else is. */
  lemma {:induction false} TrimIs(s: string) returns (i: nat, j: nat)
    ensures i <= j <= |s| && Trim(s) == s[i..j]
    ensures forall k :: (0 <= k < i || j <= k < |s|) ==> s[k] in " \t\n\U{B}\U{C}\r"
    ensures i < j ==> s[i] !in " \t\n\U{B}\U{C}\r" && s[j - 1] !in " \t\n\U{B}\U{C}\r"
  {
    if s != "" && IsSpace(s[0]) {
      i, j := TrimIs(s[1..]);
      i, j := i + 1, j + 1;
      assert s[1..][i - 1..j - 1] == s[i..j];
      forall k | 0 <= k < i || j <= k < |s| ensures s[k] in " \t\n\U{B}\U{C}\r" {
        if k > 0 { assert s[k] == s[1..][k - 1]; }
      }
    } else {
      i := 0;
      j := TrimEndIs(s);
    }
  }

  lemma {:induction false} TrimEndIs(s: string) returns (j: nat)
    ensures j <= |s| && TrimEnd(s) == s[..j]
    ensures forall k :: j <= k < |s| ==> s[k] in " \t\n\U{B}\U{C}\r"
    ensures 0 < j ==> s[j - 1] !in " \t\n\U{B}\U{C}\r"
  {
    if s != "" && IsSpace(s[|s| - 1]) {
      var front := s[..|s| - 1];
      j := TrimEndIs(front);
      assert front[..j] == s[..j];
    } else {
      j := |s|;
    }
  }

  function WithoutReturns(s: string): (r: string)
  {
    if s == "" then "" else (if s[0] == '\r' then "" else [s[0]]) + WithoutReturns(s[1..])
  }

  lemma {:induction false} ReturnsGone(s: string)
    ensures '\r' !in WithoutReturns(s) && forall c :: c in WithoutReturns(s) ==> c in s
    ensures '\r' !in s ==> WithoutReturns(s) == s
  {
    if s != "" {
      ReturnsGone(s[1..]);
      assert s == [s[0]] + s[1..];
    }
  }

  lemma {:induction false} ReturnsAppend(s: string, c: char)
    ensures WithoutReturns(s + [c]) == if c == '\r' then WithoutReturns(s) else WithoutReturns(s) + [c]
  {
    if s == "" {
      assert s + [c] == [c] && [c][1..] == "";
    } else {
      var head := if s[0] == '\r' then "" else [s[0]];
      ReturnsAppend(s[1..], c);
      assert (s + [c])[1..] == s[1..] + [c];
      assert head + (WithoutReturns(s[1..]) + [c]) == (head + WithoutReturns(s[1..])) + [c];
    }
  }

  /** The patterns in the lines of a file: carriage returns dropped, trimmed, empty ones skipped. */
  function Clean(lines: seq<string>): (r: seq<string>)
  {
    if lines == [] then []
    else
      var line := Trim(WithoutReturns(lines[0]));
      (if line == "" then [] else [line]) + Clean(lines[1..])
  }

  function Parse(text: string): (r: seq<string>)
  {
    Clean(Split(text, '\n'))
  }

  /** What `save` writes. */
  function Render(ps: seq<string>): (r: string)
  {
    Joined(ps, "\n")
  }

  /** A pattern that survives being written and read: trimmed, not empty, on one line. */
  predicate LineSafe(p: string) {
    p != "" && Trimmed(p) && '\n' !in p && '\r' !in p
  }

  ghost predicate AllSafe(ps: seq<string>) {
    forall i :: 0 <= i < |ps| ==> LineSafe(ps[i])
  }

  lemma {:induction false} CleanOfSafe(ps: seq<string>)
    requires AllSafe(ps)
    ensures Clean(ps) == ps
  {
    if ps != [] {
      ReturnsGone(ps[0]);
      TrimTrims(ps[0]);
      CleanOfSafe(ps[1..]);
    }
  }

  lemma {:induction false} CleanIsSafe(lines: seq<string>)
    requires Free(lines, '\n')
    ensures AllSafe(Clean(lines))
  {
    if lines != [] {
      ReturnsGone(lines[0]);
      TrimTrims(WithoutReturns(lines[0]));
      CleanIsSafe(lines[1..]);
    }
  }

  /** Reading back what was written gives the same patterns if and only if each is safe on a line. */
  lemma ParseOfRenderIff(ps: seq<string>)
    ensures Parse(Render(ps)) == ps <==> AllSafe(ps)
  {
    SplitIsFree(Render(ps), '\n');
    CleanIsSafe(Split(Render(ps), '\n'));
    if AllSafe(ps) {
      SplitOfJoin(ps, '\n');
      CleanOfSafe(ps);
    }
  }

  /** Where the line that starts at `pos` ends: at a line feed, or with the text. */
  function LineEnd(text: string, pos: nat): (end: nat)
    requires pos <= |text|
    ensures pos <= end <= |text| && (end < |text| ==> text[end] == '\n')
    ensures forall k :: pos <= k < end ==> text[k] != '\n'
    decreases |text| - pos
  {
    if pos == |text| || text[pos] == '\n' then pos else LineEnd(text, pos + 1)
  }

  /** `binary_stream_reader::readline`: the characters up to a line feed, carriage returns skipped. */
  method ReadLine(text: string, pos: nat) returns (line: string, next: nat)
    requires pos <= |text|
    ensures var end := LineEnd(text, pos);
      line == WithoutReturns(text[pos..end]) && next == if end < |text| then end + 1 else end
  {
    line, next := "", pos;
    ghost var end := LineEnd(text, pos);
    while next < |text|
      invariant pos <= next <= |text| && LineEnd(text, next) == end
      invariant line == WithoutReturns(text[pos..next])
      decreases |text| - next
    {
      var ch := text[next];
      LineGrows(text, pos, next);
      next := next + 1;
      if ch == '\r' {
        continue;
      }
      if ch == '\n' {
        return;
      }
      line := line + [ch];
    }
  }

  lemma LineGrows(text: string, pos: nat, end: nat)
    requires pos <= end < |text|
    ensures var line := WithoutReturns(text[pos..end]);
      WithoutReturns(text[pos..end + 1]) == if text[end] == '\r' then line else line + [text[end]]
  {
    ReturnsAppend(text[pos..end], text[end]);
    assert text[pos..end + 1] == text[pos..end] + [text[end]];
  }

  lemma LineIsToken(text: string, pos: nat)
    requires pos <= |text|
    ensures var end := LineEnd(text, pos);
      FindIf(text[pos..], c => c == '\n') == end - pos && text[pos..][..end - pos] == text[pos..end]
  {
    var i, end := FindIf(text[pos..], c => c == '\n'), LineEnd(text, pos);
    assert i < |text| - pos ==> text[pos..][i] == text[pos + i];
    assert end < |text| ==> text[pos..][end - pos] == '\n';
  }

  /** `load`, of a file with this text. */
  method Load(text: string) returns (patterns: seq<string>)
    ensures patterns == Resized(Parse(text))
  {
    patterns := [];
    var pos := 0;
    assert text[0..] == text && [] + Parse(text) == Parse(text);
    while pos != |text|
      invariant pos <= |text| && Parse(text) == patterns + Parse(text[pos..])
      decreases |text| - pos
    {
      ParseLine(text, pos, patterns);
      var line;
      line, pos := ReadLine(text, pos);
      line := Trim(line);
      if line == "" {
        continue;
      }
      patterns := patterns + [line];
    }
    assert text[pos..] == "" && patterns + Parse("") == patterns;
    patterns := if |patterns| > MAX_PATTERNS then patterns[..MAX_PATTERNS] else patterns;
  }

  /** One line of the text adds its pattern, if it has one. */
  lemma ParseLine(text: string, pos: nat, patterns: seq<string>)
    requires pos < |text|
    ensures var end := LineEnd(text, pos);
      var next := if end < |text| then end + 1 else end;
      var line := Trim(WithoutReturns(text[pos..end]));
      patterns + Parse(text[pos..]) == (if line == "" then patterns else patterns + [line]) + Parse(text[next..])
  {
    var rest, end := text[pos..], LineEnd(text, pos);
    var next := if end < |text| then end + 1 else end;
    var tail := Split(text[next..], '\n');
    LineIsToken(text, pos);
    assert Split(rest, '\n') == [text[pos..end]] + tail by {
      if end < |text| {
        assert rest[end - pos + 1..] == text[next..];
      } else {
        assert rest[..end - pos] == rest && text[next..] == "";
      }
    }
    assert ([text[pos..end]] + tail)[1..] == tail;
    var line := Trim(WithoutReturns(text[pos..end]));
    HeadFirst(patterns, if line == "" then [] else [line], Clean(tail));
    assert patterns + [] == patterns;
  }
}
