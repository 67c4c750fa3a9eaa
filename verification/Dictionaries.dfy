/**
  The registry of zstd dictionaries (core/zstd_helper.cpp): two lists, for
  requests and responses, ordered by the timestamp in the file names.
 */
module Dictionaries {
  import opened Sequences
  import opened Text
  import opened Sorting
  import opened Decimal

  const REQUEST_PREFIX := "im-zstd-dict-desktop-request"
  const RESPONSE_PREFIX := "im-zstd-dict-desktop-response"
  const TIMESTAMP_SIZE := 6

  datatype Location = Internal | External

  /** A `dict_info`, without the pointer to its data. */
  datatype Dict = Dict(location: Location, path: string, name: string, timestamp: string)

  // ---------------------------------------------------------------- names and timestamps

  /** `find_last_of`: the position behind the last such character, or 0 for `npos`. */
  function AfterLast(s: string, c: char): (i: nat)
    ensures i <= |s|
    ensures i > 0 ==> s[i - 1] == c
    ensures forall k :: i <= k < |s| ==> s[k] != c
  {
    if s == "" then 0 else if s[|s| - 1] == c then |s| else AfterLast(s[..|s| - 1], c)
  }

  /** `find(part) != npos`. */
  predicate Contains(s: string, part: string) {
    part <= s || (s != "" && Contains(s[1..], part))
  }

  ghost predicate OccursAt(s: string, part: string, i: nat) {
    i + |part| <= |s| && s[i..i + |part|] == part
  }

  lemma {:induction false} ContainsIff(s: string, part: string)
    ensures Contains(s, part) <==> exists i: nat :: OccursAt(s, part, i)
  {
    assert OccursAt(s, part, 0) <==> part <= s;
    if !(part <= s) && s != "" {
      var rest := s[1..];
      ContainsIff(rest, part);
      forall i: nat | OccursAt(rest, part, i) ensures OccursAt(s, part, i + 1) {
        assert s[i + 1..i + 1 + |part|] == rest[i..i + |part|];
      }
      forall i: nat | OccursAt(s, part, i) ensures i > 0 && OccursAt(rest, part, i - 1) {
        assert i > 0 ==> rest[i - 1..i - 1 + |part|] == s[i..i + |part|];
      }
    }
  }

  datatype Kind = Request | Response | Neither

  /** Which list a name belongs to; a name with both prefixes counts as a request. */
  function KindOf(name: string): (k: Kind)
  {
    if Contains(name, REQUEST_PREFIX) then Request else if Contains(name, RESPONSE_PREFIX) then Response else Neither
  }

  /** The kind of a name by what it contains. */
  lemma KindOfIs(name: string)
    ensures KindOf(name) == Request <==> exists i: nat :: OccursAt(name, "im-zstd-dict-desktop-request", i)
    ensures KindOf(name) == Response <==>
      KindOf(name) != Request && exists i: nat :: OccursAt(name, "im-zstd-dict-desktop-response", i)
  {
    ContainsIff(name, REQUEST_PREFIX);
    ContainsIff(name, RESPONSE_PREFIX);
  }

  /** DDMMYYN becomes YYMMDDN: the day and the year change places. */
  function SwapDayAndYear(ts: string): (r: string)
    requires |ts| >= TIMESTAMP_SIZE
  {
    [ts[4]] + [ts[5]] + ts[2..4] + [ts[0]] + [ts[1]] + ts[6..]
  }

  /** The timestamp of a name `<prefix>-DDMMYYN.zdict`, or nothing. */
  function Timestamp(name: string): (r: string)
    ensures '-' !in name || '.' !in name ==> r == ""
    ensures r == "" || |r| >= 6
  {
    var begin, end := AfterLast(name, '-'), AfterLast(name, '.');
    if begin > 0 && end > 0 && begin < end && end - 1 - begin >= TIMESTAMP_SIZE
    then SwapDayAndYear(name[begin..end - 1])
    else ""
  }

  /** The constructor of `dict_info`; an external dictionary goes by the file name of its path. */
  function MakeDict(location: Location, path: string): (d: Dict)
  {
    if path == "" then Dict(location, path, "", "")
    else
      var name := if location == External then path[AfterLast(path, '/')..] else path;
      Dict(location, path, name, Timestamp(name))
  }

  /** An external dictionary is named by what follows the last slash of its path, an internal one by its path. */
  lemma MadeIs(location: Location, path: string)
    ensures var d := MakeDict(location, path);
      && d.location == location && d.path == path && d.timestamp == Timestamp(d.name)
      && (location == Internal ==> d.name == path)
      && (location == External ==> '/' !in d.name && (d.name == path || exists dir :: path == dir + "/" + d.name))
  {
    var i := AfterLast(path, '/');
    if i > 0 { assert path == path[..i - 1] + "/" + path[i..]; }
  }

  predicate TwoDigits(s: string) {
    |s| == 2 && AllDigits(s)
  }

  /** The name of a dictionary of a day, with an extra number that may be absent. */
  function NameOf(prefix: string, day: string, month: string, year: string, extra: string): (s: string)
  {
    prefix + "-" + (day + month + year + extra + ".zdict")
  }

  /** The number a date stands for. */
  function DateNumber(day: string, month: string, year: string): (n: nat)
    requires TwoDigits(day) && TwoDigits(month) && TwoDigits(year)
  {
    Value(year) * 10000 + Value(month) * 100 + Value(day)
  }

  /** A dictionary's name goes into the list its prefix says. */
  lemma KindOfName(day: string, month: string, year: string, extra: string)
    requires TwoDigits(day) && TwoDigits(month) && TwoDigits(year) && AllDigits(extra)
    ensures KindOf(NameOf("im-zstd-dict-desktop-request", day, month, year, extra)) == Request
    ensures KindOf(NameOf("im-zstd-dict-desktop-response", day, month, year, extra)) == Response
  {
    var tail := "-" + (day + month + year + extra + ".zdict");
    var request, response := "im-zstd-dict-desktop-request" + tail, "im-zstd-dict-desktop-response" + tail;
    KindOfIs(request);
    KindOfIs(response);
    assert NameOf("im-zstd-dict-desktop-request", day, month, year, extra) == request;
    assert NameOf("im-zstd-dict-desktop-response", day, month, year, extra) == response;
    assert OccursAt(request, "im-zstd-dict-desktop-request", 0);
    assert OccursAt(response, "im-zstd-dict-desktop-response", 0);
    NoLetterM(day + month + year + extra);
    forall i: nat ensures !OccursAt(response, "im-zstd-dict-desktop-request", i) {
      NotARequest(tail, i);
    }
  }

  lemma NoLetterM(digits: string)
    requires AllDigits(digits)
    ensures 'm' !in "-" + (digits + ".zdict")
  {
    forall c | c in digits ensures c != 'm' {
      var k :| 0 <= k < |digits| && digits[k] == c;
    }
  }

  /** The request prefix starts with "im", and the only 'm' of such a name is its second character. */
  lemma NotARequest(tail: string, i: nat)
    requires 'm' !in tail
    ensures !OccursAt("im-zstd-dict-desktop-response" + tail, "im-zstd-dict-desktop-request", i)
  {
    var front, part := "im-zstd-dict-desktop-response", "im-zstd-dict-desktop-request";
    var name := front + tail;
    forall j | 2 <= j < |name| ensures name[j] != 'm' {
      assert name[j] == if j < |front| then front[j] else tail[j - |front|];
    }
    assert part[1] == 'm' && part[25] == 'e' && name[25] == 'o';
    DiffersAt(name, part, i, if i == 0 then 25 else 1);
  }

  lemma DiffersAt(s: string, part: string, i: nat, k: nat)
    requires k < |part| && (i + k < |s| ==> s[i + k] != part[k])
    ensures !OccursAt(s, part, i)
  {
    if i + |part| <= |s| { assert s[i..i + |part|][k] == s[i + k]; }
  }

  lemma {:induction false} LastOccurrence(front: string, c: char, back: string)
    requires c !in back
    ensures AfterLast(front + [c] + back, c) == |front| + 1
  {
    var s := front + [c] + back;
    if back == "" {
      assert s[|s| - 1] == c;
    } else {
      var n := |back| - 1;
      assert back[n] in back && s[|s| - 1] == back[n];
      LastOccurrence(front, c, back[..n]);
      assert s[..|s| - 1] == front + [c] + back[..n];
    }
  }

  lemma TimestampOfInfo(prefix: string, info: string)
    requires AllDigits(info) && |info| >= TIMESTAMP_SIZE
    ensures Timestamp(prefix + "-" + (info + ".zdict")) == SwapDayAndYear(info)
  {
    var name := prefix + "-" + (info + ".zdict");
    NoDash(info);
    LastOccurrence(prefix, '-', info + ".zdict");
    assert name == (prefix + "-" + info) + ['.'] + "zdict";
    LastOccurrence(prefix + "-" + info, '.', "zdict");
    Middle(prefix + "-", info, ".zdict");
    assert name == prefix + "-" + info + ".zdict";
  }

  lemma NoDash(info: string)
    requires AllDigits(info)
    ensures '-' !in info + ".zdict"
  {
    forall c | c in info ensures c != '-' {
      var k :| 0 <= k < |info| && info[k] == c;
    }
  }

  lemma Middle(a: string, b: string, c: string)
    ensures (a + b + c)[|a|..|a| + |b|] == b
  {}

  /** The timestamp of a well-formed name is year, month, day and extra number in a row. */
  lemma TimestampOfName(prefix: string, day: string, month: string, year: string, extra: string)
    requires TwoDigits(day) && TwoDigits(month) && TwoDigits(year) && AllDigits(extra)
    ensures Timestamp(NameOf(prefix, day, month, year, extra)) == year + month + day + extra
  {
    TimestampOfInfo(prefix, day + month + year + extra);
    SwapParts(day, month, year, extra);
  }

  lemma SwapParts(day: string, month: string, year: string, extra: string)
    requires |day| == |month| == |year| == 2
    ensures SwapDayAndYear(day + month + year + extra) == year + month + day + extra
  {
    var info := day + month + year + extra;
    assert info[6..] == extra;
    assert info[2..4] == month;
    assert [info[4]] + [info[5]] == year;
    assert [info[0]] + [info[1]] == day;
    assert year + month + [info[0]] + [info[1]] == year + month + day;
  }

  lemma {:induction false} LessWithSameFront(front: string, a: string, b: string)
    ensures Less(front + a, front + b) <==> Less(a, b)
  {
    if front == "" {
      assert front + a == a && front + b == b;
    } else {
      LessWithSameFront(front[1..], a, b);
      assert (front + a)[1..] == front[1..] + a && (front + b)[1..] == front[1..] + b;
    }
  }

  lemma {:induction false} LessByFront(a: string, b: string, x: string, y: string)
    requires |a| == |b| && a != b
    ensures Less(a + x, b + y) <==> Less(a, b)
  {
    if a[0] == b[0] {
      assert a == [a[0]] + a[1..] && b == [b[0]] + b[1..];
      LessByFront(a[1..], b[1..], x, y);
      assert (a + x)[1..] == a[1..] + x && (b + y)[1..] == b[1..] + y;
    }
  }

  lemma ValueConcat(a: string, b: string)
    requires AllDigits(a) && TwoDigits(b)
    ensures AllDigits(a + b) && Value(a + b) == 100 * Value(a) + Value(b)
  {
    var mid := a + [b[0]];
    assert mid[..|a|] == a && (a + b)[..|a| + 1] == mid;
    assert Value(mid) == 10 * Value(a) + (b[0] as int - '0' as int);
    assert Value(a + b) == 10 * Value(mid) + (b[1] as int - '0' as int);
    assert b[..1][..0] == "" && Value(b[..1]) == b[0] as int - '0' as int;
  }

  /**
    The order of timestamps is the order of dates, and of the extra numbers as
    strings within one day.
   */
  lemma TimestampOrderIsDateOrder(p1: string, d1: string, m1: string, y1: string, n1: string,
                                  p2: string, d2: string, m2: string, y2: string, n2: string)
    requires TwoDigits(d1) && TwoDigits(m1) && TwoDigits(y1) && AllDigits(n1)
    requires TwoDigits(d2) && TwoDigits(m2) && TwoDigits(y2) && AllDigits(n2)
    ensures var a, b := DateNumber(d1, m1, y1), DateNumber(d2, m2, y2);
      Less(Timestamp(NameOf(p1, d1, m1, y1, n1)), Timestamp(NameOf(p2, d2, m2, y2, n2)))
      <==> a < b || (a == b && Less(n1, n2))
  {
    TimestampOfName(p1, d1, m1, y1, n1);
    TimestampOfName(p2, d2, m2, y2, n2);
    var t1, t2 := y1 + m1 + d1, y2 + m2 + d2;
    ValueConcat(y1, m1);
    ValueConcat(y1 + m1, d1);
    ValueConcat(y2, m2);
    ValueConcat(y2 + m2, d2);
    SameLengthOrder(t1, t2);
    if t1 == t2 {
      LessWithSameFront(t1, n1, n2);
    } else {
      LessByFront(t1, t2, n1, n2);
    }
  }

  /** An extra number; an absent one comes before all others. */
  function Extra(s: string): (n: int)
    requires AllDigits(s)
  {
    if s == "" then -1 else Value(s)
  }

  /**
    How extra numbers, zeros in front or none at all included, compare as strings:
    at equal length like numbers; against a longer one, a shorter one is less
    exactly when it is not greater than the front of the longer.
   */
  lemma ExtraOrder(a: string, b: string)
    requires AllDigits(a) && AllDigits(b) && |a| <= |b|
    ensures |a| == |b| ==> (Less(a, b) <==> Extra(a) < Extra(b)) && (Less(b, a) <==> Extra(b) < Extra(a))
    ensures |a| < |b| ==> (Less(a, b) <==> Value(a) <= Value(b[..|a|])) && (Less(b, a) <==> Value(b[..|a|]) < Value(a))
  {
    if |a| == |b| {
      SameLengthOrder(a, b);
      SameLengthOrder(b, a);
    } else {
      LessThanLonger(a, b);
      SameLengthOrder(b[..|a|], a);
      LessTotal(a, b);
      if Less(a, b) && Less(b, a) { LessAsymmetric(a, b); }
    }
  }

  /**
    String order agrees with the order of two extra numbers when they have the
    same number of digits. Against a longer one, the shorter is taken for less
    exactly when it is not greater than the front of the longer, and must then be
    less; otherwise it must not be.
   */
  lemma ExtraNumberOrderIff(a: string, b: string)
    requires AllDigits(a) && AllDigits(b) && |a| <= |b|
    ensures |a| == |b| ==> (Less(a, b) <==> Extra(a) < Extra(b))
    ensures |a| < |b| && b[0] != '0' ==> ((Less(a, b) <==> Extra(a) < Extra(b)) <==> Value(a) <= Value(b[..|a|]))
    ensures |a| < |b| ==>
      ((Less(a, b) <==> Extra(a) < Extra(b))
      <==> a == "" || (if Value(a) <= Value(b[..|a|]) then Value(b) > 0 else Value(b) <= Value(a)))
  {
    ExtraOrder(a, b);
    if |a| < |b| {
      FrontIsNotGreater(b, |a|);
      if b[0] != '0' { LongerIsGreater(a, b); }
    }
  }

  /** A number is at least its leading digits, and more unless it is zero. */
  lemma {:induction false} FrontIsNotGreater(b: string, n: nat)
    requires AllDigits(b) && n <= |b|
    ensures Value(b[..n]) <= Value(b) && (n < |b| && Value(b) > 0 ==> Value(b[..n]) < Value(b))
  {
    if n < |b| {
      var front := b[..|b| - 1];
      FrontIsNotGreater(front, n);
      assert front[..n] == b[..n];
    } else {
      assert b[..n] == b;
    }
  }

  // ---------------------------------------------------------------- the lists

  function StampOf(d: Dict): (s: string)
  {
    d.timestamp
  }

  predicate UniqueNames(ds: seq<Dict>) {
    forall i, j :: 0 <= i < j < |ds| ==> ds[i].name != ds[j].name
  }

  /** Timestamps come from the names. */
  predicate Stamped(ds: seq<Dict>) {
    forall d :: d in ds ==> d.timestamp == Timestamp(d.name)
  }

  /** A list as the registry keeps it. */
  predicate GoodList(ds: seq<Dict>) {
    ds != [] && SortedBy(ds, StampOf) && UniqueNames(ds) && Stamped(ds)
  }

  lemma MadeIsStamped(location: Location, path: string)
    ensures MakeDict(location, path).timestamp == Timestamp(MakeDict(location, path).name)
  {}

  /** `find_if` by name. */
  function FindDict(ds: seq<Dict>, name: string): (r: Option<Dict>)
    ensures r.Some? ==> r.value in ds && r.value.name == name
    ensures r.None? <==> forall d :: d in ds ==> d.name != name
  {
    if ds == [] then None else if ds[0].name == name then Some(ds[0]) else FindDict(ds[1..], name)
  }

  /** In a list with unique names a dictionary is found by its name. */
  lemma FoundByName(ds: seq<Dict>, d: Dict)
    requires UniqueNames(ds) && d in ds
    ensures FindDict(ds, d.name) == Some(d)
  {
    var r := FindDict(ds, d.name);
    assert r.Some?;
  }

  // ---------------------------------------------------------------- the registry

  class Registry {
    var requests: seq<Dict>
    var responses: seq<Dict>

    ghost predicate Valid()
      reads this
    {
      GoodList(requests) && GoodList(responses)
    }

    /** The constructor runs `init_dicts`. */
    constructor (request: string, response: string, paths: seq<string>)
      ensures Valid() && MakeDict(Internal, request) in requests && MakeDict(Internal, response) in responses
    {
      requests, responses := [MakeDict(Internal, request)], [MakeDict(Internal, response)];
      new;
      InitDicts(request, response, paths);
    }

    /**
      `init_dicts`: the internal dictionary of each kind, then the `.zdict` files
      of the directory, as far as it could be read, whose names are new; sorted.
     */
    method InitDicts(request: string, response: string, paths: seq<string>)
      modifies this
      ensures Valid()
      ensures Collected(requests, MakeDict(Internal, request), paths, |paths|, Request)
      ensures Collected(responses, MakeDict(Internal, response), paths, |paths|, Response)
    {
      MadeIsStamped(Internal, request);
      MadeIsStamped(Internal, response);
      CollectDicts(MakeDict(Internal, request), MakeDict(Internal, response), paths);
    }

    /** The loop over the files, and the sort. */
    method CollectDicts(request: Dict, response: Dict, paths: seq<string>)
      requires Stamped([request]) && Stamped([response])
      modifies this
      ensures Valid() && Collected(requests, request, paths, |paths|, Request) &&
        Collected(responses, response, paths, |paths|, Response)
    {
      var reqs, resps := [request], [response];
      CollectedNone(request, paths, Request);
      CollectedNone(response, paths, Response);
      for i := 0 to |paths|
        invariant Collected(reqs, request, paths, i, Request) && Collected(resps, response, paths, i, Response)
      {
        CollectedOne(reqs, request, paths, i, Request);
        CollectedOne(resps, response, paths, i, Response);
        var dict := MakeDict(External, paths[i]);
        reqs := Collect(reqs, dict, Request);
        resps := Collect(resps, dict, Response);
      }
      requests := StdSort(reqs, StampOf);
      responses := StdSort(resps, StampOf);
      Settled(reqs, requests);
      Settled(resps, responses);
    }

    /** `get_dict_info`: the prefix in the name decides which list is searched. */
    function GetDictInfo(name: string): (r: Option<Dict>)
      reads this
      ensures r.Some? ==> r.value.name == name && r.value in (if KindOf(name) == Request then requests else responses)
      ensures r.None? <==>
        KindOf(name) == Neither || Unnamed(if KindOf(name) == Request then requests else responses, name)
    {
      match KindOf(name)
      case Request => FindDict(requests, name)
      case Response => FindDict(responses, name)
      case Neither => None
    }

    /**
      `add_dict` of a `dict_info` with this path: a new name is added to its list
      and can be found from then on; a name that is there, or that is of neither
      kind, changes nothing.
     */
    method AddDict(location: Location, path: string) returns (ok: bool)
      requires Valid()
      modifies this
      ensures Valid()
      ensures var d := MakeDict(location, path);
        && (ok <==> old(GetDictInfo(d.name)) == None && KindOf(d.name) != Neither)
        && (ok ==> GetDictInfo(d.name) == Some(d))
        && (ok && KindOf(d.name) == Request ==>
              responses == old(responses) && multiset(requests) == multiset(old(requests)) + multiset{d})
        && (ok && KindOf(d.name) == Response ==>
              requests == old(requests) && multiset(responses) == multiset(old(responses)) + multiset{d})
      ensures !ok ==> requests == old(requests) && responses == old(responses)
    {
      var d := MakeDict(location, path);
      MadeIsStamped(location, path);
      ok := false;
      if KindOf(d.name) == Request {
        ok, requests := AddDictCommon(requests, d);
      } else if KindOf(d.name) == Response {
        ok, responses := AddDictCommon(responses, d);
      }
    }

    /** `add_dict_common`: a copy of the list with the dictionary added and sorted, unless the name is there. */
    static method AddDictCommon(ds: seq<Dict>, d: Dict) returns (ok: bool, r: seq<Dict>)
      requires GoodList(ds) && d.timestamp == Timestamp(d.name)
      ensures GoodList(r) && (ok <==> FindDict(ds, d.name) == None)
      ensures if ok then multiset(r) == multiset(ds) + multiset{d} && FindDict(r, d.name) == Some(d) else r == ds
    {
      if FindDict(ds, d.name).Some? {
        return false, ds;
      }
      AddedIfNew(ds, d);
      r := StdSort(ds + [d], StampOf);
      Settled(ds + [d], r);
      FoundByName(r, d);
      ok := true;
    }

    /** `get_last_request_dict`: the name of a dictionary with the latest date. */
    method GetLastRequestDict() returns (name: string)
      requires Valid()
      ensures Newest(requests, name)
    {
      name := LastName(requests);
    }

    /** `get_last_response_dict`. */
    method GetLastResponseDict() returns (name: string)
      requires Valid()
      ensures Newest(responses, name)
    {
      name := LastName(responses);
    }
  }

  method LastName(ds: seq<Dict>) returns (name: string)
    requires GoodList(ds)
    ensures Newest(ds, name)
  {
    name := ds[|ds| - 1].name;
    LastIsNewest(ds);
  }

  /** The name of a dictionary of the list than which none has a later timestamp. */
  predicate Newest(ds: seq<Dict>, name: string) {
    (exists d :: d in ds && d.name == name) && forall d :: d in ds ==> !Less(Timestamp(name), Timestamp(d.name))
  }

  lemma LastIsNewest(ds: seq<Dict>)
    requires GoodList(ds)
    ensures Newest(ds, ds[|ds| - 1].name)
  {
    var last := ds[|ds| - 1];
    assert last in ds;
    forall d | d in ds ensures !Less(Timestamp(last.name), Timestamp(d.name)) {
      var i :| 0 <= i < |ds| && ds[i] == d;
      LessIrreflexive(last.timestamp);
    }
  }

  /** The parts of a name `<prefix>-DDMMYYN.zdict`. */
  datatype Parts = Parts(prefix: string, day: string, month: string, year: string, extra: string)

  predicate WellFormed(p: Parts) {
    TwoDigits(p.day) && TwoDigits(p.month) && TwoDigits(p.year) && AllDigits(p.extra)
  }

  function FullName(p: Parts): (s: string)
  {
    NameOf(p.prefix, p.day, p.month, p.year, p.extra)
  }

  function Date(p: Parts): (n: nat)
    requires WellFormed(p)
  {
    DateNumber(p.day, p.month, p.year)
  }

  /**
    The newest of the list has the greatest date of all well-formed names in it;
    of that day it has the greatest extra number among those with as many digits,
    and against another length it is what the comparison of strings makes of it.
   */
  lemma NewestHasLatestDate(ds: seq<Dict>, newest: Parts, other: Parts, d: Dict)
    requires WellFormed(newest) && WellFormed(other) && Newest(ds, FullName(newest)) && d in ds &&
      d.name == FullName(other)
    ensures Date(other) <= Date(newest)
    ensures Date(other) == Date(newest) ==> !Less(newest.extra, other.extra)
    ensures Date(other) == Date(newest) && |other.extra| == |newest.extra| ==> Extra(other.extra) <= Extra(newest.extra)
    ensures Date(other) == Date(newest) && |other.extra| < |newest.extra| ==>
      Value(other.extra) <= Value(newest.extra[..|other.extra|])
    ensures Date(other) == Date(newest) && |newest.extra| < |other.extra| ==>
      Value(other.extra[..|newest.extra|]) < Value(newest.extra)
  {
    TimestampOrderIsDateOrder(newest.prefix, newest.day, newest.month, newest.year, newest.extra,
                              other.prefix, other.day, other.month, other.year, other.extra);
    if |other.extra| <= |newest.extra| {
      ExtraOrder(other.extra, newest.extra);
      LessTotal(other.extra, newest.extra);
    } else {
      ExtraOrder(newest.extra, other.extra);
    }
  }

  /** No zeros in front of the extra number, if there is one. */
  predicate Plain(p: Parts) {
    WellFormed(p) && (p.extra == "" || Canonical(p.extra))
  }

  type PlainName = p: Parts | Plain(p) witness Parts("", "01", "01", "20", "")

  /** By date, then by extra number: `p` is at least as new as `q`. */
  predicate AtLeast(p: PlainName, q: PlainName) {
    Date(q) < Date(p) || (Date(q) == Date(p) && Extra(q.extra) <= Extra(p.extra))
  }

  /** `q` is of the same day as `p`, with fewer digits, and above the leading digits of `p`. */
  predicate Hides(q: PlainName, p: PlainName) {
    Date(q) == Date(p) && |q.extra| < |p.extra| && Value(p.extra[..|q.extra|]) < Value(q.extra)
  }

  /** Of two names the newer has the lesser timestamp if and only if the other hides it. */
  lemma HiddenIff(p: PlainName, q: PlainName)
    requires AtLeast(p, q)
    ensures Less(Timestamp(FullName(p)), Timestamp(FullName(q))) <==> Hides(q, p)
  {
    TimestampOrderIsDateOrder(p.prefix, p.day, p.month, p.year, p.extra, q.prefix, q.day, q.month, q.year, q.extra);
    if |q.extra| <= |p.extra| {
      ExtraOrder(q.extra, p.extra);
    } else {
      ExtraOrder(p.extra, q.extra);
      if p.extra != "" { LongerIsGreater(p.extra, q.extra); }
    }
  }

  /** The names of a list are these. */
  predicate Describe(ps: seq<PlainName>, ds: seq<Dict>) {
    |ps| == |ds| && forall i :: 0 <= i < |ds| ==> ds[i].name == FullName(ps[i])
  }

  predicate Greatest(ps: seq<PlainName>, k: nat)
    requires k < |ps|
  {
    forall i :: 0 <= i < |ps| ==> AtLeast(ps[k], ps[i])
  }

  /** The greatest name of a list counts as the newest if and only if no other hides it. */
  lemma GreatestIsNewestIff(ds: seq<Dict>, ps: seq<PlainName>, k: nat)
    requires Describe(ps, ds) && k < |ds| && Greatest(ps, k)
    ensures Newest(ds, FullName(ps[k])) <==> forall i :: 0 <= i < |ps| ==> !Hides(ps[i], ps[k])
  {
    forall i | 0 <= i < |ps|
      ensures Less(Timestamp(FullName(ps[k])), Timestamp(ds[i].name)) <==> Hides(ps[i], ps[k])
    {
      HiddenIff(ps[k], ps[i]);
    }
    assert ds[k] in ds;
    assert forall i :: 0 <= i < |ds| ==> ds[i] in ds;
  }

  /**
    The dictionary returned as the last is a greatest of its list, by date and
    extra number, if and only if no name of the same day hides a greatest one.
   */
  lemma ReturnedIsGreatestIff(ds: seq<Dict>, ps: seq<PlainName>, k: nat, r: nat)
    requires Describe(ps, ds) && k < |ds| && r < |ds| && Greatest(ps, k) && Newest(ds, FullName(ps[r]))
    ensures Greatest(ps, r) <==> forall i :: 0 <= i < |ps| ==> !Hides(ps[i], ps[k])
  {
    GreatestIsNewestIff(ds, ps, k);
    assert ds[k] in ds && ds[r] in ds;
    if Newest(ds, FullName(ps[k])) {
      SameTimestamp(ps[k], ps[r]);
      assert forall i :: 0 <= i < |ps| ==> AtLeast(ps[k], ps[i]);
    }
    if Greatest(ps, r) {
      assert AtLeast(ps[r], ps[k]) && AtLeast(ps[k], ps[r]);
      SameNumber(ps[k], ps[r]);
    }
  }

  /** Neither timestamp is less: same date, same extra number. */
  lemma SameTimestamp(p: PlainName, q: PlainName)
    requires !Less(Timestamp(FullName(p)), Timestamp(FullName(q))) &&
      !Less(Timestamp(FullName(q)), Timestamp(FullName(p)))
    ensures Date(p) == Date(q) && p.extra == q.extra
  {
    TimestampOrderIsDateOrder(p.prefix, p.day, p.month, p.year, p.extra, q.prefix, q.day, q.month, q.year, q.extra);
    TimestampOrderIsDateOrder(q.prefix, q.day, q.month, q.year, q.extra, p.prefix, p.day, p.month, p.year, p.extra);
    LessTotal(p.extra, q.extra);
  }

  /** Same date and same extra number: same timestamp, as far as the order goes. */
  lemma SameNumber(p: PlainName, q: PlainName)
    requires Date(p) == Date(q) && Extra(p.extra) == Extra(q.extra)
    ensures Timestamp(FullName(p)) == Timestamp(FullName(q))
  {
    CanonicalIsUnique(p.extra, q.extra);
    TimestampOrderIsDateOrder(p.prefix, p.day, p.month, p.year, p.extra, q.prefix, q.day, q.month, q.year, q.extra);
    TimestampOrderIsDateOrder(q.prefix, q.day, q.month, q.year, q.extra, p.prefix, p.day, p.month, p.year, p.extra);
    LessIrreflexive(p.extra);
    LessTotal(Timestamp(FullName(p)), Timestamp(FullName(q)));
  }

  lemma CanonicalIsUnique(a: string, b: string)
    requires (a == "" || Canonical(a)) && (b == "" || Canonical(b)) && Extra(a) == Extra(b)
    ensures a == b
  {
    if a != "" && b != "" {
      if |a| == |b| {
        SameLengthOrder(a, b);
      } else if |a| < |b| {
        LongerIsGreater(a, b);
      } else {
        LongerIsGreater(b, a);
      }
    }
  }

  /** Of the ninth and the tenth dictionary of the latest day, the ninth is taken for the newest. */
  lemma TenSortsBeforeNine(ds: seq<Dict>, p: Parts, newest: string)
    requires WellFormed(p) && Newest(ds, newest) && newest in [FullName(p.(extra := "9")), FullName(p.(extra := "10"))]
    requires exists d :: d in ds && d.name == FullName(p.(extra := "9"))
    ensures newest == FullName(p.(extra := "9"))
  {
    var nine, ten := p.(extra := "9"), p.(extra := "10");
    var d :| d in ds && d.name == FullName(nine);
    assert Less("10", "9");
    if newest == FullName(ten) {
      NewestHasLatestDate(ds, ten, nine, d);
    }
  }

  ghost function Names(ds: seq<Dict>): set<string> {
    if ds == [] then {} else Names(ds[..|ds| - 1]) + {ds[|ds| - 1].name}
  }

  predicate Unnamed(ds: seq<Dict>, name: string) {
    forall d :: d in ds ==> d.name != name
  }

  /** Every dictionary is the built-in one or was made from a file. */
  ghost predicate AllFrom(ds: seq<Dict>, builtIn: Dict, paths: seq<string>) {
    forall d :: d in ds ==> d == builtIn || (d.path in paths && d == MakeDict(External, d.path))
  }

  /** The names among the first `n` files that belong to one list. */
  ghost function FileNames(paths: seq<string>, n: nat, kind: Kind): set<string>
    requires n <= |paths|
  {
    if n == 0 then {}
    else
      var name := MakeDict(External, paths[n - 1]).name;
      FileNames(paths, n - 1, kind) + (if KindOf(name) == kind then {name} else {})
  }

  /** The list of one kind once `n` files were looked at. */
  ghost predicate Collected(ds: seq<Dict>, builtIn: Dict, paths: seq<string>, n: nat, kind: Kind)
    requires n <= |paths|
  {
    && UniqueNames(ds) && Stamped(ds) && builtIn in ds && AllFrom(ds, builtIn, paths)
    && Names(ds) == {builtIn.name} + FileNames(paths, n, kind)
  }

  lemma CollectedNone(builtIn: Dict, paths: seq<string>, kind: Kind)
    requires Stamped([builtIn])
    ensures Collected([builtIn], builtIn, paths, 0, kind)
  {
    assert [builtIn][..0] == [];
  }

  /** A file's dictionary enters the list of its own kind. */
  function Collect(ds: seq<Dict>, dict: Dict, kind: Kind): (r: seq<Dict>)
  {
    if KindOf(dict.name) == kind then AddIfNew(ds, dict) else ds
  }

  lemma CollectedOne(ds: seq<Dict>, builtIn: Dict, paths: seq<string>, n: nat, kind: Kind)
    requires n < |paths| && Collected(ds, builtIn, paths, n, kind)
    ensures Collected(Collect(ds, MakeDict(External, paths[n]), kind), builtIn, paths, n + 1, kind)
  {
    var dict := MakeDict(External, paths[n]);
    AddedIsStamped(ds, External, paths[n]);
    assert dict.path == paths[n];
    AddedIfNew(ds, dict);
    if KindOf(dict.name) == kind {
      GrownNames({builtIn.name}, FileNames(paths, n, kind), {dict.name});
    } else {
      assert FileNames(paths, n + 1, kind) == FileNames(paths, n, kind);
    }
  }

  lemma GrownNames(a: set<string>, b: set<string>, c: set<string>)
    ensures (a + b) + c == a + (b + c)
  {}

  lemma AddedIsStamped(ds: seq<Dict>, location: Location, path: string)
    requires Stamped(ds)
    ensures Stamped(AddIfNew(ds, MakeDict(location, path)))
  {
    MadeIsStamped(location, path);
  }

  lemma {:induction false} NamesAre(ds: seq<Dict>)
    ensures forall n :: n in Names(ds) <==> exists d :: d in ds && d.name == n
  {
    if ds != [] {
      NamesAre(ds[..|ds| - 1]);
      assert forall d :: d in ds <==> d in ds[..|ds| - 1] || d == ds[|ds| - 1];
    }
  }

  function AddIfNew(ds: seq<Dict>, d: Dict): (r: seq<Dict>)
  {
    if FindDict(ds, d.name).None? then ds + [d] else ds
  }

  lemma AddedIfNew(ds: seq<Dict>, d: Dict)
    requires UniqueNames(ds)
    ensures UniqueNames(AddIfNew(ds, d)) && Names(AddIfNew(ds, d)) == Names(ds) + {d.name}
    ensures forall x :: x in ds ==> x in AddIfNew(ds, d)
  {
    NamesAre(ds);
    if FindDict(ds, d.name).None? {
      var more := ds + [d];
      assert more[..|ds|] == ds;
      forall i, j | 0 <= i < j < |more| ensures more[i].name != more[j].name {
        assert more[i] in ds;
      }
    } else {
      assert d.name in Names(ds);
    }
  }

  lemma Settled(ds: seq<Dict>, r: seq<Dict>)
    requires IsSortOf(r, ds, StampOf) && UniqueNames(ds) && Stamped(ds) && ds != []
    ensures GoodList(r) && (forall d :: d in r <==> d in ds) && Names(r) == Names(ds)
  {
    UniqueKeysPermute(ds, r, (d: Dict) => d.name);
    SameElements(ds, r);
    assert ds[0] in r;
    NamesAre(ds);
    NamesAre(r);
  }
}
