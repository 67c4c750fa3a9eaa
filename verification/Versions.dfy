/**
  Version orders: patch versions of messages (common.shared/patch_version.h) and
  program versions (common.shared/version_info.h).
 */
module Versions {
  import opened Sequences
  import opened Text
  import opened Decimal
  import opened StringUtils

  // ---------------------------------------------------------------- patch_version

  /** `patch_version::less_than`: by length, then as strings. */
  predicate PatchLess(a: string, b: string) {
    if |a| == |b| then Less(a, b) else |a| < |b|
  }

  /** A strict total order that agrees with `==`: exactly one of less, equal, greater. */
  lemma PatchOrder(a: string, b: string, c: string)
    ensures !PatchLess(a, a)
    ensures PatchLess(a, b) && PatchLess(b, c) ==> PatchLess(a, c)
    ensures PatchLess(a, b) || a == b || PatchLess(b, a)
    ensures !(PatchLess(a, b) && PatchLess(b, a))
  {
    LessIrreflexive(a);
    LessTotal(a, b);
    if Less(a, b) && Less(b, c) { LessTransitive(a, b, c); }
    if Less(a, b) { LessAsymmetric(a, b); }
  }

  /** On decimal numerals without zeros in front it is the order of numbers. */
  lemma PatchLessIsNumeric(a: string, b: string)
    requires Canonical(a) && Canonical(b)
    ensures PatchLess(a, b) <==> Value(a) < Value(b)
    ensures a == b <==> Value(a) == Value(b)
  {
    if |a| == |b| {
      SameLengthOrder(a, b);
    } else if |a| < |b| {
      LongerIsGreater(a, b);
    } else {
      LongerIsGreater(b, a);
    }
  }

  // ---------------------------------------------------------------- version_info

  datatype Version = Version(major: int, minor: int, build: int)

  predicate IsInt32(n: int) {
    -0x8000_0000 <= n < 0x8000_0000
  }

  /** `std::to_string`. */
  function IntString(n: int): (s: string)
  {
    if n < 0 then "-" + Numeral(-n) else Numeral(n)
  }

  /** `get_version`. */
  function GetVersion(v: Version): (s: string)
  {
    IntString(v.major) + "." + IntString(v.minor) + "." + IntString(v.build)
  }

  /** The leading digits of a string. */
  function LeadingDigits(s: string): (r: string)
    ensures AllDigits(r)
  {
    if s != "" && IsDigit(s[0]) then [s[0]] + LeadingDigits(s[1..]) else ""
  }

  /** The white space of the C locale, which `std::stoi` skips. */
  function SkipSpace(s: string): (r: string)
  {
    if s != "" && (s[0] == ' ' || '\t' <= s[0] <= '\r') then SkipSpace(s[1..]) else s
  }

  /** `std::stoi`: an optional sign and digits; none when it throws. */
  function Stoi(s: string): (r: Option<int>)
  {
    var t := SkipSpace(s);
    var negative := t != "" && t[0] == '-';
    var digits := LeadingDigits(if t != "" && (t[0] == '-' || t[0] == '+') then t[1..] else t);
    if digits == "" then None
    else
      var n: int := if negative then 0 - Value(digits) else Value(digits);
      if IsInt32(n) then Some(n) else None
  }

  /**
    `load_version`: the first three words between dots. None when a conversion
    throws, or when there are fewer words, which the code reads past.
   */
  function LoadVersion(s: string): (r: Option<Version>)
  {
    var words := Split(s, '.');
    if |words| < 3 then None
    else match (Stoi(words[0]), Stoi(words[1]), Stoi(words[2]))
      case (Some(a), Some(b), Some(c)) => Some(Version(a, b, c))
      case _ => None
  }

  /** `operator<`. */
  predicate VersionLess(a: Version, b: Version) {
    if a.major != b.major then a.major < b.major
    else if a.minor != b.minor then a.minor < b.minor
    else a.build < b.build
  }

  /** The versions as one number each: `operator<` is the order of these numbers. */
  ghost function Rank(v: Version): int {
    (v.major * 0x1_0000_0000 + v.minor) * 0x1_0000_0000 + v.build
  }

  lemma VersionLessIsNumeric(a: Version, b: Version)
    requires IsInt32(a.major) && IsInt32(a.minor) && IsInt32(a.build)
    requires IsInt32(b.major) && IsInt32(b.minor) && IsInt32(b.build)
    ensures a.major < b.major ==> VersionLess(a, b)
    ensures a.major == b.major && a.minor < b.minor ==> VersionLess(a, b)
    ensures VersionLess(a, b) <==> Rank(a) < Rank(b)
    ensures a == b <==> Rank(a) == Rank(b)
  {}

  lemma {:induction false} LeadingDigitsOfAll(s: string)
    requires AllDigits(s)
    ensures LeadingDigits(s) == s
  {
    if s != "" {
      LeadingDigitsOfAll(s[1..]);
      assert s == [s[0]] + s[1..];
    }
  }

  lemma StoiOfIntString(n: int)
    requires IsInt32(n)
    ensures Stoi(IntString(n)) == Some(n) && '.' !in IntString(n) && IntString(n) != ""
  {
    var m: nat := if n < 0 then -n else n;
    NumeralValue(m);
    var digits := Numeral(m);
    LeadingDigitsOfAll(digits);
    NoDots(digits);
    assert n < 0 ==> IntString(n)[1..] == digits;
    assert IsDigit(digits[0]);
  }

  lemma NoDots(s: string)
    requires AllDigits(s)
    ensures '.' !in s
  {}

  /** Loading undoes printing, for every three 32-bit numbers. */
  lemma LoadOfGetVersion(v: Version)
    requires IsInt32(v.major) && IsInt32(v.minor) && IsInt32(v.build)
    ensures LoadVersion(GetVersion(v)) == Some(v)
  {
    var words := [IntString(v.major), IntString(v.minor), IntString(v.build)];
    StoiOfIntString(v.major);
    StoiOfIntString(v.minor);
    StoiOfIntString(v.build);
    assert words[1..][1..] == [words[2]];
    assert Joined(words[1..], ".") == words[1] + "." + words[2];
    assert Joined(words, ".") == words[0] + "." + (words[1] + "." + words[2]) == GetVersion(v);
    SplitOfJoin(words, '.');
  }

  lemma {:induction false} SkipsBlanks(blanks: string, s: string)
    requires forall c :: c in blanks ==> c in " \t\n\U{B}\U{C}\r"
    requires s == "" || s[0] !in " \t\n\U{B}\U{C}\r"
    ensures SkipSpace(blanks + s) == s
  {
    if blanks == "" {
      assert blanks + s == s;
    } else {
      assert blanks[0] in blanks && (blanks + s)[1..] == blanks[1..] + s;
      SkipsBlanks(blanks[1..], s);
    }
  }

  lemma {:induction false} LeadingDigitsAre(digits: string, rest: string)
    requires AllDigits(digits) && (rest == "" || !IsDigit(rest[0]))
    ensures LeadingDigits(digits + rest) == digits
  {
    if digits == "" {
      assert digits + rest == rest;
    } else {
      LeadingDigitsAre(digits[1..], rest);
      assert (digits + rest)[1..] == digits[1..] + rest && digits == [digits[0]] + digits[1..];
    }
  }

  /** What `std::stoi` reads: blanks, a sign and digits, whatever follows; it throws outside 32 bits. */
  lemma StoiReads(blanks: string, sign: string, digits: string, rest: string)
    requires forall c :: c in blanks ==> c in " \t\n\U{B}\U{C}\r"
    requires sign in ["", "+", "-"] && digits != "" && AllDigits(digits) && (rest == "" || !IsDigit(rest[0]))
    ensures var n: int := if sign == "-" then 0 - Value(digits) else Value(digits);
      Stoi(blanks + (sign + (digits + rest))) == if -0x8000_0000 <= n <= 0x7fff_ffff then Some(n) else None
  {
    var t := sign + (digits + rest);
    SignThenDigits(sign, digits, rest);
    SkipsBlanks(blanks, t);
    LeadingDigitsAre(digits, rest);
    StoiOfParts(blanks + t, t, sign == "-", digits);
  }

  /** Once the blanks, the sign and the digits are known. */
  lemma StoiOfParts(s: string, t: string, negative: bool, digits: string)
    requires SkipSpace(s) == t != "" && (t[0] == '-' <==> negative) && digits != "" && AllDigits(digits)
    requires LeadingDigits(if t[0] == '-' || t[0] == '+' then t[1..] else t) == digits
    ensures var n: int := if negative then 0 - Value(digits) else Value(digits);
      Stoi(s) == if -0x8000_0000 <= n <= 0x7fff_ffff then Some(n) else None
  {}

  /** The sign is told from the digits by its first character. */
  lemma SignThenDigits(sign: string, digits: string, rest: string)
    requires sign in ["", "+", "-"] && digits != "" && AllDigits(digits)
    ensures var t := sign + (digits + rest);
      && t != "" && t[0] !in " \t\n\U{B}\U{C}\r" && (t[0] == '-' <==> sign == "-")
      && (if t[0] == '-' || t[0] == '+' then t[1..] else t) == digits + rest
  {
    var number := digits + rest;
    var t := sign + number;
    assert number[0] == digits[0] && IsDigit(digits[0]);
    if sign == "" {
      assert t == number;
    } else {
      assert t[0] == sign[0] && t[1..] == number;
    }
  }

  /** Text behind the third word changes nothing. */
  lemma LoadIgnoresTheRest(v: Version, more: string)
    requires IsInt32(v.major) && IsInt32(v.minor) && IsInt32(v.build)
    ensures LoadVersion(GetVersion(v) + "." + more) == Some(v)
  {
    var a, b, c := IntString(v.major), IntString(v.minor), IntString(v.build);
    StoiOfIntString(v.major);
    StoiOfIntString(v.minor);
    StoiOfIntString(v.build);
    var tail2 := c + "." + more;
    var tail1 := b + "." + tail2;
    assert GetVersion(v) + "." + more == a + "." + tail1;
    SplitWord(a, '.', tail1);
    SplitWord(b, '.', tail2);
    SplitWord(c, '.', more);
  }
}
