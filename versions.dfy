/**
 * A self-contained dotted-numeric version value: the stand-in for the
 * version library the extractor uses to parse, order and print versions.
 * A version is a non-empty sequence of naturals; parsing splits on '.',
 * ordering compares segment by segment with missing trailing segments
 * read as 0, and `Canon` prints the segments back in decimal.
 */
module Versions {
  import opened Wrappers

  // ---------------------------------------------------------------------
  // Decimal numerals
  // ---------------------------------------------------------------------

  predicate IsDigit(c: char) { '0' <= c <= '9' }

  /** A non-empty run of decimal digits. */
  predicate IsNumeral(s: string) {
    |s| > 0 && forall i :: 0 <= i < |s| ==> IsDigit(s[i])
  }

  function DigitValue(c: char): nat
    requires IsDigit(c)
  {
    c as int - '0' as int
  }

  function DigitChar(d: nat): (c: char)
    requires d < 10
    ensures IsDigit(c) && DigitValue(c) == d
  {
    ('0' as int + d) as char
  }

  /** The value of a string of digits, most significant digit first. */
  function NumeralValue(s: string): nat
    requires forall i :: 0 <= i < |s| ==> IsDigit(s[i])
  {
    if s == [] then 0 else 10 * NumeralValue(s[..|s| - 1]) + DigitValue(s[|s| - 1])
  }

  /** The decimal rendering of n, without leading zeros; reading it back gives n. */
  function Decimal(n: nat): (r: string)
    ensures IsNumeral(r) && NumeralValue(r) == n
    ensures '.' !in r
    ensures r[0] != '0' || n == 0
  {
    if n < 10 then [DigitChar(n)]
    else
      var r := Decimal(n / 10) + [DigitChar(n % 10)];
      assert r[..|r| - 1] == Decimal(n / 10);
      r
  }

  // ---------------------------------------------------------------------
  // Splitting on and joining with '.'
  // ---------------------------------------------------------------------

  /** The position of the first '.' in s. */
  function FirstDot(s: string): (i: nat)
    requires '.' in s
    ensures i < |s| && s[i] == '.' && '.' !in s[..i]
    ensures forall j :: 0 <= j < i ==> s[j] != '.'
  {
    if s[0] == '.' then 0
    else
      assert '.' in s[1..] by { var j :| 0 <= j < |s| && s[j] == '.'; assert s[1..][j - 1] == '.'; }
      var i := 1 + FirstDot(s[1..]);
      assert s[..i] == [s[0]] + s[1..][..i - 1];
      i
  }

  /** The segments joined with '.' between each pair. */
  function Join(parts: seq<string>): string
    requires |parts| >= 1
  {
    if |parts| == 1 then parts[0] else parts[0] + "." + Join(parts[1..])
  }

  /** The dot-separated parts of s; joining them with '.' gives s back. */
  function Split(s: string): (parts: seq<string>)
    ensures |parts| >= 1
    ensures forall i :: 0 <= i < |parts| ==> '.' !in parts[i]
    ensures Join(parts) == s
    decreases |s|
  {
    if '.' in s then
      var i := FirstDot(s);
      var parts := [s[..i]] + Split(s[i + 1..]);
      assert parts[1..] == Split(s[i + 1..]);
      assert s == s[..i] + "." + s[i + 1..];
      parts
    else [s]
  }

  /** Splitting text that starts with a dot-free part and a '.' peels that part off. */
  lemma SplitAfterPart(p: string, t: string)
    requires '.' !in p
    ensures Split(p + "." + t) == [p] + Split(t)
  {
    var s := p + "." + t;
    assert s[|p|] == '.';
    assert forall j :: 0 <= j < |p| ==> s[j] != '.' by {
      forall j | 0 <= j < |p| ensures s[j] != '.' { assert s[j] == p[j]; assert p[j] in p; }
    }
    assert FirstDot(s) == |p|;
    assert s[..|p|] == p && s[|p| + 1..] == t;
  }

  /** Splitting a join of dot-free parts gives the parts back. */
  lemma {:induction false} SplitJoin(parts: seq<string>)
    requires |parts| >= 1
    requires forall i :: 0 <= i < |parts| ==> '.' !in parts[i]
    ensures Split(Join(parts)) == parts
    decreases |parts|
  {
    if |parts| > 1 {
      SplitAfterPart(parts[0], Join(parts[1..]));
      SplitJoin(parts[1..]);
    }
  }

  // ---------------------------------------------------------------------
  // Versions and parsing
  // ---------------------------------------------------------------------

  type Segments = s: seq<nat> | |s| > 0 witness [0]

  /** A parsed dotted-numeric version such as 1.21.0. */
  datatype Version = Version(segments: Segments)

  /** Every part is a numeral. */
  predicate AllNumerals(parts: seq<string>) {
    forall i :: 0 <= i < |parts| ==> IsNumeral(parts[i])
  }

  /** The segment values of dot-separated parts, if every part is a numeral. */
  function ParseSegments(parts: seq<string>): (r: Option<seq<nat>>)
    ensures r.Some? <==> AllNumerals(parts)
    ensures r.Some? ==> |r.value| == |parts|
    ensures r.Some? ==> forall i :: 0 <= i < |parts| ==> r.value[i] == NumeralValue(parts[i])
  {
    if parts == [] then Some([])
    else if !IsNumeral(parts[0]) then None
    else match ParseSegments(parts[1..])
      case None => None
      case Some(rest) => Some([NumeralValue(parts[0])] + rest)
  }

  /**
   * Parses dotted-numeric text. It fails on the empty string, on an empty
   * segment (a leading, trailing or doubled '.') and on a segment that is
   * not all digits.
   */
  function Parse(s: string): (r: Option<Version>)
    ensures r.Some? ==> |r.value.segments| == |Split(s)|
  {
    match ParseSegments(Split(s))
    case None => None
    case Some(segs) => Some(Version(segs))
  }

  /** The text Parse accepts, stated character by character. */
  ghost predicate WellFormed(s: string) {
    && |s| > 0
    && s[0] != '.'
    && s[|s| - 1] != '.'
    && (forall i :: 0 <= i < |s| ==> IsDigit(s[i]) || s[i] == '.')
    && (forall i :: 0 <= i < |s| - 1 ==> s[i] == '.' ==> s[i + 1] != '.')
  }

  /** Dot-free text is well formed exactly when it is a numeral. */
  lemma WellFormedWithoutDot(s: string)
    requires '.' !in s
    ensures WellFormed(s) <==> IsNumeral(s)
  {
    if WellFormed(s) {
      forall j | 0 <= j < |s| ensures IsDigit(s[j]) { assert s[j] in s; }
    }
  }

  /** Text with a first '.' at i is well formed exactly when a numeral precedes it and well-formed text follows. */
  lemma WellFormedAtDot(s: string, i: nat)
    requires i < |s| && s[i] == '.' && '.' !in s[..i]
    ensures WellFormed(s) <==> IsNumeral(s[..i]) && WellFormed(s[i + 1..])
  {
    var head, tail := s[..i], s[i + 1..];
    if IsNumeral(head) && WellFormed(tail) {
      forall j | 0 <= j < |s| ensures IsDigit(s[j]) || s[j] == '.' {
        if j < i { assert s[j] == head[j]; }
        else if j > i { assert s[j] == tail[j - i - 1]; }
      }
      forall j | 0 <= j < i ensures s[j] != '.' { assert s[j] == head[j]; }
      forall j | 0 <= j < |s| - 1 && s[j] == '.' ensures s[j + 1] != '.' {
        if j == i { assert s[j + 1] == tail[0]; }
        else if j > i { assert s[j] == tail[j - i - 1] && s[j + 1] == tail[j - i]; }
      }
      assert s[0] == head[0];
      assert s[|s| - 1] == tail[|tail| - 1];
    }
    if WellFormed(s) {
      assert i > 0;
      assert s[i + 1] == tail[0];
      forall j | 0 <= j < |head| ensures IsDigit(head[j]) {
        assert head[j] == s[j];
        assert head[j] in head;
      }
      forall j | 0 <= j < |tail| ensures IsDigit(tail[j]) || tail[j] == '.' {
        assert tail[j] == s[j + i + 1];
      }
      forall j | 0 <= j < |tail| - 1 && tail[j] == '.' ensures tail[j + 1] != '.' {
        assert tail[j] == s[j + i + 1] && tail[j + 1] == s[j + i + 2];
      }
    }
  }

  /** Every dot-separated part is a numeral exactly when the text is well formed. */
  lemma {:induction false} AllPartsNumeral(s: string)
    ensures AllNumerals(Split(s)) <==> WellFormed(s)
    decreases |s|
  {
    if '.' in s {
      var i := FirstDot(s);
      var tail := s[i + 1..];
      var parts, rest := Split(s), Split(tail);
      assert parts == [s[..i]] + rest;
      AllPartsNumeral(tail);
      WellFormedAtDot(s, i);
      assert AllNumerals(parts) <==> IsNumeral(s[..i]) && AllNumerals(rest) by {
        assert forall j :: 0 <= j < |rest| ==> parts[j + 1] == rest[j];
      }
    } else {
      assert Split(s) == [s];
      WellFormedWithoutDot(s);
    }
  }

  /** Parse succeeds exactly on well-formed dotted-numeric text. */
  lemma ParseAcceptsExactly(s: string)
    ensures Parse(s).Some? <==> WellFormed(s)
  {
    AllPartsNumeral(s);
  }

  /**
   * The empty string, text with an empty segment (a leading, trailing or
   * doubled '.') and text with a character that is neither digit nor '.'
   * are rejected.
   */
  lemma ParseRejects(s: string)
    ensures s == "" ==> Parse(s) == None
    ensures |s| > 0 && (s[0] == '.' || s[|s| - 1] == '.') ==> Parse(s) == None
    ensures (exists i :: 0 <= i < |s| - 1 && s[i] == '.' && s[i + 1] == '.') ==> Parse(s) == None
    ensures (exists i :: 0 <= i < |s| && !IsDigit(s[i]) && s[i] != '.') ==> Parse(s) == None
  {
    ParseAcceptsExactly(s);
  }

  // ---------------------------------------------------------------------
  // Canonical string
  // ---------------------------------------------------------------------

  function Numerals(segs: seq<nat>): (parts: seq<string>)
    ensures |parts| == |segs|
    ensures forall i :: 0 <= i < |segs| ==> parts[i] == Decimal(segs[i])
  {
    if segs == [] then [] else [Decimal(segs[0])] + Numerals(segs[1..])
  }

  /** The version printed as decimal segments joined by '.'. */
  function Canon(v: Version): string {
    Join(Numerals(v.segments))
  }

  /** Parsing the canonical string of a version gives the version back. */
  lemma CanonRoundTrip(v: Version)
    ensures Parse(Canon(v)) == Some(v)
    ensures WellFormed(Canon(v))
  {
    var parts := Numerals(v.segments);
    SplitJoin(parts);
    var r := ParseSegments(parts);
    assert r.value == v.segments;
    ParseAcceptsExactly(Canon(v));
  }

  /** The canonical string is injective: distinct versions print differently. */
  lemma CanonInjective(v: Version, w: Version)
    ensures Canon(v) == Canon(w) ==> v == w
  {
    CanonRoundTrip(v);
    CanonRoundTrip(w);
  }

  // ---------------------------------------------------------------------
  // Ordering
  // ---------------------------------------------------------------------

  datatype Ordering = Lt | Eq | Gt

  /** Segment i of v, with missing trailing segments read as 0. */
  function Seg(v: Version, i: nat): nat {
    if i < |v.segments| then v.segments[i] else 0
  }

  function Width(a: Version, b: Version): nat {
    if |a.segments| < |b.segments| then |b.segments| else |a.segments|
  }

  function CompareFrom(a: Version, b: Version, i: nat): Ordering
    decreases Width(a, b) - i
  {
    if i >= Width(a, b) then Eq
    else if Seg(a, i) < Seg(b, i) then Lt
    else if Seg(a, i) > Seg(b, i) then Gt
    else CompareFrom(a, b, i + 1)
  }

  /** Dotted-numeric comparison of two versions. */
  function Compare(a: Version, b: Version): Ordering {
    CompareFrom(a, b, 0)
  }

  predicate LessThan(a: Version, b: Version) {
    Compare(a, b) == Lt
  }

  /** Segments i up to (not including) k agree. */
  ghost predicate AgreeBetween(a: Version, b: Version, i: nat, k: nat) {
    forall j :: i <= j < k ==> Seg(a, j) == Seg(b, j)
  }

  /** One unfolding of CompareFrom that also holds past the width. */
  lemma CompareFromStep(a: Version, b: Version, i: nat)
    ensures CompareFrom(a, b, i) ==
      if Seg(a, i) < Seg(b, i) then Lt
      else if Seg(a, i) > Seg(b, i) then Gt
      else CompareFrom(a, b, i + 1)
  {
  }

  lemma {:induction false} CompareFromAgrees(a: Version, b: Version, i: nat)
    ensures CompareFrom(a, b, i) == Eq <==> forall j: nat :: i <= j ==> Seg(a, j) == Seg(b, j)
    ensures CompareFrom(a, b, i) == Lt <==>
      exists k: nat :: i <= k && AgreeBetween(a, b, i, k) && Seg(a, k) < Seg(b, k)
    decreases Width(a, b) - i
  {
    if i >= Width(a, b) {
      assert forall j: nat :: i <= j ==> Seg(a, j) == Seg(b, j);
    } else if Seg(a, i) < Seg(b, i) {
      assert AgreeBetween(a, b, i, i);
    } else if Seg(a, i) > Seg(b, i) {
      assert forall k: nat :: i <= k && AgreeBetween(a, b, i, k) ==> k == i;
    } else {
      CompareFromAgrees(a, b, i + 1);
      if forall j: nat :: i + 1 <= j ==> Seg(a, j) == Seg(b, j) {
        assert forall j: nat :: i <= j ==> Seg(a, j) == Seg(b, j);
      }
      if CompareFrom(a, b, i + 1) == Lt {
        var k: nat :| i + 1 <= k && AgreeBetween(a, b, i + 1, k) && Seg(a, k) < Seg(b, k);
        assert AgreeBetween(a, b, i, k);
      }
      if exists k: nat :: i <= k && AgreeBetween(a, b, i, k) && Seg(a, k) < Seg(b, k) {
        var k: nat :| i <= k && AgreeBetween(a, b, i, k) && Seg(a, k) < Seg(b, k);
        assert k != i;
        assert AgreeBetween(a, b, i + 1, k);
      }
    }
  }

  /**
   * Compare is dotted-numeric ordering: two versions are equal when every
   * segment agrees (missing trailing segments being 0), and a is less than
   * b when, at the first segment where they differ, a's is smaller.
   */
  lemma CompareIsDottedNumeric(a: Version, b: Version)
    ensures Compare(a, b) == Eq <==> forall j: nat :: Seg(a, j) == Seg(b, j)
    ensures LessThan(a, b) <==> exists k: nat :: AgreeBetween(a, b, 0, k) && Seg(a, k) < Seg(b, k)
  {
    CompareFromAgrees(a, b, 0);
  }

  lemma {:induction false} CompareFromFlip(a: Version, b: Version, i: nat)
    ensures CompareFrom(a, b, i) == Gt <==> CompareFrom(b, a, i) == Lt
    ensures CompareFrom(a, b, i) == Eq <==> CompareFrom(b, a, i) == Eq
    decreases Width(a, b) - i
  {
    assert Width(a, b) == Width(b, a);
    if i < Width(a, b) && Seg(a, i) == Seg(b, i) {
      CompareFromFlip(a, b, i + 1);
    }
  }

  /** Swapping the arguments swaps Lt and Gt and keeps Eq. */
  lemma CompareFlip(a: Version, b: Version)
    ensures Compare(a, b) == Gt <==> Compare(b, a) == Lt
    ensures Compare(a, b) == Eq <==> Compare(b, a) == Eq
  {
    CompareFromFlip(a, b, 0);
  }

  function Max3(x: nat, y: nat, z: nat): nat {
    if x < y then (if y < z then z else y) else (if x < z then z else x)
  }

  lemma {:induction false} CompareFromAtLeastTrans(a: Version, b: Version, c: Version, i: nat)
    requires CompareFrom(a, b, i) != Lt && CompareFrom(b, c, i) != Lt
    ensures CompareFrom(a, c, i) != Lt
    decreases Max3(|a.segments|, |b.segments|, |c.segments|) - i
  {
    if i < Width(a, c) {
      CompareFromStep(a, b, i);
      CompareFromStep(b, c, i);
      if Seg(a, i) == Seg(c, i) {
        assert Seg(a, i) == Seg(b, i) == Seg(c, i);
        CompareFromAtLeastTrans(a, b, c, i + 1);
      }
    }
  }

  /** "At least" is transitive: a >= b and b >= c give a >= c. */
  lemma AtLeastTrans(a: Version, b: Version, c: Version)
    requires !LessThan(a, b) && !LessThan(b, c)
    ensures !LessThan(a, c)
  {
    CompareFromAtLeastTrans(a, b, c, 0);
  }

  /** Compare is a total preorder: reflexive, total and transitive. */
  lemma CompareIsTotalPreorder(a: Version, b: Version, c: Version)
    ensures Compare(a, a) == Eq
    ensures !LessThan(a, b) || !LessThan(b, a)
    ensures !LessThan(a, b) && !LessThan(b, c) ==> !LessThan(a, c)
  {
    CompareFromAgrees(a, a, 0);
    CompareFlip(a, b);
    if !LessThan(a, b) && !LessThan(b, c) { AtLeastTrans(a, b, c); }
  }

  /** A two-segment version prints as its two numerals around one dot. */
  lemma CanonOfPair(a: nat, b: nat)
    ensures Canon(Version([a, b])) == Decimal(a) + "." + Decimal(b)
  {
    var parts := Numerals([a, b]);
    assert parts == [Decimal(a), Decimal(b)];
    assert Join(parts) == parts[0] + "." + Join(parts[1..]);
  }

  /** Parse reads "1.10" as the segments 1 and 10. */
  lemma ParseOneTen()
    ensures Parse("1.10") == Some(Version([1, 10]))
  {
    assert Canon(Version([1, 10])) == "1.10" by {
      CanonOfPair(1, 10);
      assert Decimal(1) == "1" && Decimal(10) == "10";
    }
    CanonRoundTrip(Version([1, 10]));
  }

  /** Parse reads "1.9" as the segments 1 and 9. */
  lemma ParseOneNine()
    ensures Parse("1.9") == Some(Version([1, 9]))
  {
    assert Canon(Version([1, 9])) == "1.9" by {
      CanonOfPair(1, 9);
      assert Decimal(1) == "1" && Decimal(9) == "9";
    }
    CanonRoundTrip(Version([1, 9]));
  }

  /** Ordering is numeric, not lexicographic: 1.10 is above 1.9. */
  lemma NumericNotLexicographic()
    ensures Parse("1.10") == Some(Version([1, 10]))
    ensures Parse("1.9") == Some(Version([1, 9]))
    ensures LessThan(Version([1, 9]), Version([1, 10]))
  {
    ParseOneTen();
    ParseOneNine();
  }

  /** Canon tells apart versions that compare equal, such as 1.9 and 1.9.0. */
  lemma CanonSplitsEqualVersions()
    ensures Compare(Version([1, 9]), Version([1, 9, 0])) == Eq
    ensures Canon(Version([1, 9])) != Canon(Version([1, 9, 0]))
  {
    CanonInjective(Version([1, 9]), Version([1, 9, 0]));
  }

  // ---------------------------------------------------------------------
  // Descending sort
  // ---------------------------------------------------------------------

  /** No element is below a later one: the order the extractor sorts into. */
  predicate SortedDescending(vs: seq<Version>) {
    forall i, j :: 0 <= i < j < |vs| ==> !LessThan(vs[i], vs[j])
  }

  /** y is at least every element of a sequence holding x and the elements of vs. */
  lemma AtLeastAllOf(y: Version, r: seq<Version>, vs: seq<Version>, x: Version)
    requires multiset(r) == multiset(vs) + multiset{x}
    requires !LessThan(y, x) && forall k :: 0 <= k < |vs| ==> !LessThan(y, vs[k])
    ensures forall k :: 0 <= k < |r| ==> !LessThan(y, r[k])
  {
    forall k | 0 <= k < |r| ensures !LessThan(y, r[k]) {
      assert r[k] in multiset(r);
      if r[k] != x {
        assert r[k] in vs;
      }
    }
  }

  /** Putting in front of a descending sequence a version at least all its elements keeps it descending. */
  lemma SortedCons(y: Version, vs: seq<Version>)
    requires SortedDescending(vs)
    requires forall k :: 0 <= k < |vs| ==> !LessThan(y, vs[k])
    ensures SortedDescending([y] + vs)
  {
    var r := [y] + vs;
    forall i, j | 0 <= i < j < |r| ensures !LessThan(r[i], r[j]) {
      assert r[j] == vs[j - 1];
      if i > 0 { assert r[i] == vs[i - 1]; }
    }
  }

  /** Inserts x into a descending sequence, before the first element x is not below. */
  function Insert(x: Version, vs: seq<Version>): (r: seq<Version>)
    requires SortedDescending(vs)
    ensures SortedDescending(r)
    ensures multiset(r) == multiset(vs) + multiset{x}
  {
    if vs == [] then [x]
    else if !LessThan(x, vs[0]) then
      assert forall j :: 0 <= j < |vs| ==> !LessThan(x, vs[j]) by {
        forall j | 0 <= j < |vs| ensures !LessThan(x, vs[j]) {
          if j > 0 { AtLeastTrans(x, vs[0], vs[j]); }
        }
      }
      SortedCons(x, vs);
      [x] + vs
    else
      var tail := vs[1..];
      var rest := Insert(x, tail);
      assert !LessThan(vs[0], x) by { CompareFlip(x, vs[0]); }
      AtLeastAllOf(vs[0], rest, tail, x);
      SortedCons(vs[0], rest);
      assert vs == [vs[0]] + tail;
      [vs[0]] + rest
  }

  /** A descending rearrangement of vs. */
  function SortDescending(vs: seq<Version>): (r: seq<Version>)
    ensures SortedDescending(r)
    ensures multiset(r) == multiset(vs)
  {
    if vs == [] then []
    else
      assert vs == [vs[0]] + vs[1..];
      Insert(vs[0], SortDescending(vs[1..]))
  }
}
