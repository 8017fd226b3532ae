/**
 * The extractor's one regular expression, `go([\d.]+)\.linux-amd64\.tar\.gz`,
 * as a hand-written scanner. `FindAllString` returns the leftmost
 * non-overlapping matches in order, and `FirstSubmatch` returns the capture
 * group of the leftmost match, as the two regular-expression calls of the
 * extractor do.
 */
module Scanner {
  import opened Wrappers

  /** The literal text after the captured version; 19 characters. */
  const Suffix: string := ".linux-amd64.tar.gz"

  /** The characters of a tarball name besides its version: "go" and the suffix. */
  const NameOverhead: nat := 2 + |Suffix|

  /** The class `[\d.]`: an ASCII digit or a dot. */
  predicate IsVersionChar(c: char) { '0' <= c <= '9' || c == '.' }

  /** The suffix literal occurs in s starting at j. */
  predicate SuffixAt(s: string, j: nat) {
    j + |Suffix| <= |s| && forall q :: 0 <= q < |Suffix| ==> s[j + q] == Suffix[q]
  }

  /** The pattern matches s at i with a capture of length k. */
  ghost predicate PatternAt(s: string, i: nat, k: nat) {
    && 1 <= k
    && i + k + NameOverhead <= |s|
    && s[i] == 'g' && s[i + 1] == 'o'
    && (forall j :: i + 2 <= j < i + 2 + k ==> IsVersionChar(s[j]))
    && SuffixAt(s, i + 2 + k)
  }

  /** The length of the longest run of version characters starting at i. */
  function RunLength(s: string, i: nat): (n: nat)
    requires i <= |s|
    ensures i + n <= |s|
    ensures forall j :: i <= j < i + n ==> IsVersionChar(s[j])
    ensures i + n == |s| || !IsVersionChar(s[i + n])
    decreases |s| - i
  {
    if i < |s| && IsVersionChar(s[i]) then 1 + RunLength(s, i + 1) else 0
  }

  /**
   * The capture length of the match starting at i, if there is one. The
   * greedy run of version characters after "go" must end in the '.' that
   * opens the suffix, so the capture is that run minus its last character.
   */
  function MatchAt(s: string, i: nat): (r: Option<nat>)
    requires i <= |s|
    ensures r.Some? ==> 1 <= r.value && i + r.value + NameOverhead <= |s|
  {
    if i + 2 <= |s| && s[i] == 'g' && s[i + 1] == 'o' then
      var n := RunLength(s, i + 2);
      if 2 <= n && SuffixAt(s, i + n + 1) then Some(n - 1) else None
    else None
  }

  /**
   * MatchAt finds every match: wherever the pattern matches, it matches
   * with exactly one capture length, the one MatchAt returns.
   */
  lemma MatchAtComplete(s: string, i: nat, k: nat)
    requires i <= |s|
    ensures PatternAt(s, i, k) <==> MatchAt(s, i) == Some(k)
  {
    if PatternAt(s, i, k) {
      assert s[i + 2 + k + 0] == Suffix[0] == '.';
      assert s[i + 2 + k + 1] == Suffix[1] == 'l';
      var n := RunLength(s, i + 2);
      assert n == k + 1;
    }
  }

  /** A match found by the scanner: where it starts and how long its capture is. */
  datatype Match = Match(start: nat, len: nat) {
    function End(): nat { start + len + NameOverhead }
  }

  /** The leftmost non-overlapping matches at or after position from. */
  function MatchesFrom(s: string, from: nat): (ms: seq<Match>)
    requires from <= |s|
    ensures forall j :: 0 <= j < |ms| ==> from <= ms[j].start && ms[j].End() <= |s|
    decreases |s| - from
  {
    if from == |s| then []
    else match MatchAt(s, from)
      case Some(k) =>
        var m := Match(from, k);
        [m] + MatchesFrom(s, m.End())
      case None => MatchesFrom(s, from + 1)
  }

  /** Every match found is one MatchAt reports, with the same capture length. */
  lemma {:induction false} MatchesFromSound(s: string, from: nat, j: nat)
    requires from <= |s| && j < |MatchesFrom(s, from)|
    ensures MatchAt(s, MatchesFrom(s, from)[j].start) == Some(MatchesFrom(s, from)[j].len)
    decreases |s| - from
  {
    var ms := MatchesFrom(s, from);
    assert from < |s|;
    var r := MatchAt(s, from);
    if r.Some? {
      var rest := MatchesFrom(s, from + r.value + NameOverhead);
      assert ms == [Match(from, r.value)] + rest;
      if j > 0 {
        assert ms[j] == rest[j - 1];
        MatchesFromSound(s, from + r.value + NameOverhead, j - 1);
      }
    } else {
      assert ms == MatchesFrom(s, from + 1);
      MatchesFromSound(s, from + 1, j);
    }
  }

  /** Every match the scan finds in s is a match of the pattern. */
  lemma MatchFound(s: string, j: nat)
    requires j < |Matches(s)|
    ensures PatternAt(s, Matches(s)[j].start, Matches(s)[j].len)
  {
    MatchesFromSound(s, 0, j);
    MatchAtComplete(s, Matches(s)[j].start, Matches(s)[j].len);
  }

  /**
   * The scan is leftmost-first and non-overlapping: no match starts before
   * the first match found, and after it the scan resumes at its end.
   */
  lemma {:induction false} MatchesFromLeftmost(s: string, from: nat, p: nat)
    requires from <= p <= |s|
    requires MatchesFrom(s, from) == [] || p <= MatchesFrom(s, from)[0].start
    ensures MatchesFrom(s, from) == MatchesFrom(s, p)
    ensures MatchesFrom(s, from) == [] || p < MatchesFrom(s, from)[0].start ==> MatchAt(s, p) == None
    decreases p - from
  {
    if from < p {
      assert MatchAt(s, from) == None;
      MatchesFromLeftmost(s, from + 1, p);
    }
  }

  /** Once a match is found the scan resumes where it ends. */
  lemma MatchesFromResumes(s: string, from: nat)
    requires from <= |s| && MatchesFrom(s, from) != []
    ensures MatchesFrom(s, from)[1..] == MatchesFrom(s, MatchesFrom(s, from)[0].End())
  {
    var m := MatchesFrom(s, from)[0];
    MatchesFromLeftmost(s, from, m.start);
    MatchesFromSound(s, from, 0);
  }

  function Matches(s: string): seq<Match> {
    MatchesFrom(s, 0)
  }

  /** The text of every match, in order, like FindAllString with no limit. */
  function FindAllString(s: string): (found: seq<string>)
    ensures |found| == |Matches(s)|
  {
    var ms := Matches(s);
    seq(|ms|, j requires 0 <= j < |ms| => s[ms[j].start..ms[j].End()])
  }

  /** The capture group of the leftmost match, like FindStringSubmatch(s)[1]. */
  function FirstSubmatch(s: string): Option<string> {
    var ms := Matches(s);
    if ms == [] then None else Some(s[ms[0].start + 2..ms[0].start + 2 + ms[0].len])
  }

  /**
   * FindStringSubmatch(s)[1] is absent exactly when the pattern matches
   * nowhere, and otherwise a non-empty run of digits and dots.
   */
  lemma FirstSubmatchShape(s: string)
    ensures FirstSubmatch(s).None? <==> forall i, k :: 0 <= i <= |s| ==> !PatternAt(s, i, k)
    ensures FirstSubmatch(s).Some? ==>
      |FirstSubmatch(s).value| >= 1 && forall q :: 0 <= q < |FirstSubmatch(s).value| ==> IsVersionChar(FirstSubmatch(s).value[q])
  {
    MatchesFromEmpty(s, 0);
    var ms := Matches(s);
    if ms != [] {
      var c := s[ms[0].start + 2..ms[0].start + 2 + ms[0].len];
      MatchFound(s, 0);
      assert forall q :: 0 <= q < |c| ==> c[q] == s[ms[0].start + 2 + q];
    }
  }

  /** FindStringSubmatch(s)[1] is the first of the captures FindAllString's matches hold. */
  lemma FirstSubmatchIsFirstCapture(s: string)
    ensures Captures(s) == [] ==> FirstSubmatch(s) == None
    ensures Captures(s) != [] ==> FirstSubmatch(s) == Some(Captures(s)[0])
  {
  }

  /** The capture group of every match, in order. */
  function Captures(s: string): (caps: seq<string>)
    ensures |caps| == |Matches(s)|
  {
    var ms := Matches(s);
    seq(|ms|, j requires 0 <= j < |ms| => s[ms[j].start + 2..ms[j].start + 2 + ms[j].len])
  }

  /** The text of a match, taken on its own, matches the pattern from its start. */
  lemma PatternOfMatchText(s: string, i: nat, k: nat)
    requires PatternAt(s, i, k)
    ensures PatternAt(s[i..i + k + NameOverhead], 0, k)
  {
    var t := s[i..i + k + NameOverhead];
    forall q | 0 <= q < |Suffix| ensures t[2 + k + q] == Suffix[q] {
      assert t[2 + k + q] == s[i + 2 + k + q];
    }
    forall q | 2 <= q < 2 + k ensures IsVersionChar(t[q]) {
      assert t[q] == s[i + q];
    }
  }

  /** On text the pattern matches at 0, the first capture is the one found there. */
  lemma FirstSubmatchAtStart(t: string, k: nat)
    requires PatternAt(t, 0, k)
    ensures FirstSubmatch(t) == Some(t[2..2 + k])
  {
    MatchAtComplete(t, 0, k);
    assert MatchesFrom(t, 0) == [Match(0, k)] + MatchesFrom(t, k + NameOverhead);
  }

  /** Matching the text of a match on its own gives back that match's capture. */
  lemma SubmatchOfMatchText(s: string, i: nat, k: nat)
    requires PatternAt(s, i, k)
    ensures FirstSubmatch(s[i..i + k + NameOverhead]) == Some(s[i + 2..i + 2 + k])
  {
    var t := s[i..i + k + NameOverhead];
    PatternOfMatchText(s, i, k);
    FirstSubmatchAtStart(t, k);
    forall j | 2 <= j < 2 + k ensures t[j] == s[i + j] { }
    assert t[2..2 + k] == s[i + 2..i + 2 + k];
  }

  /** The j-th found text is the j-th match's whole text, and the j-th capture its version part. */
  lemma FoundAndCaptured(s: string, j: nat)
    requires j < |Matches(s)|
    ensures FindAllString(s)[j] == s[Matches(s)[j].start..Matches(s)[j].End()]
    ensures Captures(s)[j] == s[Matches(s)[j].start + 2..Matches(s)[j].start + 2 + Matches(s)[j].len]
  {
  }

  /**
   * Running the pattern again over the text of a match recovers that
   * match's capture, so the extractor's second regular-expression call
   * never comes back empty.
   */
  lemma SubmatchOfFound(s: string, j: nat)
    requires j < |FindAllString(s)|
    ensures FirstSubmatch(FindAllString(s)[j]) == Some(Captures(s)[j])
  {
    var m := Matches(s)[j];
    FoundAndCaptured(s, j);
    MatchFound(s, j);
    SubmatchOfMatchText(s, m.start, m.len);
  }

  /** Some match starts at or after from exactly when MatchesFrom finds one. */
  lemma {:induction false} MatchesFromEmpty(s: string, from: nat)
    requires from <= |s|
    ensures MatchesFrom(s, from) == [] <==> forall i, k :: from <= i <= |s| ==> !PatternAt(s, i, k)
    decreases |s| - from
  {
    if from < |s| {
      match MatchAt(s, from)
      case Some(k) =>
        MatchAtComplete(s, from, k);
      case None =>
        MatchesFromEmpty(s, from + 1);
        forall k ensures !PatternAt(s, from, k) { MatchAtComplete(s, from, k); }
    }
  }

  /** The text w appears in s at position i. */
  ghost predicate OccursAt(w: string, s: string, i: nat) {
    i + |w| <= |s| && s[i..i + |w|] == w
  }

  /** A capture as the text holds it: `go<capture>.linux-amd64.tar.gz`. */
  ghost predicate InTarballName(c: string, s: string) {
    && |c| >= 1
    && (forall q :: 0 <= q < |c| ==> IsVersionChar(c[q]))
    && exists i :: OccursAt("go" + c + Suffix, s, i)
  }

  lemma CaptureInName(s: string, i: nat, k: nat)
    requires PatternAt(s, i, k)
    ensures InTarballName(s[i + 2..i + 2 + k], s)
  {
    var c := s[i + 2..i + 2 + k];
    forall q | 0 <= q < |c| ensures IsVersionChar(c[q]) {
      assert c[q] == s[i + 2 + q];
    }
    assert s[i..i + 2] == "go";
    assert s[i + 2 + k..i + k + NameOverhead] == Suffix by {
      forall q | 0 <= q < |Suffix| ensures s[i + 2 + k..i + k + NameOverhead][q] == Suffix[q] {
        assert s[i + 2 + k + q] == Suffix[q];
      }
    }
    assert s[i..i + k + NameOverhead] == s[i..i + 2] + c + s[i + 2 + k..i + k + NameOverhead];
    assert OccursAt("go" + c + Suffix, s, i);
  }

  /**
   * Every capture is a non-empty run of digits and dots that the text holds
   * inside a tarball name; there are none exactly when the pattern matches
   * nowhere.
   */
  lemma CapturesFromText(s: string)
    ensures forall j :: 0 <= j < |Captures(s)| ==> InTarballName(Captures(s)[j], s)
    ensures Captures(s) == [] <==> forall i, k :: 0 <= i <= |s| ==> !PatternAt(s, i, k)
  {
    var caps := Captures(s);
    forall j | 0 <= j < |caps| ensures InTarballName(caps[j], s) {
      var m := Matches(s)[j];
      MatchFound(s, j);
      CaptureInName(s, m.start, m.len);
    }
    MatchesFromEmpty(s, 0);
  }

  /** A tarball name on its own matches the pattern at its start. */
  lemma NamePattern(c: string)
    requires |c| >= 1 && forall q :: 0 <= q < |c| ==> IsVersionChar(c[q])
    ensures PatternAt("go" + c + Suffix, 0, |c|)
  {
    var s := "go" + c + Suffix;
    forall q | 0 <= q < |Suffix| ensures s[2 + |c| + q] == Suffix[q] { }
    forall j | 2 <= j < 2 + |c| ensures IsVersionChar(s[j]) { assert s[j] == c[j - 2]; }
  }

  /** Text that is one whole match has that match's capture as its only capture. */
  lemma WholeMatchCaptures(s: string, k: nat)
    requires PatternAt(s, 0, k) && |s| == k + NameOverhead
    ensures Captures(s) == [s[2..2 + k]]
  {
    MatchAtComplete(s, 0, k);
    assert MatchesFrom(s, k + NameOverhead) == [];
    assert Matches(s) == [Match(0, k)];
  }

  /**
   * A tarball name on its own, `go<c>.linux-amd64.tar.gz` with c a run of
   * digits and dots, yields exactly one capture: c.
   */
  lemma NameCapturesVersion(c: string)
    requires |c| >= 1 && forall q :: 0 <= q < |c| ==> IsVersionChar(c[q])
    ensures Captures("go" + c + Suffix) == [c]
  {
    var s := "go" + c + Suffix;
    NamePattern(c);
    WholeMatchCaptures(s, |c|);
    assert s[2..2 + |c|] == c;
  }
}
