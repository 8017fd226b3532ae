/**
 * The version extractor: scan the index page for tarball names, parse each
 * captured version (skipping the ones that do not parse), sort them in
 * descending order, keep the first version for each key string, and return
 * the key strings of the first twenty.
 *
 * The key string of a version (the version library's String()) is a
 * parameter `canon`: nothing here depends on how it normalises a version.
 * `Versions.Canon` is one such function.
 */
module Extract {
  import opened Wrappers
  import opened Scanner
  import opened Versions

  /** The most versions the extractor returns. */
  const MaxVersions: nat := 20

  function Min(a: nat, b: nat): nat { if a < b then a else b }

  // ---------------------------------------------------------------------
  // Parsing the captures, skipping failures
  // ---------------------------------------------------------------------

  /** The versions that parse, in the order of their captures. */
  function ParseAll(caps: seq<string>): (vs: seq<Version>)
    ensures |vs| <= |caps|
  {
    if caps == [] then []
    else
      var rest := ParseAll(caps[..|caps| - 1]);
      match Parse(caps[|caps| - 1])
      case Some(v) => rest + [v]
      case None => rest
  }

  lemma {:induction false} ParseAllAppend(xs: seq<string>, ys: seq<string>)
    ensures ParseAll(xs + ys) == ParseAll(xs) + ParseAll(ys)
    decreases |ys|
  {
    if ys == [] {
      assert xs + ys == xs;
    } else {
      var ys' := ys[..|ys| - 1];
      assert (xs + ys)[..|xs + ys| - 1] == xs + ys';
      ParseAllAppend(xs, ys');
    }
  }

  /**
   * A capture that does not parse contributes nothing, and the captures
   * around it are still parsed.
   */
  lemma ParseAllSkipsFailure(xs: seq<string>, bad: string, ys: seq<string>)
    requires Parse(bad) == None
    ensures ParseAll(xs + [bad] + ys) == ParseAll(xs + ys)
  {
    ParseAllAppend(xs + [bad], ys);
    ParseAllAppend(xs, [bad]);
    ParseAllAppend(xs, ys);
    assert ParseAll([bad]) == [] by { assert [bad][..0] == []; }
  }

  /** The parsed versions are exactly the results of the captures that parse. */
  lemma {:induction false} ParseAllMembers(caps: seq<string>)
    ensures forall v :: v in ParseAll(caps) <==> exists c :: c in caps && Parse(c) == Some(v)
    decreases |caps|
  {
    if caps != [] {
      var init := caps[..|caps| - 1];
      ParseAllMembers(init);
      assert caps == init + [caps[|caps| - 1]];
    }
  }

  /** The versions the extractor parses out of a page body: at most one per match. */
  function Parsed(body: string): (vs: seq<Version>)
    ensures |vs| <= |FindAllString(body)|
  {
    ParseAll(Captures(body))
  }

  // ---------------------------------------------------------------------
  // Keeping the first version of each key string
  // ---------------------------------------------------------------------

  /** The key strings of a sequence of versions. */
  function KeysOf(vs: seq<Version>, canon: Version -> string): set<string> {
    set v | v in vs :: canon(v)
  }

  predicate DistinctKeys(vs: seq<Version>, canon: Version -> string) {
    forall i, j :: 0 <= i < j < |vs| ==> canon(vs[i]) != canon(vs[j])
  }

  /** vs with every version dropped whose key string an earlier kept one has. */
  function UniqueOf(vs: seq<Version>, canon: Version -> string): (u: seq<Version>)
    ensures forall i :: 0 <= i < |u| ==> u[i] in vs
  {
    if vs == [] then []
    else
      var init := vs[..|vs| - 1];
      var u := UniqueOf(init, canon);
      var v := vs[|vs| - 1];
      assert forall i :: 0 <= i < |u| ==> u[i] in vs by {
        forall i | 0 <= i < |u| ensures u[i] in vs {
          var k :| 0 <= k < |init| && init[k] == u[i];
          assert vs[k] == u[i];
        }
      }
      if canon(v) in KeysOf(u, canon) then u else u + [v]
  }

  lemma KeysOfAppend(u: seq<Version>, v: Version, canon: Version -> string)
    ensures KeysOf(u + [v], canon) == KeysOf(u, canon) + {canon(v)}
  {
    assert forall w :: w in u + [v] <==> w in u || w == v;
  }

  /** The kept versions have pairwise different key strings, and every key string of the input is kept. */
  lemma {:induction false} UniqueKeysDistinct(vs: seq<Version>, canon: Version -> string)
    ensures KeysOf(UniqueOf(vs, canon), canon) == KeysOf(vs, canon)
    ensures DistinctKeys(UniqueOf(vs, canon), canon)
    decreases |vs|
  {
    if vs != [] {
      var init := vs[..|vs| - 1];
      var v := vs[|vs| - 1];
      var u := UniqueOf(init, canon);
      UniqueKeysDistinct(init, canon);
      assert vs == init + [v];
      KeysOfAppend(init, v, canon);
      KeysOfAppend(u, v, canon);
      if canon(v) !in KeysOf(u, canon) {
        forall i | 0 <= i < |u| ensures canon(u[i]) != canon(v) {
          assert u[i] in u;
        }
      }
    }
  }

  /**
   * The kept versions have pairwise different key strings, every key
   * string of the input is kept, and so there are as many kept versions as
   * there are key strings.
   */
  lemma {:induction false} UniqueKeys(vs: seq<Version>, canon: Version -> string)
    ensures KeysOf(UniqueOf(vs, canon), canon) == KeysOf(vs, canon)
    ensures DistinctKeys(UniqueOf(vs, canon), canon)
    ensures |UniqueOf(vs, canon)| == |KeysOf(vs, canon)|
    decreases |vs|
  {
    UniqueKeysDistinct(vs, canon);
    if vs != [] {
      var init := vs[..|vs| - 1];
      var v := vs[|vs| - 1];
      var u := UniqueOf(init, canon);
      UniqueKeys(init, canon);
      KeysOfAppend(u, v, canon);
    }
  }

  /** Position i holds the first version in vs with its key string. */
  ghost predicate IsFirstOccurrence(vs: seq<Version>, canon: Version -> string, i: nat)
    requires i < |vs|
  {
    forall j :: 0 <= j < i ==> canon(vs[j]) != canon(vs[i])
  }

  /** The versions among the first n of vs that are first occurrences, in order. */
  ghost function FirstOccurrences(vs: seq<Version>, canon: Version -> string, n: nat): seq<Version>
    requires n <= |vs|
  {
    if n == 0 then []
    else FirstOccurrences(vs, canon, n - 1) + (if IsFirstOccurrence(vs, canon, n - 1) then [vs[n - 1]] else [])
  }

  /** Position n - 1 is a first occurrence exactly when its key string is new there. */
  lemma FirstOccurrenceIsNewKey(vs: seq<Version>, canon: Version -> string, n: nat)
    requires 0 < n <= |vs|
    ensures IsFirstOccurrence(vs, canon, n - 1) <==> canon(vs[n - 1]) !in KeysOf(vs[..n - 1], canon)
  {
    var init, v := vs[..n - 1], vs[n - 1];
    if canon(v) in KeysOf(init, canon) {
      var w :| w in init && canon(w) == canon(v);
      var j :| 0 <= j < n - 1 && init[j] == w;
      assert vs[j] == w;
    } else {
      forall j | 0 <= j < n - 1 ensures canon(vs[j]) != canon(v) {
        assert vs[j] == init[j];
        assert init[j] in init;
      }
    }
  }

  lemma {:induction false} UniquePrefixIsFirstOccurrences(vs: seq<Version>, canon: Version -> string, n: nat)
    requires n <= |vs|
    ensures UniqueOf(vs[..n], canon) == FirstOccurrences(vs, canon, n)
  {
    if n > 0 {
      var prefix, init, v := vs[..n], vs[..n - 1], vs[n - 1];
      assert prefix[..n - 1] == init && prefix[n - 1] == v;
      UniquePrefixIsFirstOccurrences(vs, canon, n - 1);
      UniqueKeys(init, canon);
      FirstOccurrenceIsNewKey(vs, canon, n);
      var u := UniqueOf(init, canon);
      assert UniqueOf(prefix, canon) == if canon(v) in KeysOf(u, canon) then u else u + [v];
    }
  }

  /**
   * The kept versions are the subsequence of vs at the first occurrence of
   * each key string, in their original order.
   */
  lemma UniqueIsFirstOccurrences(vs: seq<Version>, canon: Version -> string)
    ensures UniqueOf(vs, canon) == FirstOccurrences(vs, canon, |vs|)
  {
    UniquePrefixIsFirstOccurrences(vs, canon, |vs|);
    assert vs[..|vs|] == vs;
  }

  /**
   * If the key string of vs[p] is not among the first m + 1 kept versions,
   * the kept version at m comes from an earlier position of vs.
   */
  lemma {:induction false} UniquePrecedes(vs: seq<Version>, canon: Version -> string, p: nat, m: nat)
    requires p < |vs| && m < |UniqueOf(vs, canon)|
    requires canon(vs[p]) !in KeysOf(UniqueOf(vs, canon)[..m + 1], canon)
    ensures exists q :: 0 <= q < p && UniqueOf(vs, canon)[m] == vs[q]
    decreases |vs|
  {
    var init := vs[..|vs| - 1];
    var x := vs[|vs| - 1];
    var u', u := UniqueOf(init, canon), UniqueOf(vs, canon);
    UniqueKeys(vs, canon);
    assert canon(vs[p]) in KeysOf(u, canon) by { assert vs[p] in vs; }
    // Past the kept versions of init, m is the last kept position and
    // u[..m + 1] holds every key string, including that of vs[p].
    if m < |u'| {
      assert u[..m + 1] == u'[..m + 1];
      if p == |vs| - 1 {
        assert u'[m] in init;
        var q :| 0 <= q < |init| && init[q] == u'[m];
        assert vs[q] == u[m];
      } else {
        assert init[p] == vs[p];
        UniquePrecedes(init, canon, p, m);
        var q :| 0 <= q < p && u'[m] == init[q];
        assert vs[q] == u[m];
      }
    }
  }

  /** Keeping first occurrences preserves a descending order. */
  lemma UniqueKeepsOrder(vs: seq<Version>, canon: Version -> string)
    requires SortedDescending(vs)
    ensures SortedDescending(UniqueOf(vs, canon))
  {
    var u := UniqueOf(vs, canon);
    UniqueKeys(vs, canon);
    forall i, j | 0 <= i < j < |u| ensures !LessThan(u[i], u[j]) {
      assert u[j] in vs;
      var p :| 0 <= p < |vs| && vs[p] == u[j];
      UniquePrecedes(vs, canon, p, i);
    }
  }

  /**
   * uniqueVersionSlice: walks the versions, remembering each key string in
   * a map, and appends a version only when its key string is new.
   */
  method UniqueVersionSlice(versions: seq<Version>, canon: Version -> string) returns (unique: seq<Version>)
    ensures unique == UniqueOf(versions, canon)
    ensures DistinctKeys(unique, canon)
    ensures KeysOf(unique, canon) == KeysOf(versions, canon)
  {
    var keys: map<string, bool> := map[];
    unique := [];
    for i := 0 to |versions|
      invariant unique == UniqueOf(versions[..i], canon)
      invariant keys.Keys == KeysOf(unique, canon)
    {
      var v := versions[i];
      assert versions[..i + 1][..i] == versions[..i];
      if canon(v) !in keys {
        keys := keys[canon(v) := true];
        KeysOfAppend(unique, v, canon);
        unique := unique + [v];
      }
    }
    assert versions[..|versions|] == versions;
    UniqueKeys(versions, canon);
  }

  // ---------------------------------------------------------------------
  // Selection
  // ---------------------------------------------------------------------

  /** The key strings of vs, in order. */
  function KeyStrings(vs: seq<Version>, canon: Version -> string): (r: seq<string>)
    ensures |r| == |vs|
    ensures forall i :: 0 <= i < |vs| ==> r[i] == canon(vs[i])
  {
    seq(|vs|, i requires 0 <= i < |vs| => canon(vs[i]))
  }

  /** The first MaxVersions versions kept from a descending sequence. */
  function Chosen(sorted: seq<Version>, canon: Version -> string): (c: seq<Version>)
    ensures |c| <= MaxVersions
  {
    var u := UniqueOf(sorted, canon);
    u[..Min(MaxVersions, |u|)]
  }

  /** What the extractor returns for a page body. */
  function Selected(body: string, canon: Version -> string): (r: seq<string>)
    ensures |r| <= MaxVersions
  {
    KeyStrings(Chosen(SortDescending(Parsed(body)), canon), canon)
  }

  /** Versions that compare equal always share their key string. */
  ghost predicate KeysFollowOrder(canon: Version -> string) {
    forall a, b :: Compare(a, b) == Eq ==> canon(a) == canon(b)
  }

  lemma SameElementsSameKeys(xs: seq<Version>, ys: seq<Version>, canon: Version -> string)
    requires multiset(xs) == multiset(ys)
    ensures KeysOf(xs, canon) == KeysOf(ys, canon)
    ensures forall v :: v in xs <==> v in ys
  {
    assert forall v :: v in xs <==> v in multiset(xs);
    assert forall v :: v in ys <==> v in multiset(ys);
  }

  /** The chosen versions: at most MaxVersions of them, from sorted, with distinct keys. */
  lemma ChosenBasics(sorted: seq<Version>, canon: Version -> string)
    ensures Chosen(sorted, canon) == UniqueOf(sorted, canon)[..|Chosen(sorted, canon)|]
    ensures |Chosen(sorted, canon)| == Min(MaxVersions, |KeysOf(sorted, canon)|)
    ensures DistinctKeys(Chosen(sorted, canon), canon)
    ensures forall i :: 0 <= i < |Chosen(sorted, canon)| ==> Chosen(sorted, canon)[i] in sorted
    ensures SortedDescending(sorted) ==> SortedDescending(Chosen(sorted, canon))
  {
    var u := UniqueOf(sorted, canon);
    UniqueKeys(sorted, canon);
    if SortedDescending(sorted) {
      UniqueKeepsOrder(sorted, canon);
    }
  }

  /** A version of sorted whose key string was not returned is not above any chosen version. */
  lemma ChosenTopN(sorted: seq<Version>, canon: Version -> string, v: Version, i: nat)
    requires SortedDescending(sorted)
    requires v in sorted && canon(v) !in KeyStrings(Chosen(sorted, canon), canon)
    requires i < |Chosen(sorted, canon)|
    ensures !LessThan(Chosen(sorted, canon)[i], v)
  {
    var u := UniqueOf(sorted, canon);
    var c := Chosen(sorted, canon);
    var r := KeyStrings(c, canon);
    ChosenBasics(sorted, canon);
    var p :| 0 <= p < |sorted| && sorted[p] == v;
    assert canon(v) !in KeysOf(u[..i + 1], canon) by {
      forall w | w in u[..i + 1] ensures canon(w) != canon(v) {
        var t :| 0 <= t < i + 1 && u[..i + 1][t] == w;
        assert r[t] == canon(w);
      }
    }
    UniquePrecedes(sorted, canon, p, i);
  }

  /** With at most MaxVersions key strings, every one of them is returned. */
  lemma ChosenCoversAll(sorted: seq<Version>, canon: Version -> string, v: Version)
    requires |KeysOf(sorted, canon)| <= MaxVersions
    requires v in sorted
    ensures canon(v) in KeyStrings(Chosen(sorted, canon), canon)
  {
    var u := UniqueOf(sorted, canon);
    UniqueKeys(sorted, canon);
    var r := KeyStrings(Chosen(sorted, canon), canon);
    assert Chosen(sorted, canon) == u;
    assert canon(v) in KeysOf(u, canon);
    var w :| w in u && canon(w) == canon(v);
    var t :| 0 <= t < |u| && u[t] == w;
    assert r[t] == canon(v);
  }

  /** When equal versions share their key string, the chosen versions strictly descend. */
  lemma ChosenStrictlyDescending(sorted: seq<Version>, canon: Version -> string)
    requires SortedDescending(sorted)
    requires KeysFollowOrder(canon)
    ensures forall i, j :: 0 <= i < j < |Chosen(sorted, canon)| ==>
      LessThan(Chosen(sorted, canon)[j], Chosen(sorted, canon)[i])
  {
    var c := Chosen(sorted, canon);
    ChosenBasics(sorted, canon);
    forall i, j | 0 <= i < j < |c| ensures LessThan(c[j], c[i]) {
      assert Compare(c[i], c[j]) != Eq;
      CompareFlip(c[i], c[j]);
    }
  }

  /**
   * Selection from any descending rearrangement of the parsed versions:
   * as many key strings as min(MaxVersions, distinct key strings), none
   * twice, each belonging to a parsed version; the chosen versions are
   * descending and no parsed version left out is above a chosen one; all
   * keys are returned when there are at most MaxVersions; and when equal
   * versions share their key string, the chosen versions strictly descend.
   */
  lemma SelectionSpec(parsed: seq<Version>, sorted: seq<Version>, canon: Version -> string)
    requires multiset(sorted) == multiset(parsed)
    requires SortedDescending(sorted)
    ensures |KeyStrings(Chosen(sorted, canon), canon)| == Min(MaxVersions, |KeysOf(parsed, canon)|)
    ensures DistinctKeys(Chosen(sorted, canon), canon)
    ensures forall i :: 0 <= i < |Chosen(sorted, canon)| ==> Chosen(sorted, canon)[i] in parsed
    ensures SortedDescending(Chosen(sorted, canon))
    ensures forall v, i ::
      (v in parsed && canon(v) !in KeyStrings(Chosen(sorted, canon), canon) && 0 <= i < |Chosen(sorted, canon)|)
      ==> !LessThan(Chosen(sorted, canon)[i], v)
    ensures |KeysOf(parsed, canon)| <= MaxVersions ==>
      forall v :: v in parsed ==> canon(v) in KeyStrings(Chosen(sorted, canon), canon)
    ensures KeysFollowOrder(canon) ==>
      forall i, j :: 0 <= i < j < |Chosen(sorted, canon)| ==>
        LessThan(Chosen(sorted, canon)[j], Chosen(sorted, canon)[i])
  {
    SameElementsSameKeys(sorted, parsed, canon);
    ChosenBasics(sorted, canon);
    var c := Chosen(sorted, canon);
    forall v, i | v in parsed && canon(v) !in KeyStrings(c, canon) && 0 <= i < |c|
      ensures !LessThan(c[i], v)
    {
      ChosenTopN(sorted, canon, v, i);
    }
    if |KeysOf(parsed, canon)| <= MaxVersions {
      forall v | v in parsed ensures canon(v) in KeyStrings(c, canon) {
        ChosenCoversAll(sorted, canon, v);
      }
    }
    if KeysFollowOrder(canon) {
      ChosenStrictlyDescending(sorted, canon);
    }
  }

  /** The extractor's result has the properties SelectionSpec gives its chosen versions. */
  lemma SelectedSpec(body: string, canon: Version -> string)
    ensures |Selected(body, canon)| == Min(MaxVersions, |KeysOf(Parsed(body), canon)|)
    ensures forall i, j :: 0 <= i < j < |Selected(body, canon)| ==> Selected(body, canon)[i] != Selected(body, canon)[j]
    ensures forall i :: 0 <= i < |Selected(body, canon)| ==> Selected(body, canon)[i] in KeysOf(Parsed(body), canon)
  {
    var parsed := Parsed(body);
    var sorted := SortDescending(parsed);
    SelectionSpec(parsed, sorted, canon);
    var c := Chosen(sorted, canon);
    var r := KeyStrings(c, canon);
    assert r == Selected(body, canon);
    forall i | 0 <= i < |c| ensures r[i] in KeysOf(parsed, canon) {
      assert c[i] in parsed;
    }
  }

  /**
   * Every returned string is the key string of a version parsed from a
   * capture that the body holds as `go<capture>.linux-amd64.tar.gz`.
   */
  lemma SelectedComesFromBody(body: string, canon: Version -> string, i: nat)
    requires i < |Selected(body, canon)|
    ensures exists c ::
      c in Captures(body) && InTarballName(c, body) && Parse(c).Some? &&
      canon(Parse(c).value) == Selected(body, canon)[i]
  {
    SelectedSpec(body, canon);
    var v :| v in Parsed(body) && canon(v) == Selected(body, canon)[i];
    ParseAllMembers(Captures(body));
    var c :| c in Captures(body) && Parse(c) == Some(v);
    CapturesFromText(body);
    var j :| 0 <= j < |Captures(body)| && Captures(body)[j] == c;
    assert InTarballName(Captures(body)[j], body);
  }

  /** A body holding no tarball name matching the pattern gives an empty result. */
  lemma NoTarballNoVersions(body: string, canon: Version -> string)
    requires forall i, k :: 0 <= i <= |body| ==> !PatternAt(body, i, k)
    ensures Selected(body, canon) == []
  {
    CapturesFromText(body);
    assert Parsed(body) == [];
    assert SortDescending([]) == [];
    assert UniqueOf([], canon) == [];
  }

  lemma SelectionOfOne(v: Version, canon: Version -> string)
    ensures KeyStrings(Chosen(SortDescending([v]), canon), canon) == [canon(v)]
  {
    assert [v][1..] == [] && [v][..0] == [];
    assert SortDescending([v]) == Insert(v, []) == [v];
    assert KeysOf([], canon) == {};
    assert UniqueOf([v], canon) == [v];
    assert Chosen([v], canon) == [v];
    var r := KeyStrings([v], canon);
    assert |r| == 1 && r[0] == canon(v);
  }

  lemma SelectionOfNone(canon: Version -> string)
    ensures KeyStrings(Chosen(SortDescending([]), canon), canon) == []
  {
    assert SortDescending([]) == [];
    assert UniqueOf([], canon) == [];
  }

  /**
   * A page whose whole text is one tarball name, `go<c>.linux-amd64.tar.gz`,
   * yields the key string of c's version, or nothing when c does not parse.
   */
  lemma OneTarballName(c: string, canon: Version -> string)
    requires |c| >= 1 && forall q :: 0 <= q < |c| ==> IsVersionChar(c[q])
    ensures Parse(c).Some? ==> Selected("go" + c + Suffix, canon) == [canon(Parse(c).value)]
    ensures Parse(c).None? ==> Selected("go" + c + Suffix, canon) == []
  {
    var s := "go" + c + Suffix;
    NameCapturesVersion(c);
    assert [c][..0] == [];
    assert Parsed(s) == ParseAll([c]);
    match Parse(c)
    case Some(v) =>
      assert Parsed(s) == [v];
      SelectionOfOne(v, canon);
    case None =>
      assert Parsed(s) == [];
      SelectionOfNone(canon);
  }

  /** Scenario: `go....linux-amd64.tar.gz` is matched, but "..." does not parse, so nothing is returned. */
  lemma DotsOnlyGivesNothing(canon: Version -> string)
    ensures Selected("go" + "..." + Suffix, canon) == []
  {
    ParseRejects("...");
    assert !IsDigit("..."[0]) && "..."[0] != '.' ==> Parse("...") == None;
    OneTarballName("...", canon);
  }

  /**
   * The first half of extractGoVersions: run the pattern over the body,
   * take the capture of each match with a second pattern call, and keep
   * the captures that parse, in order.
   */
  method CollectVersions(body: string) returns (versions: seq<Version>)
    ensures versions == Parsed(body)
  {
    var versionStrings := FindAllString(body);
    ghost var captures := Captures(body);
    versions := [];
    for i := 0 to |versionStrings|
      invariant versions == ParseAll(captures[..i])
    {
      assert captures[..i + 1][..i] == captures[..i];
      SubmatchOfFound(body, i);
      var versionNumber := FirstSubmatch(versionStrings[i]).value;
      var parsedVersion := Parse(versionNumber);
      if parsedVersion.None? {
        continue;
      }
      versions := versions + [parsedVersion.value];
    }
    assert captures[..|versionStrings|] == captures;
  }

  /**
   * extractGoVersions: collect the parsed captures of the body, sort them
   * descending, keep the first version of each key string, and copy the key
   * strings of at most MaxVersions of them into a fresh slice.
   */
  method ExtractGoVersions(body: string, canon: Version -> string) returns (goVersions: seq<string>)
    ensures goVersions == Selected(body, canon)
  {
    var versions := CollectVersions(body);
    versions := SortDescending(versions);
    var uniqueVersions := UniqueVersionSlice(versions, canon);

    var numVersions := MaxVersions;
    if |uniqueVersions| < numVersions {
      numVersions := |uniqueVersions|;
    }
    ghost var chosen := uniqueVersions[..numVersions];
    assert chosen == Chosen(versions, canon);
    goVersions := seq(numVersions, _ => "");
    for i := 0 to numVersions
      invariant |goVersions| == numVersions
      invariant forall k :: 0 <= k < i ==> goVersions[k] == canon(chosen[k])
    {
      goVersions := goVersions[i := canon(uniqueVersions[i])];
    }
    assert goVersions == KeyStrings(chosen, canon);
  }
}
