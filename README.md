# go-version-fetcher: the version-selection core in Dafny

go-version-fetcher downloads the Go download page and writes the newest Go
releases into an Ansible variables file. Its core is `extractGoVersions`
(main.go:66-98). It does four things to the page body:

- finds every tarball name `go<version>.linux-amd64.tar.gz` with a fixed
  regular expression;
- parses each captured version, skipping the ones that fail to parse;
- sorts the parsed versions in descending order;
- keeps the first version of each canonical string (`uniqueVersionSlice`,
  main.go:100-110) and returns the canonical strings of at most 20 of them.

The model has four modules:

- `Wrappers` holds the `Option` datatype.
- `Scanner` is the one regular expression, `go([\d.]+)\.linux-amd64\.tar\.gz`,
  written as a hand scanner. `FindAllString` gives the leftmost
  non-overlapping matches, and `FirstSubmatch` gives the capture of the
  leftmost match. The capture at a position is unique: the greedy `[\d.]+`
  run must end in the `.` that opens `.linux-amd64.tar.gz`, and the next
  character is `l`. So greedy and leftmost-first matching agree here.
- `Versions` is a self-contained dotted-numeric version that stands in for
  the version library.
  - A version is a non-empty sequence of naturals.
  - `Parse` rejects empty text, empty segments and non-digit segments.
  - `Compare` goes segment by segment, numerically, and reads missing
    trailing segments as 0.
  - `Canon` prints the segments in decimal, joined by `.`.
  - `SortDescending` is a verified insertion sort.
- `Extract` holds the two functions of main.go.
  - `UniqueVersionSlice` and `ExtractGoVersions` are methods with the
    source's loops.
  - Each method is proved equal to a specification function:
    `UniqueOf` and `Selected` respectively.
  - The lemmas prove the properties of those functions.

The library's String() normalisation is not modelled. Every selection
function takes the key-string function as a parameter `canon`, and the
results hold for any such function. `Versions.Canon` is one instance.
Strict descent of the result needs an extra assumption: versions that
compare equal must share their key string (`KeysFollowOrder`).
`Versions.CanonSplitsEqualVersions` shows that `Canon` alone does not
give this: 1.9 and 1.9.0 compare equal but print differently.

Nothing here was executed. All results are proofs checked by the Dafny
verifier.

## Model

| member | source | states |
|---|---|---|
| Scanner.RunLength | main.go:67 | the run of `[\d.]` characters starting at i is maximal: every character in it is a digit or dot, and the run ends at the end of the text or at another character |
| Scanner.MatchAt | main.go:67 | a match reported at i has a capture of at least one character and lies within the text; `Scanner.MatchAtComplete` shows it reports exactly the pattern's matches |
| Scanner.MatchAtComplete | main.go:67 | the pattern matches at i with capture length k exactly when the scanner reports k at i, so each position has at most one capture |
| Scanner.MatchesFrom | main.go:68 | every match found starts at or after the scan position and ends within the text |
| Scanner.MatchesFromSound | main.go:68 | every match in the list is one the pattern reports at its start, with the same capture length |
| Scanner.MatchFound | main.go:67-68 | every match FindAllString returns is a match of the pattern |
| Scanner.MatchesFromLeftmost | main.go:68 | no match starts before the first match found, and the scan from any earlier position finds the same list (leftmost-first) |
| Scanner.MatchesFromResumes | main.go:68 | after a match the scan resumes at its end, so matches do not overlap |
| Scanner.MatchesFromEmpty | main.go:68 | the scan finds nothing exactly when the pattern matches at no position |
| Scanner.FindAllString | main.go:68 | one matched text per match of the scan, in order; what the matches are is stated by `Scanner.MatchFound`, `Scanner.MatchesFromLeftmost`, `Scanner.MatchesFromResumes` and `Scanner.FoundAndCaptured` |
| Scanner.Captures | main.go:67-73 | one capture per match, in order; `Scanner.CapturesFromText` and `Scanner.FoundAndCaptured` state what each capture is |
| Scanner.FoundAndCaptured | main.go:68-73 | the j-th found text is the whole j-th match, and the j-th capture is its version part |
| Scanner.FirstSubmatch | main.go:73 | the capture of the leftmost match, absent when nothing matches; its meaning is stated by `Scanner.FirstSubmatchShape`, `Scanner.FirstSubmatchIsFirstCapture`, `Scanner.FirstSubmatchAtStart` and `Scanner.SubmatchOfFound` |
| Scanner.FirstSubmatchShape | main.go:73 | FindStringSubmatch finds nothing exactly when the pattern matches nowhere, and otherwise returns a non-empty run of digits and dots |
| Scanner.FirstSubmatchIsFirstCapture | main.go:68-73 | FindStringSubmatch returns the first of the captures, and nothing when there are none |
| Scanner.SubmatchOfFound | main.go:68-73 | running the pattern again on the j-th matched text gives the j-th capture, so `FindStringSubmatch(v)[1]` never fails |
| Scanner.SubmatchOfMatchText | main.go:73 | the first capture of a match's text, taken on its own, is that match's capture |
| Scanner.PatternOfMatchText | main.go:73 | a match's text, taken on its own, matches the pattern at position 0 |
| Scanner.FirstSubmatchAtStart | main.go:73 | on text the pattern matches at 0, FindStringSubmatch returns the capture found there |
| Scanner.CaptureInName | main.go:67 | a capture is a non-empty run of digits and dots that occurs as `go<capture>.linux-amd64.tar.gz` |
| Scanner.CapturesFromText | main.go:67-73 | every capture appears in the text inside a tarball name, and there are no captures exactly when the pattern matches nowhere |
| Scanner.NamePattern | main.go:67 | a tarball name `go<c>.linux-amd64.tar.gz`, with c a non-empty run of digits and dots, matches at its start |
| Scanner.WholeMatchCaptures | main.go:67-68 | text that is one whole match has that match's capture as its only capture |
| Scanner.NameCapturesVersion | main.go:67-73 | the text `go<c>.linux-amd64.tar.gz` alone yields exactly one capture, c; e.g. `go....linux-amd64.tar.gz` yields `...` |
| Versions.Decimal | main.go:92-95 | the decimal rendering of n is a numeral whose value is n, with no leading zero and no dot |
| Versions.FirstDot | main.go:74 | the position found holds a '.' and no earlier position does |
| Versions.Split | main.go:74 | splitting on '.' gives dot-free parts that join back to the text |
| Versions.SplitAfterPart | main.go:74 | splitting a dot-free part followed by '.' and more text peels off that part |
| Versions.SplitJoin | main.go:74 | splitting the '.'-join of dot-free parts gives the parts back |
| Versions.ParseSegments | main.go:74 | parsing the parts succeeds exactly when every part is a numeral, and then gives one segment per part with that numeral's value |
| Versions.Parse | main.go:74 | a parsed version has one segment per dot-separated part |
| Versions.WellFormedWithoutDot | main.go:74 | dot-free text is well formed exactly when it is a non-empty run of digits |
| Versions.WellFormedAtDot | main.go:74 | text whose first '.' is at i is well formed exactly when a numeral comes before i and well-formed text comes after it |
| Versions.AllPartsNumeral | main.go:74 | every dot-separated part is a numeral exactly when the text is well formed |
| Versions.ParseAcceptsExactly | main.go:74-78 | Parse succeeds exactly on well-formed text: non-empty, digits and dots only, with no leading, trailing or doubled dot |
| Versions.ParseRejects | main.go:74-78 | the empty string, text with an empty segment (a leading, a trailing or a doubled dot), and text with a character that is neither digit nor dot are all rejected |
| Versions.CanonRoundTrip | main.go:74 | parsing the canonical string of a version gives the version back, and that string is well formed |
| Versions.Canon | main.go:94 | the stand-in for String(): decimal segments joined by '.'; `Versions.CanonRoundTrip` and `Versions.CanonInjective` state that it parses back to the version and tells versions apart |
| Versions.CanonInjective | main.go:103-105 | distinct versions have distinct canonical strings |
| Versions.CompareFromAgrees | main.go:82-84 | from segment i onwards, the comparison is Eq exactly when all later segments agree, and Lt exactly when a is smaller at the first segment that differs |
| Versions.Compare | main.go:83 | segment-by-segment comparison; `Versions.CompareIsDottedNumeric` and `Versions.CompareIsTotalPreorder` state that it is the dotted-numeric total preorder |
| Versions.LessThan | main.go:83 | the comparator the sort uses: a is below b under `Compare`; `Versions.CompareFlip`, `Versions.AtLeastTrans` and `Versions.NumericNotLexicographic` state its properties |
| Versions.CompareIsDottedNumeric | main.go:82-84 | Compare is the dotted-numeric order, with missing trailing segments read as 0 |
| Versions.CompareFromFlip | main.go:82-84 | from segment i onwards, swapping the arguments swaps Lt and Gt and keeps Eq |
| Versions.CompareFlip | main.go:82-84 | swapping the arguments swaps Lt and Gt and keeps Eq |
| Versions.CompareFromAtLeastTrans | main.go:82-84 | from segment i onwards, "not less than" is transitive |
| Versions.AtLeastTrans | main.go:82-84 | "not less than" is transitive |
| Versions.CompareIsTotalPreorder | main.go:82-84 | the comparison is reflexive, total and transitive, so sorting by it is well defined |
| Versions.ParseOneTen | main.go:74 | "1.10" parses to the segments 1, 10 |
| Versions.ParseOneNine | main.go:74 | "1.9" parses to the segments 1, 9 |
| Versions.NumericNotLexicographic | main.go:74-84 | 1.10 is greater than 1.9: the order is numeric, not lexicographic |
| Versions.CanonSplitsEqualVersions | main.go:82-86 | 1.9 and 1.9.0 compare equal but have different canonical strings |
| Versions.AtLeastAllOf | main.go:82-84 | a version not below x or any element of vs is not below any element of a rearrangement of vs with x added |
| Versions.Insert | main.go:82-84 | inserting into a descending sequence keeps it descending, and the result holds exactly the old elements plus the new one |
| Versions.SortDescending | main.go:82-84 | the result is descending (no element is below a later one) and is a permutation of the input |
| Extract.ParseAll | main.go:72-80 | at most one parsed version per capture |
| Extract.ParseAllAppend | main.go:72-80 | parsing a concatenation of captures parses each part in turn |
| Extract.ParseAllSkipsFailure | main.go:74-78 | a capture that fails to parse contributes nothing, and the captures around it are still parsed |
| Extract.ParseAllMembers | main.go:72-80 | a version is in the parsed list exactly when some capture parses to it |
| Extract.Parsed | main.go:68-80 | at most one parsed version per found match; `Extract.ParseAllMembers` and `Extract.ParseAllSkipsFailure` state which versions they are |
| Extract.CollectVersions | main.go:67-80 | the append loop over the matches yields exactly the parsed captures, in order, with failures skipped |
| Extract.UniqueOf | main.go:100-110 | every kept version comes from the input |
| Extract.KeysOfAppend | main.go:104-106 | appending a version adds exactly its key string to the key set |
| Extract.UniqueKeysDistinct | main.go:100-110 | the kept versions have pairwise different key strings, and every key string of the input is kept |
| Extract.UniqueKeys | main.go:100-110 | as UniqueKeysDistinct, and there are as many kept versions as distinct key strings |
| Extract.FirstOccurrenceIsNewKey | main.go:104 | a version is the first with its key string exactly when that key string is not yet among the earlier versions' keys, which is what the `keys` lookup tests |
| Extract.UniquePrefixIsFirstOccurrences | main.go:103-107 | on a prefix of the input, the kept versions are that prefix's first occurrences |
| Extract.UniqueIsFirstOccurrences | main.go:103-107 | the kept versions are the input's first occurrence of each key string, in input order |
| Extract.UniquePrecedes | main.go:103-107 | a kept version that precedes the first kept version with a given key comes from an earlier input position |
| Extract.UniqueKeepsOrder | main.go:100-110 | deduplicating a descending sequence leaves it descending |
| Extract.UniqueVersionSlice | main.go:100-110 | the map-and-append loop computes UniqueOf, with distinct key strings and the same key set as the input |
| Extract.SameElementsSameKeys | main.go:82-84 | sorting changes neither the elements nor the key strings |
| Extract.Chosen | main.go:86-93 | at most MaxVersions (20) versions; `Extract.ChosenBasics` states they are the first min(20, d) deduplicated versions |
| Extract.Selected | main.go:66-98 | the extractor's result has at most 20 strings; `Extract.SelectedSpec`, `Extract.SelectionSpec` and `Extract.SelectedComesFromBody` state the rest of its meaning |
| Extract.ChosenBasics | main.go:86-91 | the chosen versions are a prefix of the deduplicated list of length min(20, number of key strings), with distinct keys, taken from the input, and descending when the input is |
| Extract.ChosenTopN | main.go:82-95 | a version whose key string is not returned is not above any chosen version |
| Extract.ChosenCoversAll | main.go:88-91 | with at most 20 key strings, every key string is returned |
| Extract.ChosenStrictlyDescending | main.go:82-95 | when equal versions share key strings, the chosen versions strictly descend |
| Extract.SelectionSpec | main.go:82-95 | for any descending permutation of the parsed versions: length min(20, d), distinct keys, chosen from the parsed versions, descending, top-N, all keys returned when d <= 20, strictly descending when KeysFollowOrder holds |
| Extract.SelectedSpec | main.go:86-95 | the result has length min(20, d) for d distinct key strings of parsed versions, holds no string twice, and holds only key strings of parsed versions |
| Extract.SelectedComesFromBody | main.go:67-95 | every returned string is the key string of a version parsed from a capture that the body holds as `go<capture>.linux-amd64.tar.gz` |
| Extract.NoTarballNoVersions | main.go:67-92 | a body where the pattern matches nowhere gives an empty result |
| Extract.SelectionOfOne | main.go:82-95 | a single parsed version yields its own key string |
| Extract.SelectionOfNone | main.go:82-95 | no parsed versions yield an empty result |
| Extract.OneTarballName | main.go:66-98 | a body that is one tarball name yields that version's key string, or nothing when the capture does not parse |
| Extract.DotsOnlyGivesNothing | main.go:74-78 | `go....linux-amd64.tar.gz` is matched, but `...` does not parse, so nothing is returned |
| Extract.ExtractGoVersions | main.go:66-98 | the whole extractor (collect, sort, deduplicate, cap at 20, copy key strings into a fresh slice) returns exactly Selected(body, canon) |

## Left out

- Fetching the page over HTTP and reading the body (main.go:52-64): network I/O. The model starts from the body string.
- `main`, its error printing and `os.Exit` (main.go:38-50): process plumbing.
- `generateAnsibleVars` and the `varsTemplate` text (main.go:16-36): file creation and the template library. Note that `index . 0` at main.go:20 fails on an empty list, so a page with no parseable tarball name would make that template fail. `Extract.NoTarballNoVersions` and `Extract.DotsOnlyGivesNothing` show when the list is empty.
- The diagnostic `fmt.Printf` at main.go:76: only its effect is modelled, namely that the capture is skipped.
- `sort.Slice` (main.go:82-84) is an unstable in-place library sort. It is replaced by the verified insertion sort `Versions.SortDescending`, and the sorted sequence is a new value rather than the same slice updated in place. `Extract.SelectionSpec` holds for any descending permutation, so its properties also cover the order Go's sort may produce among equal versions.
- The version library's own parser and printer are not modelled: `v` prefixes, pre-release and metadata suffixes, segment padding, and 64-bit segment overflow. The model's versions are dotted-numeric only, and key strings are the parameter `canon`.
- The version library's `LessThan` is modelled by `Versions.Compare` on dotted-numeric segments only.
- Characters are compared as Unicode code points; the byte-level UTF-8 handling of Go's regexp package is not modelled.
- `Extract.ExtractGoVersions`: the preallocated `goVersions` slice (main.go:92-95) is a sequence filled index by index, not a shared Go slice, so aliasing is not modelled (the slice never escapes before it is returned).
- `Extract.ExtractGoVersions`: lines 67-80 are split out into `Extract.CollectVersions` and called from it.
- `Extract.ExtractGoVersions`: states only that the result equals `Selected(body, canon)`. The length, distinctness, order and top-N properties are stated about `Selected` by `Extract.SelectedSpec` and `Extract.SelectionSpec`.
