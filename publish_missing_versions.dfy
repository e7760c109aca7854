/**
 * The publisher of missing npm versions (scripts/publish-missing-versions.js):
 * the GitHub release tags are normalised to versions, the versions npm does
 * not list are selected, they are ordered by the script's semver comparator,
 * and each is published in turn while the script tallies successes and
 * failures. Every shell command is an `exec` whose success is a parameter
 * (`succeeds`), and the text a command prints is a parameter too.
 */
module PublishMissingVersions {
  import opened Wrappers
  import opened Seqs
  import opened Strings
  import opened Numbers

  // ---------------------------------------------------------------------------
  // Tag normalisation (getGitHubReleases)

  /** `tag.replace(/^v/, '')`: one leading `v` removed, if there is one. */
  function StripV(tag: string): string
  {
    if tag != "" && tag[0] == 'v' then tag[1..] else tag
  }

  /** `filter(Boolean)` on strings: the empty line is dropped. */
  predicate NonEmpty(line: string)
  {
    line != ""
  }

  /** The non-empty lines of the trimmed `gh` output. */
  function TagLines(raw: string): seq<string>
  {
    Filter(Split(Trim(raw), '\n'), NonEmpty)
  }

  /**
   * The versions getGitHubReleases returns for the raw `gh` output: `exec`
   * trims it, it is split into lines, empty lines are dropped and each tag
   * loses one leading `v`.
   */
  function GitHubReleases(raw: string): (r: seq<string>)
    ensures |r| == |TagLines(raw)|
    ensures |r| <= |Split(Trim(raw), '\n')|
  {
    StripEachV(TagLines(raw))
  }

  /** Each tag with its leading `v` removed. */
  function StripEachV(lines: seq<string>): (r: seq<string>)
    ensures |r| == |lines| && forall i :: 0 <= i < |lines| ==> r[i] == StripV(lines[i])
  {
    seq(|lines|, i requires 0 <= i < |lines| => StripV(lines[i]))
  }

  /**
   * Each version comes from one non-empty output line with at most a leading
   * `v` removed, contains no line break, and every non-empty line yields one.
   */
  lemma GitHubReleasesShape(raw: string)
    ensures forall i :: 0 <= i < |GitHubReleases(raw)| ==>
              var line := TagLines(raw)[i];
              line in Split(Trim(raw), '\n') && line != ""
              && (line == GitHubReleases(raw)[i] || line == "v" + GitHubReleases(raw)[i])
              && '\n' !in GitHubReleases(raw)[i]
    ensures forall line :: line in Split(Trim(raw), '\n') && line != "" ==> StripV(line) in GitHubReleases(raw)
  {
    var parts := Split(Trim(raw), '\n');
    StrippedLines(parts);
    assert GitHubReleases(raw) == StripEachV(Filter(parts, NonEmpty));
  }

  lemma StrippedLines(parts: seq<string>)
    requires forall i :: 0 <= i < |parts| ==> '\n' !in parts[i]
    ensures var lines := Filter(parts, NonEmpty);
            forall i :: 0 <= i < |lines| ==>
              lines[i] in parts && lines[i] != ""
              && (lines[i] == StripEachV(lines)[i] || lines[i] == "v" + StripEachV(lines)[i])
              && '\n' !in StripEachV(lines)[i]
    ensures forall line :: line in parts && line != "" ==> StripV(line) in StripEachV(Filter(parts, NonEmpty))
  {
    var lines := Filter(parts, NonEmpty);
    var r := StripEachV(lines);
    forall i | 0 <= i < |r|
      ensures (lines[i] == r[i] || lines[i] == "v" + r[i]) && '\n' !in r[i]
    {
      if lines[i][0] == 'v' {
        assert lines[i] == "v" + lines[i][1..];
      }
    }
    forall line | line in parts && line != ""
      ensures StripV(line) in r
    {
      var k :| 0 <= k < |parts| && parts[k] == line;
      assert NonEmpty(parts[k]);
      var j :| 0 <= j < |lines| && lines[j] == line;
      assert r[j] == StripV(line);
    }
  }

  /** The tags written `v<tag>`, the lines `gh` prints for them. */
  function VTagged(tags: seq<string>): (r: seq<string>)
    ensures |r| == |tags|
  {
    seq(|tags|, i requires 0 <= i < |tags| => "v" + tags[i])
  }

  /** The `gh` output for tags written `v<tag>`, one per line. */
  function TagOutput(tags: seq<string>): string
  {
    Join(VTagged(tags), '\n')
  }

  /** An output starting with `v` and ending in a non-blank character is what `exec` trims it to. */
  lemma TagOutputTrimmed(tags: seq<string>)
    requires |tags| >= 1
    requires tags[|tags| - 1] == "" || !IsWhitespace(tags[|tags| - 1][|tags[|tags| - 1]| - 1])
    ensures Trim(TagOutput(tags)) == TagOutput(tags)
  {
    var lines := VTagged(tags);
    var s := TagOutput(tags);
    JoinEnds(lines, '\n');
    var last := lines[|lines| - 1];
    assert s[0] == lines[0][0] == 'v';
    TrimStartKeeps(s);
    assert s[|s| - 1] == last[|last| - 1];
    assert |tags[|tags| - 1]| > 0 ==> last[|last| - 1] == tags[|tags| - 1][|tags[|tags| - 1]| - 1];
    TrimEndKeeps(s);
  }

  /** The output's lines are the `v<tag>` lines, none of them empty. */
  lemma TagOutputLines(tags: seq<string>)
    requires |tags| >= 1
    requires forall i :: 0 <= i < |tags| ==> '\n' !in tags[i]
    ensures Filter(Split(TagOutput(tags), '\n'), NonEmpty) == VTagged(tags)
  {
    var lines := VTagged(tags);
    forall i | 0 <= i < |lines| ensures '\n' !in lines[i] {
      assert lines[i] == ['v'] + tags[i];
    }
    SplitJoin(lines, '\n');
    FilterAll(lines, NonEmpty);
  }

  /**
   * Normalisation inverts the `v<tag>` listing: tags without line breaks whose
   * last one does not end in white space come back exactly, in order.
   */
  lemma GitHubReleasesOfTags(tags: seq<string>)
    requires forall i :: 0 <= i < |tags| ==> '\n' !in tags[i]
    requires tags == [] || tags[|tags| - 1] == "" || !IsWhitespace(tags[|tags| - 1][|tags[|tags| - 1]| - 1])
    ensures GitHubReleases(TagOutput(tags)) == tags
  {
    var s := TagOutput(tags);
    if tags == [] {
      assert s == "";
      assert Split(Trim(s), '\n') == [""];
    } else {
      TagOutputTrimmed(tags);
      TagOutputLines(tags);
      var lines := VTagged(tags);
      assert TagLines(s) == lines;
      forall i | 0 <= i < |tags| ensures GitHubReleases(s)[i] == tags[i] {
        assert StripV(lines[i]) == tags[i];
      }
    }
  }

  // ---------------------------------------------------------------------------
  // Missing versions

  /** `githubReleases.filter(version => !npmVersions.includes(version))` */
  function MissingVersions(github: seq<string>, npm: seq<string>): seq<string>
  {
    Filter(github, (v: string) => v !in npm)
  }

  /** A version is missing exactly when GitHub has it and npm does not. */
  lemma MissingVersionsMembers(github: seq<string>, npm: seq<string>)
    ensures forall v :: v in MissingVersions(github, npm) <==> v in github && v !in npm
    ensures |MissingVersions(github, npm)| <= |github|
  {
    var r := MissingVersions(github, npm);
    forall v | v in github && v !in npm ensures v in r {
      var i :| 0 <= i < |github| && github[i] == v;
    }
  }

  /** The selection keeps GitHub's order: it distributes over concatenation of release lists. */
  lemma MissingVersionsOrder(a: seq<string>, b: seq<string>, npm: seq<string>)
    ensures MissingVersions(a + b, npm) == MissingVersions(a, npm) + MissingVersions(b, npm)
  {
    FilterConcat(a, b, (v: string) => v !in npm);
  }

  /** With nothing on npm every release is missing, and when npm lists them all none is. */
  lemma MissingVersionsExtremes(github: seq<string>, npm: seq<string>)
    ensures MissingVersions(github, []) == github
    ensures (forall i :: 0 <= i < |github| ==> github[i] in npm) ==> MissingVersions(github, npm) == []
  {
    FilterAll(github, (v: string) => v !in []);
    FilterNonEmpty(github, (v: string) => v !in npm);
  }

  // ---------------------------------------------------------------------------
  // The version comparator

  /** `parseInt(p.split('-')[0])`, where `NaN || 0` is 0. */
  function PartValue(p: string): int
  {
    match ParseInt(Split(p, '-')[0])
    case None => 0
    case Some(v) => v
  }

  /** `v.split('.').map(p => parseInt(p.split('-')[0]))`, with NaN already read as 0. */
  function Parts(v: string): (r: seq<int>)
    ensures |r| == |Split(v, '.')|
  {
    var ps := Split(v, '.');
    seq(|ps|, i requires 0 <= i < |ps| => PartValue(ps[i]))
  }

  /** `parts[i] || 0`: a position past the end reads as 0. */
  function PartAt(parts: seq<int>, i: nat): int
  {
    if i < |parts| then parts[i] else 0
  }

  function Max(a: nat, b: nat): nat
  {
    if a < b then b else a
  }

  /** The difference at the first position from `i` on where the parts differ, or 0. */
  function PartsDiff(pa: seq<int>, pb: seq<int>, i: nat): int
    decreases Max(|pa|, |pb|) - i
  {
    if i >= Max(|pa|, |pb|) then 0
    else if PartAt(pa, i) != PartAt(pb, i) then PartAt(pa, i) - PartAt(pb, i)
    else PartsDiff(pa, pb, i + 1)
  }

  /** The comparator passed to `missingVersions.sort`, with `localeCompare` as a parameter. */
  function VersionCompare(a: string, b: string, localeCompare: (string, string) -> int): int
  {
    var d := PartsDiff(Parts(a), Parts(b), 0);
    if d != 0 then d
    else if '-' in a && '-' !in b then -1
    else if '-' !in a && '-' in b then 1
    else localeCompare(a, b)
  }

  /** The comparator's loop: position by position, returning at the first difference. */
  method Compare(a: string, b: string, localeCompare: (string, string) -> int) returns (c: int)
    ensures c == VersionCompare(a, b, localeCompare)
  {
    var aParts := Parts(a);
    var bParts := Parts(b);
    for i := 0 to Max(|aParts|, |bParts|)
      invariant PartsDiff(aParts, bParts, 0) == PartsDiff(aParts, bParts, i)
    {
      var aPart := PartAt(aParts, i);
      var bPart := PartAt(bParts, i);
      if aPart != bPart {
        assert PartsDiff(aParts, bParts, i) == aPart - bPart;
        return aPart - bPart;
      }
    }
    assert PartsDiff(aParts, bParts, 0) == 0;
    if '-' in a && '-' !in b {
      return -1;
    }
    if '-' !in a && '-' in b {
      return 1;
    }
    return localeCompare(a, b);
  }

  /** The parts compare equal from `i` on exactly when they agree at every position, padding with 0. */
  lemma {:induction false} PartsDiffZero(pa: seq<int>, pb: seq<int>, i: nat)
    ensures PartsDiff(pa, pb, i) == 0 <==> forall k :: i <= k < Max(|pa|, |pb|) ==> PartAt(pa, k) == PartAt(pb, k)
    decreases Max(|pa|, |pb|) - i
  {
    if i < Max(|pa|, |pb|) && PartAt(pa, i) == PartAt(pb, i) {
      PartsDiffZero(pa, pb, i + 1);
    }
  }

  /** After positions that agree, the first differing position decides, by its difference. */
  lemma {:induction false} PartsDiffAt(pa: seq<int>, pb: seq<int>, i: nat, k: nat)
    requires i <= k < Max(|pa|, |pb|)
    requires forall j :: i <= j < k ==> PartAt(pa, j) == PartAt(pb, j)
    requires PartAt(pa, k) != PartAt(pb, k)
    ensures PartsDiff(pa, pb, i) == PartAt(pa, k) - PartAt(pb, k)
    decreases k - i
  {
    if i < k {
      PartsDiffAt(pa, pb, i + 1, k);
    }
  }

  /** Swapping the two part lists negates the difference. */
  lemma {:induction false} PartsDiffSwap(pa: seq<int>, pb: seq<int>, i: nat)
    ensures PartsDiff(pb, pa, i) == -PartsDiff(pa, pb, i)
    decreases Max(|pa|, |pb|) - i
  {
    if i < Max(|pa|, |pb|) && PartAt(pa, i) == PartAt(pb, i) {
      PartsDiffSwap(pa, pb, i + 1);
    }
  }

  /** The first position where the numeric parts differ decides the order. */
  lemma FirstDifferenceDecides(a: string, b: string, localeCompare: (string, string) -> int, k: nat)
    requires k < Max(|Parts(a)|, |Parts(b)|)
    requires forall j :: 0 <= j < k ==> PartAt(Parts(a), j) == PartAt(Parts(b), j)
    requires PartAt(Parts(a), k) != PartAt(Parts(b), k)
    ensures VersionCompare(a, b, localeCompare) == PartAt(Parts(a), k) - PartAt(Parts(b), k)
  {
    PartsDiffAt(Parts(a), Parts(b), 0, k);
  }

  /**
   * When the numeric parts agree everywhere (absent parts read as 0), a
   * version containing `-` sorts before one without, and otherwise
   * `localeCompare` decides.
   */
  lemma EqualPartsFallThrough(a: string, b: string, localeCompare: (string, string) -> int)
    requires forall k :: 0 <= k < Max(|Parts(a)|, |Parts(b)|) ==> PartAt(Parts(a), k) == PartAt(Parts(b), k)
    ensures '-' in a && '-' !in b ==> VersionCompare(a, b, localeCompare) == -1
    ensures '-' !in a && '-' in b ==> VersionCompare(a, b, localeCompare) == 1
    ensures ('-' in a <==> '-' in b) ==> VersionCompare(a, b, localeCompare) == localeCompare(a, b)
  {
    PartsDiffZero(Parts(a), Parts(b), 0);
  }

  function Sign(x: int): int
  {
    if x < 0 then -1 else if x > 0 then 1 else 0
  }

  /** `localeCompare` orders every pair in opposite directions when swapped. */
  ghost predicate Antisymmetric(localeCompare: (string, string) -> int)
  {
    forall x, y :: Sign(localeCompare(x, y)) == -Sign(localeCompare(y, x))
  }

  /** The comparator is antisymmetric whenever its `localeCompare` tie-break is. */
  lemma VersionCompareAntisymmetric(a: string, b: string, localeCompare: (string, string) -> int)
    requires Antisymmetric(localeCompare)
    ensures Sign(VersionCompare(a, b, localeCompare)) == -Sign(VersionCompare(b, a, localeCompare))
  {
    PartsDiffSwap(Parts(a), Parts(b), 0);
  }

  /** Every version compares equal to itself when `localeCompare` does. */
  lemma VersionCompareReflexive(a: string, localeCompare: (string, string) -> int)
    ensures VersionCompare(a, a, localeCompare) == localeCompare(a, a)
  {
    PartsDiffZero(Parts(a), Parts(a), 0);
  }

  /** The version text `n1.n2.….nk` for numbers `ns`. */
  function NumericVersion(ns: seq<nat>): string
  {
    Join(seq(|ns|, i requires 0 <= i < |ns| => NatToString(ns[i])), '.')
  }

  /** A number's digits read back as that number. */
  lemma PartValueOfNumber(n: nat)
    ensures PartValue(NatToString(n)) == n
  {
    var t := NatToString(n);
    assert '-' !in t;
    ParseNatToString(n, "");
    assert t + "" == t;
  }

  /** A numeric version reads back as its numbers, and contains no `-`. */
  lemma PartsOfNumericVersion(ns: seq<nat>)
    requires |ns| >= 1
    ensures Parts(NumericVersion(ns)) == ns
    ensures '-' !in NumericVersion(ns)
  {
    var texts := seq(|ns|, i requires 0 <= i < |ns| => NatToString(ns[i]));
    assert forall i :: 0 <= i < |texts| ==> '.' !in texts[i] && '-' !in texts[i];
    SplitJoin(texts, '.');
    JoinExcludes(texts, '.', '-');
    forall i | 0 <= i < |ns| ensures Parts(NumericVersion(ns))[i] == ns[i] {
      PartValueOfNumber(ns[i]);
    }
  }

  /**
   * Numeric versions compare by their numbers, position by position with
   * absent positions read as 0, and the tie-break decides only when those agree.
   */
  lemma NumericVersionsCompareByNumbers(ns: seq<nat>, ms: seq<nat>, localeCompare: (string, string) -> int)
    requires |ns| >= 1 && |ms| >= 1
    ensures var d := PartsDiff(ns, ms, 0);
            VersionCompare(NumericVersion(ns), NumericVersion(ms), localeCompare)
            == if d != 0 then d else localeCompare(NumericVersion(ns), NumericVersion(ms))
  {
    PartsOfNumericVersion(ns);
    PartsOfNumericVersion(ms);
  }

  /** Zero parts appended to a numeric version leave the numbers tied, so only the tie-break can order them. */
  lemma NumericVersionsZeroPadding(ns: seq<nat>, zeros: nat, localeCompare: (string, string) -> int)
    requires |ns| >= 1
    ensures var padded := ns + seq(zeros, j => 0);
            VersionCompare(NumericVersion(ns), NumericVersion(padded), localeCompare)
            == localeCompare(NumericVersion(ns), NumericVersion(padded))
  {
    var padded := ns + seq(zeros, j => 0);
    NumericVersionsCompareByNumbers(ns, padded, localeCompare);
    assert forall k :: 0 <= k < Max(|ns|, |padded|) ==> PartAt(ns, k) == PartAt(padded, k);
    PartsDiffZero(ns, padded, 0);
  }

  /** The version `n1.….nk-label.m`: a pre-release label followed by a dotted number. */
  function DottedPrerelease(ns: seq<nat>, name: string, m: nat): string
  {
    NumericVersion(ns) + "-" + name + "." + NatToString(m)
  }

  /** The part holding the label still reads as the number in front of the `-`. */
  lemma PartValueBeforeLabel(n: nat, name: string)
    ensures PartValue(NatToString(n) + "-" + name) == n
  {
    var t := NatToString(n);
    assert '-' !in t;
    FirstOfPrefix(t, '-', name);
    assert (t + "-" + name)[..|t|] == t;
    ParseNatToString(n, "");
    assert t + "" == t;
  }

  /** The dot-separated pieces of a dotted pre-release: the last number carries the label. */
  function DottedPieces(ns: seq<nat>, name: string, m: nat): (q: seq<string>)
    requires |ns| >= 1
    ensures |q| == |ns| + 1
  {
    var texts := seq(|ns|, i requires 0 <= i < |ns| => NatToString(ns[i]));
    texts[..|ns| - 1] + [texts[|ns| - 1] + "-" + name] + [NatToString(m)]
  }

  lemma JoinDottedPieces(ns: seq<nat>, name: string, m: nat)
    requires |ns| >= 1
    ensures Join(DottedPieces(ns, name, m), '.') == DottedPrerelease(ns, name, m)
  {
    var texts := seq(|ns|, i requires 0 <= i < |ns| => NatToString(ns[i]));
    var k := |ns| - 1;
    var q := DottedPieces(ns, name, m);
    JoinAppendLast(texts, '.', "-" + name);
    assert texts[k] + ("-" + name) == texts[k] + "-" + name;
    assert texts[..k] + [texts[k] + "-" + name] == q[..|q| - 1];
    JoinSnoc(q[..|q| - 1], '.', NatToString(m));
    assert q[..|q| - 1] + [NatToString(m)] == q;
    assert Join(texts, '.') + "-" + name + "." + NatToString(m) == Join(texts, '.') + ("-" + name) + ['.'] + NatToString(m);
  }

  lemma SplitDottedPrerelease(ns: seq<nat>, name: string, m: nat)
    requires |ns| >= 1
    requires '.' !in name
    ensures Split(DottedPrerelease(ns, name, m), '.') == DottedPieces(ns, name, m)
  {
    var q := DottedPieces(ns, name, m);
    var k := |ns| - 1;
    forall i | 0 <= i < |q| ensures '.' !in q[i] {
      if i == k {
        assert q[i] == NatToString(ns[k]) + "-" + name;
      }
    }
    JoinDottedPieces(ns, name, m);
    SplitJoin(q, '.');
  }

  /** As written, the dotted pre-release splits into the release's numbers followed by one more part `m`. */
  lemma PartsOfDottedPrerelease(ns: seq<nat>, name: string, m: nat)
    requires |ns| >= 1
    requires '.' !in name
    ensures Parts(DottedPrerelease(ns, name, m)) == ns + [m]
  {
    var q := DottedPieces(ns, name, m);
    var k := |ns| - 1;
    SplitDottedPrerelease(ns, name, m);
    forall i | 0 <= i < |q| ensures PartValue(q[i]) == (ns + [m])[i] {
      if i < k {
        PartValueOfNumber(ns[i]);
      } else if i == k {
        PartValueBeforeLabel(ns[k], name);
      } else {
        PartValueOfNumber(m);
      }
    }
  }

  /**
   * As written, a pre-release with a dotted, non-zero number after its label
   * sorts after its own release: `1.0.0-beta.1` reads as the parts 1, 0, 0, 1,
   * whose fourth part beats the absent fourth part of `1.0.0`.
   */
  lemma DottedPrereleaseSortsAfterRelease(ns: seq<nat>, name: string, m: nat, localeCompare: (string, string) -> int)
    requires |ns| >= 1 && '.' !in name && m > 0
    ensures VersionCompare(DottedPrerelease(ns, name, m), NumericVersion(ns), localeCompare) == m
  {
    PartsOfDottedPrerelease(ns, name, m);
    PartsOfNumericVersion(ns);
    AppendedPartDiff(ns, m);
  }

  lemma AppendedPartDiff(ns: seq<int>, m: int)
    requires m != 0
    ensures PartsDiff(ns + [m], ns, 0) == m
  {
    assert forall j :: 0 <= j < |ns| ==> PartAt(ns + [m], j) == PartAt(ns, j);
    PartsDiffAt(ns + [m], ns, 0, |ns|);
  }

  /** The numeric parts of the version proper: the text before its first `-`, split at dots. */
  function CoreParts(v: string): seq<int>
  {
    Parts(Split(v, '-')[0])
  }

  /** The comparator with each version's numbers read from the text before its first `-`. */
  function VersionCompareCorrected(a: string, b: string, localeCompare: (string, string) -> int): int
  {
    var d := PartsDiff(CoreParts(a), CoreParts(b), 0);
    if d != 0 then d
    else if '-' in a && '-' !in b then -1
    else if '-' !in a && '-' in b then 1
    else localeCompare(a, b)
  }

  /** Every pre-release of a version, whatever its suffix, sorts before that version. */
  lemma PrereleaseSortsBeforeRelease(core: string, suffix: string, localeCompare: (string, string) -> int)
    requires '-' !in core
    ensures VersionCompareCorrected(core + "-" + suffix, core, localeCompare) == -1
    ensures VersionCompareCorrected(core, core + "-" + suffix, localeCompare) == 1
  {
    var a := core + "-" + suffix;
    FirstOfPrefix(core, '-', suffix);
    assert a[..|core|] == core;
    assert Split(a, '-')[0] == core;
    assert '-' in a by {
      assert a[|core|] == '-';
    }
    PartsDiffZero(CoreParts(a), CoreParts(core), 0);
    PartsDiffZero(CoreParts(core), CoreParts(a), 0);
  }

  /** With the corrected comparator the dotted pre-release sorts before its release. */
  lemma DottedPrereleaseCorrected(ns: seq<nat>, name: string, m: nat, localeCompare: (string, string) -> int)
    requires |ns| >= 1
    ensures VersionCompareCorrected(DottedPrerelease(ns, name, m), NumericVersion(ns), localeCompare) == -1
  {
    PartsOfNumericVersion(ns);
    var suffix := name + "." + NatToString(m);
    RegroupTail(NumericVersion(ns), "-", name, ".", NatToString(m));
    PrereleaseSortsBeforeRelease(NumericVersion(ns), suffix, localeCompare);
  }

  lemma RegroupTail<T>(a: seq<T>, b: seq<T>, c: seq<T>, d: seq<T>, e: seq<T>)
    ensures a + b + c + d + e == a + b + (c + d + e)
  {
  }

  /** On versions without `-` the corrected comparator is the one as written. */
  lemma CorrectedAgreesOnReleases(a: string, b: string, localeCompare: (string, string) -> int)
    requires '-' !in a && '-' !in b
    ensures VersionCompareCorrected(a, b, localeCompare) == VersionCompare(a, b, localeCompare)
  {
  }

  // ---------------------------------------------------------------------------
  // Publishing and the tally (publishVersion and main)

  /** The commands publishVersion runs for a version, in order. */
  function PublishCommands(version: string): seq<string>
  {
    ["git checkout v" + version, "pnpm install --frozen-lockfile", "pnpm run build", "npm publish --access public"]
  }

  /** Every command publishing `version` succeeds. */
  predicate Publishes(succeeds: string -> bool, version: string)
  {
    forall c :: c in PublishCommands(version) ==> succeeds(c)
  }

  function Publisher(succeeds: string -> bool): string -> bool
  {
    (v: string) => Publishes(succeeds, v)
  }

  function Failer(succeeds: string -> bool): string -> bool
  {
    (v: string) => !Publishes(succeeds, v)
  }

  /** The command that restores the branch the script started on. */
  function RestoreCommand(currentBranch: string): string
  {
    "git checkout " + currentBranch
  }

  /** What a run of the publishing step leaves behind. */
  datatype Outcome = Outcome(successCount: nat, failureCount: nat, exitCode: int, branchRestored: bool)

  /**
   * The intended outcome of publishing `versions`: every version is tried,
   * successes and failures are counted, the exit code is 1 when something
   * failed, and the starting branch is checked out again in every case.
   */
  function PublishOutcome(versions: seq<string>, succeeds: string -> bool, currentBranch: string): Outcome
  {
    var failed := |Filter(versions, Failer(succeeds))|;
    Outcome(|Filter(versions, Publisher(succeeds))|, failed, if failed > 0 then 1 else 0,
            succeeds(RestoreCommand(currentBranch)))
  }

  /** Each version is counted once, and the script fails exactly when some version did not publish. */
  lemma PublishOutcomeCounts(versions: seq<string>, succeeds: string -> bool, currentBranch: string)
    ensures var o := PublishOutcome(versions, succeeds, currentBranch);
            o.successCount + o.failureCount == |versions|
            && (o.exitCode == 1 <==> exists i :: 0 <= i < |versions| && !Publishes(succeeds, versions[i]))
            && (o.exitCode == 0 <==> forall i :: 0 <= i < |versions| ==> Publishes(succeeds, versions[i]))
            && (o.successCount == |versions| <==> o.exitCode == 0)
  {
    FilterComplementCount(versions, Publisher(succeeds), Failer(succeeds));
    FilterNonEmpty(versions, Failer(succeeds));
  }

  /**
   * The success/failure loop of main, with a failing command making
   * publishVersion return false, followed by the exit-code decision and the
   * branch restore of the `finally` block.
   */
  method Publish(versions: seq<string>, succeeds: string -> bool, currentBranch: string) returns (o: Outcome)
    ensures o == PublishOutcome(versions, succeeds, currentBranch)
    ensures o.successCount + o.failureCount == |versions|
    ensures o.exitCode == 1 <==> o.failureCount > 0
  {
    var successCount := 0;
    var failureCount := 0;
    for i := 0 to |versions|
      invariant successCount == |Filter(versions[..i], Publisher(succeeds))|
      invariant failureCount == |Filter(versions[..i], Failer(succeeds))|
      invariant successCount + failureCount == i
    {
      assert versions[..i + 1] == versions[..i] + [versions[i]];
      FilterSnoc(versions[..i], versions[i], Publisher(succeeds));
      FilterSnoc(versions[..i], versions[i], Failer(succeeds));
      if Publishes(succeeds, versions[i]) {
        successCount := successCount + 1;
      } else {
        failureCount := failureCount + 1;
      }
    }
    assert versions[..|versions|] == versions;
    var exitCode := if failureCount > 0 then 1 else 0;
    o := Outcome(successCount, failureCount, exitCode, succeeds(RestoreCommand(currentBranch)));
  }

  /**
   * main as written: `exec` ends the process with exit code 1 at the first
   * command that fails, so publishVersion never returns false, nothing more
   * is counted and the `finally` block never restores the branch.
   */
  function PublishAsWritten(versions: seq<string>, succeeds: string -> bool, currentBranch: string): Outcome
  {
    if versions == [] then
      var restored := succeeds(RestoreCommand(currentBranch));
      Outcome(0, 0, if restored then 0 else 1, restored)
    else if !Publishes(succeeds, versions[0]) then Outcome(0, 0, 1, false)
    else
      var o := PublishAsWritten(versions[1..], succeeds, currentBranch);
      o.(successCount := o.successCount + 1)
  }

  /** As written, no failure is ever counted, and the branch is restored only when every version published. */
  lemma {:induction false} PublishAsWrittenNeverCountsFailures(versions: seq<string>, succeeds: string -> bool, currentBranch: string)
    ensures PublishAsWritten(versions, succeeds, currentBranch).failureCount == 0
    ensures PublishAsWritten(versions, succeeds, currentBranch).branchRestored
            <==> (forall i :: 0 <= i < |versions| ==> Publishes(succeeds, versions[i])) && succeeds(RestoreCommand(currentBranch))
  {
    if versions != [] {
      PublishAsWrittenNeverCountsFailures(versions[1..], succeeds, currentBranch);
      if forall i :: 0 <= i < |versions[1..]| ==> Publishes(succeeds, versions[1..][i]) {
        if Publishes(succeeds, versions[0]) {
          forall i | 0 <= i < |versions| ensures Publishes(succeeds, versions[i]) {
            if i > 0 {
              assert versions[i] == versions[1..][i - 1];
            }
          }
        }
      } else {
        var i :| 0 <= i < |versions[1..]| && !Publishes(succeeds, versions[1..][i]);
        assert versions[1..][i] == versions[i + 1];
      }
    }
  }

  /** When every command succeeds, the script as written has the intended outcome. */
  lemma {:induction false} PublishAsWrittenWhenAllSucceed(versions: seq<string>, succeeds: string -> bool, currentBranch: string)
    requires forall i :: 0 <= i < |versions| ==> Publishes(succeeds, versions[i])
    requires succeeds(RestoreCommand(currentBranch))
    ensures PublishAsWritten(versions, succeeds, currentBranch) == PublishOutcome(versions, succeeds, currentBranch)
  {
    FilterAll(versions, Publisher(succeeds));
    PublishOutcomeCounts(versions, succeeds, currentBranch);
    PublishAsWrittenCount(versions, succeeds, currentBranch);
  }

  lemma {:induction false} PublishAsWrittenCount(versions: seq<string>, succeeds: string -> bool, currentBranch: string)
    requires forall i :: 0 <= i < |versions| ==> Publishes(succeeds, versions[i])
    requires succeeds(RestoreCommand(currentBranch))
    ensures PublishAsWritten(versions, succeeds, currentBranch) == Outcome(|versions|, 0, 0, true)
  {
    if versions != [] {
      assert Publishes(succeeds, versions[0]);
      PublishAsWrittenCount(versions[1..], succeeds, currentBranch);
    }
  }

  /**
   * A failing checkout of the first of two versions: as written the script
   * stops at once with nothing counted and the branch left behind, where the
   * intended run publishes the second version, counts one failure and
   * restores the branch.
   */
  lemma FirstFailureEndsScript()
    ensures var versions := ["1.0.0", "1.0.1"];
            var succeeds := (c: string) => c != "git checkout v1.0.0";
            PublishAsWritten(versions, succeeds, "main") == Outcome(0, 0, 1, false)
            && PublishOutcome(versions, succeeds, "main") == Outcome(1, 1, 1, true)
  {
    var versions := ["1.0.0", "1.0.1"];
    var succeeds := (c: string) => c != "git checkout v1.0.0";
    var bad := "git checkout v1.0.0";
    assert "git checkout v" + "1.0.0" == bad;
    assert bad in PublishCommands("1.0.0") && !succeeds(bad);
    assert !Publishes(succeeds, "1.0.0");
    var cs := PublishCommands("1.0.1");
    assert cs[0][18] == '1' && bad[18] == '0';
    assert cs[1][0] == 'p' && cs[2][0] == 'p' && cs[3][0] == 'n';
    assert Publishes(succeeds, "1.0.1");
    assert RestoreCommand("main")[13] == 'm';
    assert succeeds(RestoreCommand("main"));
    assert versions[1..] == ["1.0.1"];
    assert versions[1..][1..] == [];
    assert Filter(versions, Publisher(succeeds)) == ["1.0.1"];
    assert Filter(versions, Failer(succeeds)) == ["1.0.0"];
  }
}
