/** The main loop of the report: every enumerated Android font that passes
    the policy filter and has an upstream counterpart yields one result
    record; one that passes the filter but has no counterpart is reported on
    the diagnostic stream and skipped. */
module Results {
  import opened Seqs
  import opened Strings
  import opened Names
  import opened Manifest
  import opened Comparison
  import opened Activity

  /** One entry of `results`. */
  datatype FamilyReport = FamilyReport(
    familyName: string,
    myFile: string,
    theirVersion: string,
    theirBytesize: nat,
    myBytesize: nat,
    notoVersion: string,
    theirEncodedGlyphs: nat,
    notoEncodedGlyphs: nat,
    newEncoded: nat,
    theirDate: string,
    notoDate: string,
    releaseNotes: seq<ReleaseNote>,
    issueCount: nat,
    issues: seq<Issue>,
    repoName: string,
    vfUpgrade: bool)

  /** The query variable `name`, and `since` built from the local date; the
      owner is always `notofonts`. */
  type Fetch = (string, string) -> Answer

  /** Reading an upstream font file, by its path. */
  type Parse = string -> FontData

  /** The record built for a local font and the index entry it matched. */
  function MakeReport(theirs: LocalFont, e: Entry, mine: FontData, answer: Answer): (r: FamilyReport)
    ensures r.familyName == e.familyName && r.repoName == e.repoName && r.myFile == e.latest
    ensures r.issueCount == |r.issues| && r.issues == KeptIssues(answer.issues, theirs.data.ymd)
    ensures r.theirVersion == theirs.data.version && r.notoVersion == mine.version
    ensures r.theirBytesize == theirs.data.bytesize && r.myBytesize == mine.bytesize
    ensures r.theirDate == theirs.data.ymd && r.notoDate == mine.ymd
    ensures r.theirEncodedGlyphs == |theirs.data.codepoints| && r.notoEncodedGlyphs == |mine.codepoints|
    ensures r.newEncoded == NewEncoded(mine.codepoints, theirs.data.codepoints)
    ensures r.newEncoded + |mine.codepoints * theirs.data.codepoints| == r.notoEncodedGlyphs
    ensures r.newEncoded <= r.notoEncodedGlyphs
    ensures r.releaseNotes == ReleaseNotes(answer.refs, e.repoName, e.familyName, theirs.data.ymd)
    ensures r.newEncoded == 0 <==> mine.codepoints <= theirs.data.codepoints
    ensures r.vfUpgrade <==> !theirs.data.hasFvar && mine.hasFvar
  {
    var issues := KeptIssues(answer.issues, theirs.data.ymd);
    FamilyReport(
      e.familyName,
      e.latest,
      theirs.data.version,
      theirs.data.bytesize,
      mine.bytesize,
      mine.version,
      |theirs.data.codepoints|,
      |mine.codepoints|,
      NewEncoded(mine.codepoints, theirs.data.codepoints),
      theirs.data.ymd,
      mine.ymd,
      ReleaseNotes(answer.refs, e.repoName, e.familyName, theirs.data.ymd),
      |issues|,
      issues,
      e.repoName,
      VfUpgrade(theirs.data.hasFvar, mine.hasFvar))
  }

  /** The local font's join key: its file name, normalised. */
  function LocalKey(f: LocalFont): string
  {
    Normalize(BaseName(f.path))
  }

  /** What one iteration of the loop appends to `results`, if anything. */
  function Outcome(f: LocalFont, index: map<string, Entry>, parse: Parse, fetch: Fetch): Option<FamilyReport>
  {
    if IsSkipped(f.path) then None
    else if LocalKey(f) !in index then None
    else
      var e := index[LocalKey(f)];
      Some(MakeReport(f, e, parse(e.latest), fetch(e.repoName, Since(f.data.ymd))))
  }

  /** `results` after the loop, before sorting. */
  function ReportsOf(fonts: seq<LocalFont>, index: map<string, Entry>, parse: Parse, fetch: Fetch): seq<FamilyReport>
  {
    if fonts == [] then []
    else
      var last := fonts[|fonts| - 1];
      ReportsOf(fonts[..|fonts| - 1], index, parse, fetch) +
        match Outcome(last, index, parse, fetch)
        case Some(r) => [r]
        case None => []
  }

  /** The paths reported as "Can't find my version of ...", in order. */
  function UnmatchedOf(fonts: seq<LocalFont>, index: map<string, Entry>): seq<string>
  {
    if fonts == [] then []
    else
      var last := fonts[|fonts| - 1];
      UnmatchedOf(fonts[..|fonts| - 1], index) +
        if !IsSkipped(last.path) && LocalKey(last) !in index then [last.path] else []
  }

  /** One more enumerated font extends both lists by its own outcome. */
  lemma ReportsOfStep(fonts: seq<LocalFont>, i: nat, index: map<string, Entry>, parse: Parse, fetch: Fetch)
    requires i < |fonts|
    ensures ReportsOf(fonts[..i + 1], index, parse, fetch) == ReportsOf(fonts[..i], index, parse, fetch) +
      match Outcome(fonts[i], index, parse, fetch)
      case Some(r) => [r]
      case None => []
    ensures UnmatchedOf(fonts[..i + 1], index) == UnmatchedOf(fonts[..i], index) +
      if !IsSkipped(fonts[i].path) && LocalKey(fonts[i]) !in index then [fonts[i].path] else []
  {
    assert fonts[..i + 1][..i] == fonts[..i];
  }

  /** The loop over the enumerated local fonts. The diagnostic lines it
      prints are returned as `unmatched`. */
  method CollectResults(fonts: seq<LocalFont>, index: map<string, Entry>, parse: Parse, fetch: Fetch)
    returns (results: seq<FamilyReport>, unmatched: seq<string>)
    ensures results == ReportsOf(fonts, index, parse, fetch)
    ensures unmatched == UnmatchedOf(fonts, index)
  {
    results, unmatched := [], [];
    for i := 0 to |fonts|
      invariant results == ReportsOf(fonts[..i], index, parse, fetch)
      invariant unmatched == UnmatchedOf(fonts[..i], index)
    {
      var theirFont := fonts[i];
      ReportsOfStep(fonts, i, index, parse, fetch);
      if IsSkipped(theirFont.path) {
        continue;
      }
      var base := RemoveSuffixes(BaseName(theirFont.path));
      if base !in index {
        unmatched := unmatched + [theirFont.path];
        continue;
      }
      var entry := index[base];
      var mine := parse(entry.latest);
      var answer := fetch(entry.repoName, Since(theirFont.data.ymd));
      results := results + [MakeReport(theirFont, entry, mine, answer)];
    }
    assert fonts[..|fonts|] == fonts;
  }

  /** An iteration appends a result exactly when the font passes the filter
      (its path contains `Noto` and neither `UI` nor `Bold`) and its
      normalised name is a key of the index; the result is then the record
      for that index entry, the upstream file it names and the query answer
      for its repository. */
  lemma OutcomeSpec(f: LocalFont, index: map<string, Entry>, parse: Parse, fetch: Fetch)
    ensures Outcome(f, index, parse, fetch).Some? <==>
      Contains(f.path, "Noto") && !Contains(f.path, "UI") && !Contains(f.path, "Bold") && LocalKey(f) in index
    ensures Outcome(f, index, parse, fetch).Some? ==>
      var e := index[LocalKey(f)];
      Outcome(f, index, parse, fetch).value == MakeReport(f, e, parse(e.latest), fetch(e.repoName, Since(f.data.ymd)))
  {
  }

  /** Each enumerated font contributes at most one result or one diagnostic,
      never both. */
  lemma {:induction false} ReportsBound(fonts: seq<LocalFont>, index: map<string, Entry>, parse: Parse, fetch: Fetch)
    ensures |ReportsOf(fonts, index, parse, fetch)| + |UnmatchedOf(fonts, index)| <= |fonts|
  {
    if fonts != [] {
      ReportsBound(fonts[..|fonts| - 1], index, parse, fetch);
    }
  }

  /** Every result comes from some enumerated font. */
  lemma {:induction false} ReportsSound(fonts: seq<LocalFont>, index: map<string, Entry>, parse: Parse, fetch: Fetch, r: FamilyReport)
    requires r in ReportsOf(fonts, index, parse, fetch)
    ensures exists f :: f in fonts && Outcome(f, index, parse, fetch) == Some(r)
  {
    var init := fonts[..|fonts| - 1];
    var last := fonts[|fonts| - 1];
    if Outcome(last, index, parse, fetch) == Some(r) {
      assert last in fonts;
    } else {
      ReportsSound(init, index, parse, fetch, r);
      var f :| f in init && Outcome(f, index, parse, fetch) == Some(r);
      assert f in fonts;
    }
  }

  /** Every enumerated font that yields a result has it in the list. */
  lemma {:induction false} ReportsComplete(fonts: seq<LocalFont>, index: map<string, Entry>, parse: Parse, fetch: Fetch, f: LocalFont)
    requires f in fonts && Outcome(f, index, parse, fetch).Some?
    ensures Outcome(f, index, parse, fetch).value in ReportsOf(fonts, index, parse, fetch)
  {
    var init := fonts[..|fonts| - 1];
    var last := fonts[|fonts| - 1];
    if f != last {
      assert fonts == init + [last];
      ReportsComplete(init, index, parse, fetch, f);
    }
  }
}
