/** Report assembly: the upstream families of repositories that no result
    references, and the whole pipeline from manifest and local fonts to the
    sorted results. */
module Report {
  import opened Seqs
  import opened Manifest
  import opened Comparison
  import opened Results
  import opened Sorting

  /** One entry of `unseen_families`. */
  datatype UnseenFamily = UnseenFamily(family: string, repo: string)

  function RepoNames(m: NotoState): set<string>
  {
    set r | r in m :: r.name
  }

  /** `seen_repos` */
  function SeenRepos(results: seq<FamilyReport>): set<string>
  {
    set r | r in results :: r.repoName
  }

  /** `noto_state[name].get("families", {})`: the families of the repository
      with that name. */
  function FamiliesOf(m: NotoState, name: string): seq<Family>
  {
    if m == [] then []
    else if m[0].name == name then m[0].families
    else FamiliesOf(m[1..], name)
  }

  /** The rows the inner loop appends for one repository. */
  function RowsOf(repo: string, families: seq<Family>): seq<UnseenFamily>
  {
    if families == [] then []
    else RowsOf(repo, families[..|families| - 1]) + [UnseenFamily(families[|families| - 1].name, repo)]
  }

  /** The rows appended for the repositories visited in `order`. */
  function UnseenRows(m: NotoState, order: seq<string>): seq<UnseenFamily>
  {
    if order == [] then []
    else UnseenRows(m, order[..|order| - 1]) + RowsOf(order[|order| - 1], FamiliesOf(m, order[|order| - 1]))
  }

  predicate Distinct(s: seq<string>)
  {
    forall i, j :: 0 <= i < j < |s| ==> s[i] != s[j]
  }

  /** `u` names a family of an unseen repository. */
  ghost predicate IsUnseenFamily(m: NotoState, results: seq<FamilyReport>, u: UnseenFamily)
  {
    u.repo in RepoNames(m) - SeenRepos(results) &&
    exists f :: f in FamiliesOf(m, u.repo) && f.name == u.family
  }

  /** The loop over `unseen_repos`. The set is visited in no particular
      order; `order` is the order this run took. */
  method UnseenFamilies(m: NotoState, results: seq<FamilyReport>)
    returns (unseen: seq<UnseenFamily>, ghost order: seq<string>)
    ensures Distinct(order) && (set x | x in order) == RepoNames(m) - SeenRepos(results)
    ensures unseen == UnseenRows(m, order)
    ensures forall u :: u in unseen <==> IsUnseenFamily(m, results, u)
  {
    var remaining := RepoNames(m) - SeenRepos(results);
    unseen, order := [], [];
    while remaining != {}
      invariant Distinct(order)
      invariant (set x | x in order) !! remaining
      invariant (set x | x in order) + remaining == RepoNames(m) - SeenRepos(results)
      invariant unseen == UnseenRows(m, order)
      decreases remaining
    {
      var repoName :| repoName in remaining;
      var families := FamiliesOf(m, repoName);
      ghost var before := unseen;
      for j := 0 to |families|
        invariant unseen == before + RowsOf(repoName, families[..j])
      {
        assert families[..j + 1][..j] == families[..j];
        unseen := unseen + [UnseenFamily(families[j].name, repoName)];
      }
      assert families[..|families|] == families;
      assert (order + [repoName])[..|order|] == order;
      order := order + [repoName];
      remaining := remaining - {repoName};
    }
    forall u ensures u in unseen <==> IsUnseenFamily(m, results, u) {
      UnseenRowsMembers(m, order, u);
    }
  }

  lemma {:induction false} RowsOfMembers(repo: string, families: seq<Family>, u: UnseenFamily)
    ensures u in RowsOf(repo, families) <==> u.repo == repo && exists f :: f in families && f.name == u.family
  {
    if families != [] {
      var init := families[..|families| - 1];
      var last := families[|families| - 1];
      RowsOfMembers(repo, init, u);
      assert families == init + [last];
    }
  }

  lemma {:induction false} UnseenRowsMembers(m: NotoState, order: seq<string>, u: UnseenFamily)
    ensures u in UnseenRows(m, order) <==>
      u.repo in order && exists f :: f in FamiliesOf(m, u.repo) && f.name == u.family
  {
    if order != [] {
      var init := order[..|order| - 1];
      var last := order[|order| - 1];
      UnseenRowsMembers(m, init, u);
      RowsOfMembers(last, FamiliesOf(m, last), u);
      assert order == init + [last];
    }
  }

  /** A repository with at least one result contributes no unseen family,
      even a family of it that matched no local font. */
  lemma SeenRepoHidesFamilies(m: NotoState, results: seq<FamilyReport>, r: FamilyReport, u: UnseenFamily)
    requires r in results && u.repo == r.repoName
    ensures !IsUnseenFamily(m, results, u)
  {
  }

  /** `FamiliesOf` finds the repository of that name. */
  lemma {:induction false} FamiliesOfFinds(m: NotoState, i: nat)
    requires i < |m| && forall j :: 0 <= j < i ==> m[j].name != m[i].name
    ensures FamiliesOf(m, m[i].name) == m[i].families
  {
    if i > 0 {
      FamiliesOfFinds(m[1..], i - 1);
    }
  }

  /** The whole script, from the manifest and the enumerated local fonts to
      the report: `results` sorted by family name, `unseen_families`, and
      the diagnostic lines. `order` is the order in which the unseen
      repositories were visited. */
  method AndroidDiff(m: NotoState, fonts: seq<LocalFont>, parse: Parse, fetch: Fetch)
    returns (results: seq<FamilyReport>, unseen: seq<UnseenFamily>, unmatched: seq<string>, ghost order: seq<string>)
    ensures results == SortByFamily(ReportsOf(fonts, Index(m), parse, fetch))
    ensures unmatched == UnmatchedOf(fonts, Index(m))
    ensures Distinct(order) && (set x | x in order) == RepoNames(m) - SeenRepos(ReportsOf(fonts, Index(m), parse, fetch))
    ensures unseen == UnseenRows(m, order)
    ensures forall u :: u in unseen <==> IsUnseenFamily(m, ReportsOf(fonts, Index(m), parse, fetch), u)
  {
    var index := BuildIndex(m);
    var collected;
    collected, unmatched := CollectResults(fonts, index, parse, fetch);
    unseen, order := UnseenFamilies(m, collected);
    results := SortByFamily(collected);
  }
}
