/** Upstream activity for one family: the closed issues and the tag
    references the GitHub GraphQL query returns, filtered locally to what
    happened strictly after the local font's modification date. */
module Activity {
  import opened Seqs
  import opened Strings

  /** An issue node; `closedAt` may be missing from the node. */
  datatype Issue = Issue(title: string, number: int, url: string, closedAt: Option<string>)

  /** A tag reference node. `message` is present when the reference points at
      an annotated tag; `commit` is present when that tag points at a commit,
      and its `committedDate` may still be missing. */
  datatype TagRef = TagRef(name: string, message: Option<string>, commit: Option<CommitNode>)

  datatype CommitNode = CommitNode(committedDate: Option<string>)

  /** The two node lists of the query's answer. */
  datatype Answer = Answer(issues: seq<Issue>, refs: seq<TagRef>)

  datatype ReleaseNote = ReleaseNote(version: string, notes: string, url: string)

  /** The threshold timestamp: midnight UTC at the start of the local font's
      modification day, in ISO 8601 extended format. */
  function Since(ymd: string): string
  {
    ymd + "T00:00:00Z"
  }

  function ClosedAt(i: Issue): string
  {
    i.closedAt.GetOr("")
  }

  /** `x.get("closedAt", "") > since`, as a string comparison. */
  function ClosedAfter(since: string): Issue -> bool
  {
    (i: Issue) => LexLess(since, ClosedAt(i))
  }

  /** The issue list comprehension: closed strictly after the threshold. */
  function KeptIssues(issues: seq<Issue>, ymd: string): seq<Issue>
  {
    Filter(issues, ClosedAfter(Since(ymd)))
  }

  /** `release["target"].get("target", {}).get("committedDate", "")` */
  function CommittedDate(r: TagRef): string
  {
    match r.commit
    case Some(c) => c.committedDate.GetOr("")
    case None => ""
  }

  /** `family_name.replace(" ", "")` */
  function Splatted(family: string): string
  {
    RemoveSpaces(family)
  }

  /** The release-note comprehension's condition. */
  function IsRelease(since: string, family: string): TagRef -> bool
  {
    (r: TagRef) => LexLess(since, CommittedDate(r)) && Contains(r.name, Splatted(family) + "-")
  }

  const GitHubOrg: string := "https://github.com/notofonts/"

  function NoteOf(repo: string): TagRef -> ReleaseNote
  {
    (r: TagRef) => ReleaseNote(r.name, r.message.GetOr(""), GitHubOrg + repo + "/releases/tag/" + r.name)
  }

  /** `release_notes`: one note per relevant tag, in the order of the tags. */
  function ReleaseNotes(refs: seq<TagRef>, repo: string, family: string, ymd: string): seq<ReleaseNote>
  {
    MapSeq(Filter(refs, IsRelease(Since(ymd), family)), NoteOf(repo))
  }

  /** The kept issues are exactly the issues closed strictly after the
      threshold, in their original order: a subsequence that keeps every such
      issue as often as it occurs and no other. */
  lemma KeptIssuesSpec(issues: seq<Issue>, ymd: string)
    ensures IsSubsequence(KeptIssues(issues, ymd), issues)
    ensures forall i :: i in KeptIssues(issues, ymd) ==> LexLess(Since(ymd), ClosedAt(i))
    ensures forall i :: multiset(KeptIssues(issues, ymd))[i] ==
                        (if LexLess(Since(ymd), ClosedAt(i)) then multiset(issues)[i] else 0)
  {
    var p := ClosedAfter(Since(ymd));
    FilterIsSubsequence(issues, p);
    FilterMembers(issues, p);
    forall i ensures multiset(Filter(issues, p))[i] == if p(i) then multiset(issues)[i] else 0 {
      FilterCount(issues, p, i);
    }
  }

  /** An issue without `closedAt` is never kept. */
  lemma MissingClosedAtExcluded(issues: seq<Issue>, ymd: string, i: Issue)
    requires i.closedAt == None
    ensures i !in KeptIssues(issues, ymd)
  {
    FilterMembers(issues, ClosedAfter(Since(ymd)));
  }

  /** The comparison is strict: an issue closed exactly at the threshold is
      dropped, one closed a second later is kept. */
  lemma ThresholdIsStrict(ymd: string)
    ensures !LexLess(Since(ymd), Since(ymd))
    ensures LexLess(Since(ymd), ymd + "T00:00:01Z")
  {
    LexIrreflexive(Since(ymd));
    LexCommonPrefix(ymd, "T00:00:00Z", "T00:00:01Z");
    assert LexLess("T00:00:00Z", "T00:00:01Z");
  }

  /** A note is produced exactly for the tags committed strictly after the
      threshold whose name contains the family name without spaces followed
      by `-`, in the order of the tags (the kept tags are characterised as in
      `KeptIssuesSpec`); each note carries the tag's name, its message (empty
      when missing) and its release URL. */
  lemma ReleaseNotesSpec(refs: seq<TagRef>, repo: string, family: string, ymd: string)
    ensures var kept := Filter(refs, IsRelease(Since(ymd), family));
      var notes := ReleaseNotes(refs, repo, family, ymd);
      && IsSubsequence(kept, refs)
      && (forall r :: multiset(kept)[r] ==
                      (if IsRelease(Since(ymd), family)(r) then multiset(refs)[r] else 0))
      && |notes| == |kept|
      && (forall k :: 0 <= k < |kept| ==>
            notes[k] == ReleaseNote(kept[k].name, kept[k].message.GetOr(""),
                                    GitHubOrg + repo + "/releases/tag/" + kept[k].name))
  {
    var p := IsRelease(Since(ymd), family);
    FilterIsSubsequence(refs, p);
    forall r ensures multiset(Filter(refs, p))[r] == if p(r) then multiset(refs)[r] else 0 {
      FilterCount(refs, p, r);
    }
  }

  /** A tag with no commit date is never a release note. */
  lemma UndatedTagExcluded(refs: seq<TagRef>, repo: string, family: string, ymd: string, r: TagRef)
    requires r.commit == None || r.commit.value.committedDate == None
    ensures !IsRelease(Since(ymd), family)(r)
  {
  }
}
