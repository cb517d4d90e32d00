/** The upstream manifest (`noto.json`) and the index built from it: for
    every unhinted distributable file, its normalised name maps to the file,
    its repository and its family. */
module Manifest {
  import opened Seqs
  import opened Strings
  import opened Names

  /** One family of a repository: its `files.unhinted` paths, in file order. */
  datatype Family = Family(name: string, unhinted: seq<string>)

  /** One repository of the manifest with its families in JSON object order;
      a repository without a `families` key has none. */
  datatype Repo = Repo(name: string, families: seq<Family>)

  /** The manifest: repositories in JSON object order. */
  type NotoState = seq<Repo>

  /** What the index records for a normalised name. */
  datatype Entry = Entry(latest: string, repoName: string, familyName: string)

  const SlimMarker: string := "slim-variable-ttf"

  /** The directory the manifest's paths are relative to. */
  const SiteRoot: string := "notofonts.github.io"

  predicate IsSlim(path: string)
  {
    Contains(path, SlimMarker)
  }

  /** `any("slim-variable-ttf" in x for x in files)` */
  predicate HasSlim(files: seq<string>)
  {
    files != [] && (IsSlim(files[0]) || HasSlim(files[1..]))
  }

  /** The slim-variable preference: with more than one unhinted file and some
      slim-variable one among them, only the slim-variable files are kept. */
  function PreferSlim(unhinted: seq<string>): seq<string>
  {
    if |unhinted| > 1 && HasSlim(unhinted) then Filter(unhinted, IsSlim) else unhinted
  }

  /** `Path("notofonts.github.io") / file` */
  function LatestPath(file: string): string
  {
    SiteRoot + "/" + file
  }

  /** The index key of a manifest file. */
  function KeyOf(file: string): string
  {
    Normalize(BaseName(file))
  }

  function EntryOf(repo: string, family: string, file: string): (string, Entry)
  {
    (KeyOf(file), Entry(LatestPath(file), repo, family))
  }

  /** The assignments the innermost loop makes for one family, in order. */
  function FileEntries(repo: string, family: string, files: seq<string>): seq<(string, Entry)>
  {
    if files == [] then []
    else FileEntries(repo, family, files[..|files| - 1]) + [EntryOf(repo, family, files[|files| - 1])]
  }

  /** The assignments made for the families of one repository, in order. */
  function FamilyEntries(repo: string, families: seq<Family>): seq<(string, Entry)>
  {
    if families == [] then []
    else
      var f := families[|families| - 1];
      FamilyEntries(repo, families[..|families| - 1]) + FileEntries(repo, f.name, PreferSlim(f.unhinted))
  }

  /** Every assignment the nested loops make, in iteration order. */
  function StateEntries(m: NotoState): seq<(string, Entry)>
  {
    if m == [] then []
    else
      var r := m[|m| - 1];
      StateEntries(m[..|m| - 1]) + FamilyEntries(r.name, r.families)
  }

  /** A dictionary filled by assigning `d[k] = v` for each pair in turn. */
  function MapOf(pairs: seq<(string, Entry)>): map<string, Entry>
  {
    if pairs == [] then map[]
    else
      var p := pairs[|pairs| - 1];
      MapOf(pairs[..|pairs| - 1])[p.0 := p.1]
  }

  /** `android_equivalent` after the loops. */
  function Index(m: NotoState): map<string, Entry>
  {
    MapOf(StateEntries(m))
  }

  lemma MapOfSnoc(pairs: seq<(string, Entry)>, p: (string, Entry))
    ensures MapOf(pairs + [p]) == MapOf(pairs)[p.0 := p.1]
  {
    assert (pairs + [p])[..|pairs|] == pairs;
  }

  lemma FileEntriesSnoc(repo: string, family: string, files: seq<string>, k: nat)
    requires k < |files|
    ensures FileEntries(repo, family, files[..k + 1]) == FileEntries(repo, family, files[..k]) + [EntryOf(repo, family, files[k])]
  {
    assert files[..k + 1][..k] == files[..k];
  }

  lemma FamilyEntriesSnoc(repo: string, families: seq<Family>, j: nat)
    requires j < |families|
    ensures FamilyEntries(repo, families[..j + 1])
         == FamilyEntries(repo, families[..j]) + FileEntries(repo, families[j].name, PreferSlim(families[j].unhinted))
  {
    assert families[..j + 1][..j] == families[..j];
  }

  lemma StateEntriesSnoc(m: NotoState, i: nat)
    requires i < |m|
    ensures StateEntries(m[..i + 1]) == StateEntries(m[..i]) + FamilyEntries(m[i].name, m[i].families)
  {
    assert m[..i + 1][..i] == m[..i];
  }

  lemma AppendAssoc<T>(a: seq<T>, b: seq<T>, c: seq<T>)
    ensures a + (b + c) == (a + b) + c
  {
  }

  /** The innermost loop: the assignments for the kept files of one family,
      made on a dictionary that already holds the assignments `before`. */
  method IndexFamily(index: map<string, Entry>, ghost before: seq<(string, Entry)>, repoName: string, family: Family)
    returns (r: map<string, Entry>)
    requires index == MapOf(before)
    ensures r == MapOf(before + FileEntries(repoName, family.name, PreferSlim(family.unhinted)))
  {
    var unhinted := PreferSlim(family.unhinted);
    r := index;
    assert unhinted[..0] == [] && before + [] == before;
    for k := 0 to |unhinted|
      invariant r == MapOf(before + FileEntries(repoName, family.name, unhinted[..k]))
    {
      var key := RemoveSuffixes(BaseName(unhinted[k]));
      ghost var e := EntryOf(repoName, family.name, unhinted[k]);
      ghost var sofar := FileEntries(repoName, family.name, unhinted[..k]);
      MapOfSnoc(before + sofar, e);
      FileEntriesSnoc(repoName, family.name, unhinted, k);
      AppendAssoc(before, sofar, [e]);
      r := r[key := Entry(LatestPath(unhinted[k]), repoName, family.name)];
    }
    assert unhinted[..|unhinted|] == unhinted;
  }

  /** The loop over the families of one repository. */
  method IndexRepo(index: map<string, Entry>, ghost before: seq<(string, Entry)>, repo: Repo)
    returns (r: map<string, Entry>)
    requires index == MapOf(before)
    ensures r == MapOf(before + FamilyEntries(repo.name, repo.families))
  {
    r := index;
    assert repo.families[..0] == [] && before + [] == before;
    for j := 0 to |repo.families|
      invariant r == MapOf(before + FamilyEntries(repo.name, repo.families[..j]))
    {
      ghost var fams := FamilyEntries(repo.name, repo.families[..j]);
      var family := repo.families[j];
      r := IndexFamily(r, before + fams, repo.name, family);
      FamilyEntriesSnoc(repo.name, repo.families, j);
      AppendAssoc(before, fams, FileEntries(repo.name, family.name, PreferSlim(family.unhinted)));
    }
    assert repo.families[..|repo.families|] == repo.families;
  }

  /** The loops that fill `android_equivalent`. */
  method BuildIndex(m: NotoState) returns (index: map<string, Entry>)
    ensures index == Index(m)
  {
    index := map[];
    for i := 0 to |m|
      invariant index == MapOf(StateEntries(m[..i]))
    {
      index := IndexRepo(index, StateEntries(m[..i]), m[i]);
      StateEntriesSnoc(m, i);
    }
    assert m[..|m|] == m;
  }

  lemma {:induction false} SlimIndex(files: seq<string>) returns (i: nat)
    requires HasSlim(files)
    ensures i < |files| && IsSlim(files[i])
  {
    if IsSlim(files[0]) {
      i := 0;
    } else {
      var j := SlimIndex(files[1..]);
      i := j + 1;
    }
  }

  /** The preference keeps exactly the slim-variable files, in their order
      (the count equation with the subsequence relation determines the list),
      and at least one of them; without a slim file, or with a single file,
      the list is untouched. */
  lemma PreferSlimSpec(unhinted: seq<string>)
    ensures |unhinted| > 1 && HasSlim(unhinted) ==>
      var kept := PreferSlim(unhinted);
      && kept != []
      && IsSubsequence(kept, unhinted)
      && (forall x :: x in kept ==> IsSlim(x))
      && (forall x :: multiset(kept)[x] == if IsSlim(x) then multiset(unhinted)[x] else 0)
    ensures !(|unhinted| > 1 && HasSlim(unhinted)) ==> PreferSlim(unhinted) == unhinted
  {
    if |unhinted| > 1 && HasSlim(unhinted) {
      var i := SlimIndex(unhinted);
      FilterKeeps(unhinted, IsSlim, unhinted[i]);
      FilterIsSubsequence(unhinted, IsSlim);
      FilterMembers(unhinted, IsSlim);
      forall x ensures multiset(Filter(unhinted, IsSlim))[x] == if IsSlim(x) then multiset(unhinted)[x] else 0 {
        FilterCount(unhinted, IsSlim, x);
      }
    }
  }

  /** A key is in the dictionary exactly when some assignment used it. */
  lemma {:induction false} MapOfKeys(pairs: seq<(string, Entry)>, k: string)
    ensures k in MapOf(pairs) <==> exists i :: 0 <= i < |pairs| && pairs[i].0 == k
  {
    if pairs != [] {
      var init := pairs[..|pairs| - 1];
      MapOfKeys(init, k);
      if exists i :: 0 <= i < |init| && init[i].0 == k {
        var i :| 0 <= i < |init| && init[i].0 == k;
        assert pairs[i] == init[i];
      }
      if exists i :: 0 <= i < |pairs| && pairs[i].0 == k {
        var i :| 0 <= i < |pairs| && pairs[i].0 == k;
        if i < |init| {
          assert init[i] == pairs[i];
        }
      }
    }
  }

  /** The last assignment to a key is the one that stays: a later file whose
      name normalises to the same key overwrites an earlier one. */
  lemma {:induction false} MapOfLastWins(pairs: seq<(string, Entry)>, i: nat)
    requires i < |pairs|
    requires forall j :: i < j < |pairs| ==> pairs[j].0 != pairs[i].0
    ensures pairs[i].0 in MapOf(pairs) && MapOf(pairs)[pairs[i].0] == pairs[i].1
  {
    var init := pairs[..|pairs| - 1];
    if i < |pairs| - 1 {
      assert forall j :: i < j < |init| ==> init[j] == pairs[j];
      MapOfLastWins(init, i);
      assert init[i] == pairs[i];
    }
  }

  /** The value stored under a key comes from one of the assignments. */
  lemma {:induction false} MapOfValue(pairs: seq<(string, Entry)>, k: string)
    requires k in MapOf(pairs)
    ensures (k, MapOf(pairs)[k]) in pairs
  {
    var init := pairs[..|pairs| - 1];
    var p := pairs[|pairs| - 1];
    if p.0 != k {
      MapOfValue(init, k);
      assert forall q :: q in init ==> q in pairs;
    }
  }

  /** `p` is what the innermost loop assigns for some kept file of `f`. */
  ghost predicate FromFamily(repo: string, f: Family, p: (string, Entry))
  {
    exists file :: file in PreferSlim(f.unhinted) && p == EntryOf(repo, f.name, file)
  }

  ghost predicate FromFamilies(repo: string, families: seq<Family>, p: (string, Entry))
  {
    exists f :: f in families && FromFamily(repo, f, p)
  }

  /** `key` and `e` are what the loops assign for some kept file of some
      family of some repository of `m`. */
  ghost predicate FromManifest(m: NotoState, key: string, e: Entry)
  {
    exists r :: r in m && FromFamilies(r.name, r.families, (key, e))
  }

  lemma {:induction false} FileEntriesSound(repo: string, family: string, files: seq<string>, p: (string, Entry))
    requires p in FileEntries(repo, family, files)
    ensures exists file :: file in files && p == EntryOf(repo, family, file)
  {
    var init := files[..|files| - 1];
    var last := files[|files| - 1];
    if p != EntryOf(repo, family, last) {
      FileEntriesSound(repo, family, init, p);
      var file :| file in init && p == EntryOf(repo, family, file);
      assert file in files;
    }
  }

  lemma {:induction false} FileEntriesComplete(repo: string, family: string, files: seq<string>, file: string)
    requires file in files
    ensures EntryOf(repo, family, file) in FileEntries(repo, family, files)
  {
    var init := files[..|files| - 1];
    if file != files[|files| - 1] {
      assert files == init + [files[|files| - 1]];
      FileEntriesComplete(repo, family, init, file);
    }
  }

  lemma {:induction false} FamilyEntriesSound(repo: string, families: seq<Family>, p: (string, Entry))
    requires p in FamilyEntries(repo, families)
    ensures FromFamilies(repo, families, p)
  {
    var init := families[..|families| - 1];
    var last := families[|families| - 1];
    var files := PreferSlim(last.unhinted);
    if p in FileEntries(repo, last.name, files) {
      FileEntriesSound(repo, last.name, files, p);
      assert FromFamily(repo, last, p);
      assert last in families;
    } else {
      FamilyEntriesSound(repo, init, p);
      var f :| f in init && FromFamily(repo, f, p);
      assert f in families;
    }
  }

  lemma {:induction false} FamilyEntriesComplete(repo: string, families: seq<Family>, f: Family, file: string)
    requires f in families && file in PreferSlim(f.unhinted)
    ensures EntryOf(repo, f.name, file) in FamilyEntries(repo, families)
  {
    var init := families[..|families| - 1];
    var last := families[|families| - 1];
    if f == last {
      FileEntriesComplete(repo, f.name, PreferSlim(f.unhinted), file);
    } else {
      assert families == init + [last];
      FamilyEntriesComplete(repo, init, f, file);
    }
  }

  lemma {:induction false} StateEntriesSound(m: NotoState, p: (string, Entry))
    requires p in StateEntries(m)
    ensures FromManifest(m, p.0, p.1)
  {
    var init := m[..|m| - 1];
    var last := m[|m| - 1];
    if p in FamilyEntries(last.name, last.families) {
      FamilyEntriesSound(last.name, last.families, p);
      assert last in m;
    } else {
      StateEntriesSound(init, p);
      var r :| r in init && FromFamilies(r.name, r.families, (p.0, p.1));
      assert r in m;
    }
  }

  lemma {:induction false} StateEntriesComplete(m: NotoState, r: Repo, f: Family, file: string)
    requires r in m && f in r.families && file in PreferSlim(f.unhinted)
    ensures EntryOf(r.name, f.name, file) in StateEntries(m)
  {
    var init := m[..|m| - 1];
    var last := m[|m| - 1];
    if r == last {
      FamilyEntriesComplete(r.name, r.families, f, file);
    } else {
      assert m == init + [last];
      StateEntriesComplete(init, r, f, file);
    }
  }

  /** Every entry of the index records a kept file of the manifest together
      with that file's repository and family, under the file's normalised
      name. */
  lemma IndexSound(m: NotoState, key: string)
    requires key in Index(m)
    ensures FromManifest(m, key, Index(m)[key])
  {
    MapOfValue(StateEntries(m), key);
    StateEntriesSound(m, (key, Index(m)[key]));
  }

  /** Every kept file of the manifest is reachable through its normalised name. */
  lemma IndexComplete(m: NotoState, r: Repo, f: Family, file: string)
    requires r in m && f in r.families && file in PreferSlim(f.unhinted)
    ensures KeyOf(file) in Index(m)
  {
    var p := EntryOf(r.name, f.name, file);
    StateEntriesComplete(m, r, f, file);
    var pairs := StateEntries(m);
    var i :| 0 <= i < |pairs| && pairs[i] == p;
    MapOfKeys(pairs, p.0);
  }
}
