# android-diff, modelled in Dafny

`src/data/android-diff.json.py` compares the Noto fonts in an Android system image with their upstream releases and prints a JSON report. This project models the data transformation inside that script and proves properties of it. The I/O calls on either side are not part of the model. The steps are:

- **Name normalisation** (`remove_suffixes`). Known extension and style suffixes are stripped in one pass over a fixed list. This is `Names`.
- **Manifest index.** `noto.json` maps repository → family → `files.unhinted`. From it the script builds a dictionary from each file's normalised name to `{latest, repo_name, family_name}`. When a family has several unhinted files and some are slim-variable, only those are kept. This is `Manifest`.
- **Candidate selection and join.** Each enumerated Android font whose path contains `Noto`, and neither `UI` nor `Bold`, is looked up by its normalised name. A font that is not found is reported on the diagnostic stream and skipped. This is `Results`, with the filter in `Comparison`.
- **Per-pair comparison.** This builds the result record. `new_encoded` is the number of upstream codepoints missing locally. `vf_upgrade` means the local font is static and upstream is variable. This is `Comparison` and `Results.MakeReport`.
- **Upstream activity.** The closed issues and tag references from the GraphQL query are filtered locally. Both filters use a strict string comparison against `<ymd>T00:00:00Z`. Tags must also contain `<family without spaces>-` in their name. This is `Activity`.
- **Report assembly.** The unseen families are the families of every manifest repository that no result references. The results are stably sorted by family name. This is `Report` and `Sorting`.

`Seqs` holds `Option` (for `dict.get` with a default) and order-preserving filtering (for list comprehensions). `Strings` holds the Python string operations the script uses. One of them is Python's ordering of `str`, which is code-point lexicographic. Dafny's own `<` on sequences means "proper prefix", so it cannot stand in for it.

The imperative parts of the script are modelled as methods with loops. Each method is proved equal to a specification function, and the properties are proved about those functions:

- `RemoveSuffixes` reassigns the name once per suffix.
- `BuildIndex` has the three nested loops that fill the dictionary.
- `CollectResults` appends to `results`.
- `UnseenFamilies` appends to `unseen_families`.

The pure parts are functions: the slim-variable filter, the issue and release-note comprehensions, `new_encoded`, `vf_upgrade` and `sorted`. `Report.AndroidDiff` chains the steps in the script's order.

Three details of the code that the model keeps:

- Several suffixes can come off in one pass, because every suffix of the list is tried in turn against the current name. `NotoSans-Regular.ttf` becomes `NotoSans`; see `Names.NormalizeStripsSeveral`.
- The Noto/UI/Bold test looks at `str(their_font)`, the whole path with its directory, so `Comparison.IsSkipped` is applied to the full path. Only the join key uses the file name.
- The tag-name test accepts `<family without spaces>-` anywhere in the tag name.

## Model

| member | source | states |
|---|---|---|
| `Names.RemoveSuffixes` | src/data/android-diff.json.py:71-75 | the loop computes the one-pass normalisation `Normalize`, and its result is a prefix of the input |
| `Names.NormalizeIsPrefix` | src/data/android-diff.json.py:71-75 | the normalised name is always a prefix of the file name |
| `Names.NormalizeUnchanged` | src/data/android-diff.json.py:71-75 | a name ending in none of `.ttf`, `.otf`, `-Regular`, `-Bold`, `-Italic`, `-VF`, `[wght]` comes back unchanged |
| `Names.StripInOrderAppend` | src/data/android-diff.json.py:72-74 | a pass over a list is a pass over each part of it in turn: each suffix is tried exactly once, in list order, against the name as the earlier suffixes left it |
| `Names.NormalizeStripsSeveral` | src/data/android-diff.json.py:71-75 | one pass can strip more than one suffix: `NotoSans-Regular.ttf` becomes `NotoSans` |
| `Names.NormalizeOrderDependent` | src/data/android-diff.json.py:72 | the result depends on list order: `NotoSans.ttf-Regular` becomes `NotoSans.ttf`, because `.ttf` was tried before `-Regular` came off |
| `Names.NormalizeStripsExtension` | src/data/android-diff.json.py:72-74 | `NotoSans.ttf` becomes `NotoSans` |
| `Names.NormalizeNotIdempotent` | src/data/android-diff.json.py:71-75 | normalisation is not idempotent: some name normalises further when normalised again |
| `Strings.DropLast` | src/data/android-diff.json.py:74 | Python's slice `s[:-n]` gives a prefix of `s`, and for `0 < n <= len(s)` one that is `n` characters shorter |
| `Strings.BaseName` | src/data/android-diff.json.py:89 | `Path(p).name` contains no `/`, ends `p`, and is either all of `p` or preceded in `p` by a `/` |
| `Strings.RemoveSpaces` | src/data/android-diff.json.py:153 | `replace(" ", "")` leaves no space and keeps the other characters in their order, each as often as it occurred |
| `Strings.LexIrreflexive` | src/data/android-diff.json.py:150 | `LexLess`, Python's `<` on `str`: a string is never strictly greater than itself, so `>` against the threshold is strict |
| `Strings.LexTransitive` | src/data/android-diff.json.py:204 | string order is transitive |
| `Strings.LexTotal` | src/data/android-diff.json.py:204 | any two different strings are ordered one way or the other |
| `Strings.LexNotLessTransitive` | src/data/android-diff.json.py:204 | "not greater" is transitive, which the sorted order relies on |
| `Strings.LexCommonPrefix` | src/data/android-diff.json.py:150 | a shared prefix (the same date) does not affect the comparison of two timestamps |
| `Manifest.PreferSlimSpec` | src/data/android-diff.json.py:84-86 | `PreferSlim`: with more than one unhinted file and some slim-variable one, the kept list is non-empty and holds only slim-variable paths; it is the subsequence of the input that keeps each slim-variable path exactly as often as it occurs; otherwise the list is unchanged |
| `Manifest.SlimIndex` | src/data/android-diff.json.py:85 | when `any(...)` holds, some unhinted path contains the slim-variable marker |
| `Manifest.IndexFamily` | src/data/android-diff.json.py:83-93 | the innermost loop performs one family's assignments, in file order, on top of those already made |
| `Manifest.IndexRepo` | src/data/android-diff.json.py:82-93 | the loop over a repository's families performs their assignments, in family order, on top of those already made |
| `Manifest.BuildIndex` | src/data/android-diff.json.py:81-93 | the nested loops build exactly the dictionary obtained by assigning each kept file's entry in iteration order (repository, then family, then file) |
| `Manifest.MapOfKeys` | src/data/android-diff.json.py:89 | a name is a key of the index exactly when some assignment used it |
| `Manifest.MapOfLastWins` | src/data/android-diff.json.py:88-93 | when several files normalise to the same key, the last assignment in iteration order is the one kept |
| `Manifest.MapOfValue` | src/data/android-diff.json.py:89-93 | every stored entry is one of the assigned entries |
| `Manifest.IndexSound` | src/data/android-diff.json.py:81-93 | every key of the index is the normalised base name of a kept file of some family of some repository; its entry records that file under the site root, with that repository and family |
| `Manifest.IndexComplete` | src/data/android-diff.json.py:81-93 | every kept file of every family is reachable in the index through its normalised name |
| `Manifest.StateEntriesSound` | src/data/android-diff.json.py:81-89 | every assignment the loops make comes from a kept file of the manifest |
| `Manifest.StateEntriesComplete` | src/data/android-diff.json.py:81-89 | every kept file of the manifest gets an assignment |
| `Comparison.NewEncoded` | src/data/android-diff.json.py:111-116 | `new_encoded` together with the codepoints both fonts encode makes up the upstream count, so it is at most `noto_encoded_glyphs`; it is 0 exactly when upstream coverage is contained in local coverage |
| `Comparison.CoverageSplit` | src/data/android-diff.json.py:113-116 | upstream coverage splits into the codepoints missing locally and those shared |
| `Comparison.NewEncodedCountsMissing` | src/data/android-diff.json.py:113-116 | a codepoint that upstream has and local lacks adds exactly one to `new_encoded` |
| `Comparison.NewEncodedIgnoresShared` | src/data/android-diff.json.py:113-116 | a codepoint present on both sides does not change `new_encoded` |
| `Results.MakeReport` | src/data/android-diff.json.py:108-194 | the record carries the entry's family, repository and file; the Android font's version, byte size and date go to the `their_*` fields and the upstream font's to `noto_version`, `my_bytesize` and `noto_date`; both glyph counts are the sizes of the two codepoint sets; `new_encoded` is the count of upstream codepoints missing locally (so with the shared count it makes up `noto_encoded_glyphs`, and it is 0 exactly when upstream coverage is contained locally); `release_notes` are the notes of the release filter, characterised by `Activity.ReleaseNotesSpec`; `issue_count` equals the number of kept issues; `vf_upgrade` (`Comparison.VfUpgrade`) holds exactly when the local font has no `fvar` and upstream has one |
| `Results.CollectResults` | src/data/android-diff.json.py:95-194 | the loop builds exactly the results and the diagnostic lines that the per-font outcomes give, in enumeration order |
| `Results.OutcomeSpec` | src/data/android-diff.json.py:97-110 | `Outcome`: a font yields a result exactly when its path (`Comparison.IsSkipped`, with `Strings.Contains` for `in`) contains `Noto`, neither `UI` nor `Bold`, and its normalised name is an index key; the result is built from that entry, its upstream file and the query for its repository since the local date |
| `Results.ReportsBound` | src/data/android-diff.json.py:96-106 | the results plus the diagnostic lines number at most the enumerated fonts |
| `Results.ReportsSound` | src/data/android-diff.json.py:96-106 | every result is the outcome of some enumerated font |
| `Results.ReportsComplete` | src/data/android-diff.json.py:96-106 | every enumerated font with an outcome has that outcome among the results |
| `Activity.KeptIssuesSpec` | src/data/android-diff.json.py:149-150 | `KeptIssues`: the kept issues are the order-preserving subsequence of all issues whose `closedAt` is strictly greater than `<ymd>T00:00:00Z`, each kept as often as it occurs |
| `Activity.MissingClosedAtExcluded` | src/data/android-diff.json.py:150 | an issue without `closedAt` (defaulting to `""`) is never kept |
| `Activity.ThresholdIsStrict` | src/data/android-diff.json.py:146-150 | an issue closed exactly at `<ymd>T00:00:00Z` is excluded and one closed at `<ymd>T00:00:01Z` is kept |
| `Activity.ReleaseNotesSpec` | src/data/android-diff.json.py:151-165 | `ReleaseNotes`: a note is produced for exactly the tags committed strictly after the threshold whose name contains the space-free family name followed by `-`, in tag order; each note has the tag name, its message or `""`, and its release URL |
| `Activity.UndatedTagExcluded` | src/data/android-diff.json.py:162-163 | a tag with no commit date (defaulting to `""`) is never a release note |
| `Report.UnseenFamilies` | src/data/android-diff.json.py:196-202 | the loop visits each unseen repository once, in some order, and appends its families; the rows are exactly the families of manifest repositories that no result references |
| `Report.RowsOfMembers` | src/data/android-diff.json.py:201-202 | the inner loop appends a row for exactly the families of the repository |
| `Report.UnseenRowsMembers` | src/data/android-diff.json.py:199-202 | the rows name exactly the families of the visited repositories |
| `Report.SeenRepoHidesFamilies` | src/data/android-diff.json.py:196-197 | no family of a repository with at least one result is unseen, even if that family matched no local font |
| `Report.FamiliesOfFinds` | src/data/android-diff.json.py:200-201 | looking a repository up by name finds its families |
| `Report.AndroidDiff` | src/data/android-diff.json.py:78-204 | the pipeline produces the sorted results of the loop over the index and the diagnostic lines; `unseen_families` holds the rows of each unseen repository, each one visited once, so it contains exactly the unseen families |
| `Sorting.InsertPermutes` | src/data/android-diff.json.py:204 | an insertion step adds the element and loses none |
| `Sorting.InsertSorted` | src/data/android-diff.json.py:204 | an insertion step keeps the list ordered by family name |
| `Sorting.InsertStable` | src/data/android-diff.json.py:204 | an insertion step places the element after every element with the same family name |
| `Sorting.SortPermutes` | src/data/android-diff.json.py:204 | the sorted results are a permutation of the collected results |
| `Sorting.SortSorted` | src/data/android-diff.json.py:204 | the sorted results are non-decreasing by `family_name` |
| `Sorting.SortStable` | src/data/android-diff.json.py:204 | the sort is stable: the records of each family name keep their insertion order |

## Left out

- Font parsing is not modelled: `TTFont`, `getBestCmap()`, the `head` table's `fontRevision` and `modified`, and the `fvar` lookup. A font arrives as `Comparison.FontData`, which holds its codepoint set, an `fvar` flag, its version text, its date text and its byte size. Opening the upstream file is the parameter `parse`.
- Date handling is not modelled: `font_datetime`, `format_fonttime`, the clamp `max(0, value + epoch_diff)` and `strftime`. They depend on the local time zone and on a constant from fontTools. The formatted `YYYY-MM-DD` date is an input.
- The `"%0.3f"` formatting of the font revision is not modelled, because it is floating point. The formatted text is an input.
- The filesystem and environment are not modelled: the `glob("*.?tf")` enumeration, `os.path.getsize`, `json.load`, `ANDROID_MOUNT_POINT`, `GITHUB_TOKEN` and the `Roboto-Regular.ttf` assertion. The enumerated fonts and the manifest are inputs.
- The GitHub GraphQL request and the `Github` client are not modelled. The query is the parameter `fetch`, called with the repository name and the `since` timestamp; the owner is always `notofonts`. Network errors abort the script and are not modelled. So is the 100-node page size, which the server applies.
- The manifest type always carries the `files.unhinted` list. A family without it raises `KeyError` and aborts the script; that case is not modelled. A repository without `families` has an empty family list, as with `.get("families", {})`.
- GraphQL nodes: a missing `closedAt`, tag message or commit date is an `Option`. A JSON `null` closedAt would make Python's comparison raise, and a missing `release["target"]` would raise `KeyError`. Neither case is modelled.
- A repository name that GitHub cannot resolve, for example a renamed or deleted repository, is not modelled. Its query comes back with `repository: null` and a GraphQL error. The run then aborts, either in the client or with a `TypeError` at line 149. `fetch` always returns an `Answer`, so the model has no such abort.
- A tag `message` that is present but JSON `null` is not modelled. The script then emits `"notes": null`, while the model treats the message as missing and gives `""`.
- Path normalisation is not modelled. `Strings.BaseName` returns the text after the last `/`. `Manifest.LatestPath` joins the site root and the file with `/`, which matches `pathlib` for relative paths. `pathlib`'s collapsing of `//` and `.` segments, trailing slashes and absolute file paths are not modelled.
- Output is not modelled: the JSON pretty-printing and the stderr diagnostics. The diagnostic lines are returned as the list of unmatched paths.
- Report.UnseenFamilies: Python walks `unseen_repos`, a set, in an unspecified order. The contract therefore fixes the rows only up to that order, through the ghost visiting order.
- The manifest is an ordered list of repositories, each holding an ordered list of families. Nothing in the model says their names are distinct. JSON text may repeat a name, but `json.load` keeps only the last value for it, so the script's dictionaries never hold a name twice. For a repeated repository name, the script therefore indexes only the last copy, and `noto_state[name]` returns that copy. The model instead indexes every copy in `Manifest.BuildIndex`, and `Report.FamiliesOf` returns the first copy.
- Sorting.SortSorted: `sorted` is Timsort. The model uses a stable insertion sort by the same key. A stable sort's output is fully determined by its input and key, so `SortPermutes`, `SortSorted` and `SortStable` together describe the same result.
- The commented-out code is not modelled: API-level directory detection, the PyGithub issue and release path, and diffenator. It does not run.
