/** Which local fonts are compared, and the per-pair comparison of a local
    font with its upstream counterpart. Parsing the binaries is not modelled:
    a font arrives as the facts the report reads from it. */
module Comparison {
  import opened Strings

  /** What the report reads from one font file: the codepoints of its best
      cmap subtable, whether it has an `fvar` table, its revision already
      formatted to three decimals, its modification date already formatted as
      `YYYY-MM-DD`, and its size in bytes. */
  datatype FontData = FontData(codepoints: set<int>, hasFvar: bool, version: string, ymd: string, bytesize: nat)

  /** A font file enumerated in the Android font directory: its full path
      (directory included, as `str(their_font)` gives it) and its data. */
  datatype LocalFont = LocalFont(path: string, data: FontData)

  /** The policy filter: only Noto fonts, and neither UI nor Bold variants.
      It looks at the whole path, not only the file name. */
  predicate IsSkipped(path: string)
  {
    !Contains(path, "Noto") || Contains(path, "UI") || Contains(path, "Bold")
  }

  /** `new_encoded`: how many codepoints the upstream font encodes that the
      local one does not. Together with the codepoints both encode, they make
      up the upstream font's whole coverage. */
  function NewEncoded(upstream: set<int>, local: set<int>): (n: nat)
    ensures n + |upstream * local| == |upstream|
    ensures n <= |upstream|
    ensures n == 0 <==> upstream <= local
  {
    CoverageSplit(upstream, local);
    |upstream - local|
  }

  lemma CoverageSplit(upstream: set<int>, local: set<int>)
    ensures |upstream - local| + |upstream * local| == |upstream|
    ensures |upstream - local| == 0 <==> upstream <= local
  {
    var gained := upstream - local;
    assert gained + upstream * local == upstream;
    assert gained * (upstream * local) == {};
    assert gained == {} <==> upstream <= local;
  }

  /** `vf_upgrade`: the local font is static while upstream is variable. */
  function VfUpgrade(theirHasFvar: bool, myHasFvar: bool): bool
  {
    !theirHasFvar && myHasFvar
  }

  /** A codepoint covered upstream and missing locally is counted, and one
      covered by both is not: adding it to both sides leaves the count. */
  lemma NewEncodedCountsMissing(upstream: set<int>, local: set<int>, c: int)
    requires c in upstream && c !in local
    ensures NewEncoded(upstream, local) == NewEncoded(upstream - {c}, local) + 1
  {
    assert upstream - local == (upstream - {c} - local) + {c};
  }

  lemma NewEncodedIgnoresShared(upstream: set<int>, local: set<int>, c: int)
    ensures NewEncoded(upstream + {c}, local + {c}) == NewEncoded(upstream - {c}, local)
  {
    assert (upstream + {c}) - (local + {c}) == (upstream - {c}) - local;
  }
}
