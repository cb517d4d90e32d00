/** Font-name normalisation: the key that joins a local font file to an
    upstream manifest entry is the file name with known style and
    extension suffixes stripped. */
module Names {
  import opened Strings

  /** The suffixes `remove_suffixes` tries, in the order it tries them. */
  const Suffixes: seq<string> := [".ttf", ".otf", "-Regular", "-Bold", "-Italic", "-VF", "[wght]"]

  /** One step of the pass: strip `suffix` if the current name ends with it. */
  function StripIfEndsWith(s: string, suffix: string): string
  {
    if EndsWith(s, suffix) then DropLast(s, |suffix|) else s
  }

  /** One pass over `suffixes`, each tried once, in order, against the name
      as the previous steps left it. */
  function StripInOrder(s: string, suffixes: seq<string>): string
  {
    if suffixes == [] then s
    else StripInOrder(StripIfEndsWith(s, suffixes[0]), suffixes[1..])
  }

  function Normalize(fontname: string): string
  {
    StripInOrder(fontname, Suffixes)
  }

  /** `remove_suffixes`: reassigns the name once per suffix of the list. */
  method RemoveSuffixes(fontname: string) returns (r: string)
    ensures r == Normalize(fontname)
    ensures IsPrefix(r, fontname)
  {
    r := fontname;
    for i := 0 to |Suffixes|
      invariant StripInOrder(r, Suffixes[i..]) == Normalize(fontname)
      invariant IsPrefix(r, fontname)
    {
      assert Suffixes[i..][1..] == Suffixes[i + 1..];
      if EndsWith(r, Suffixes[i]) {
        r := DropLast(r, |Suffixes[i]|);
      }
    }
    NormalizeIsPrefix(fontname);
  }

  lemma PrefixTransitive(a: string, b: string, c: string)
    requires IsPrefix(a, b) && IsPrefix(b, c)
    ensures IsPrefix(a, c)
  {
    assert c[..|a|] == c[..|b|][..|a|];
  }

  lemma {:induction false} StripInOrderIsPrefix(s: string, suffixes: seq<string>)
    ensures IsPrefix(StripInOrder(s, suffixes), s)
  {
    if suffixes != [] {
      var t := StripIfEndsWith(s, suffixes[0]);
      StripInOrderIsPrefix(t, suffixes[1..]);
      PrefixTransitive(StripInOrder(t, suffixes[1..]), t, s);
    }
  }

  /** The normalised name is always a prefix of the file name. */
  lemma NormalizeIsPrefix(fontname: string)
    ensures IsPrefix(Normalize(fontname), fontname)
  {
    StripInOrderIsPrefix(fontname, Suffixes);
  }

  lemma {:induction false} StripInOrderUnchanged(s: string, suffixes: seq<string>)
    requires forall i :: 0 <= i < |suffixes| ==> !EndsWith(s, suffixes[i])
    ensures StripInOrder(s, suffixes) == s
  {
    if suffixes != [] {
      assert !EndsWith(s, suffixes[0]);
      StripInOrderUnchanged(s, suffixes[1..]);
    }
  }

  /** A name that ends in none of the suffixes comes back unchanged. */
  lemma NormalizeUnchanged(fontname: string)
    requires forall i :: 0 <= i < |Suffixes| ==> !EndsWith(fontname, Suffixes[i])
    ensures Normalize(fontname) == fontname
  {
    StripInOrderUnchanged(fontname, Suffixes);
  }

  /** The pass over a concatenated list is a pass over each part in turn:
      every suffix is tried exactly once, in list order. */
  lemma {:induction false} StripInOrderAppend(s: string, a: seq<string>, b: seq<string>)
    ensures StripInOrder(s, a + b) == StripInOrder(StripInOrder(s, a), b)
  {
    if a == [] {
      assert a + b == b;
    } else {
      assert (a + b)[0] == a[0] && (a + b)[1..] == a[1..] + b;
      StripInOrderAppend(StripIfEndsWith(s, a[0]), a[1..], b);
    }
  }

  /** Both the extension and the style suffix come off in one pass. */
  lemma NormalizeStripsSeveral()
    ensures Normalize("NotoSans-Regular.ttf") == "NotoSans"
  {
    var s := "NotoSans-Regular.ttf";
    assert EndsWith(s, ".ttf");
    var s1 := DropLast(s, 4);
    assert s1 == "NotoSans-Regular";
    assert !EndsWith(s1, ".otf");
    assert EndsWith(s1, "-Regular");
    var s2 := DropLast(s1, 8);
    assert s2 == "NotoSans";
    assert forall i :: 3 <= i < 7 ==> !EndsWith(s2, Suffixes[i]);
    calc {
      Normalize(s);
      StripInOrder(s1, Suffixes[1..]);
      StripInOrder(s1, Suffixes[2..]);
      StripInOrder(s2, Suffixes[3..]);
      { StripInOrderUnchanged(s2, Suffixes[3..]); }
      s2;
    }
  }

  /** The result depends on list order: `-Regular` is tried after `.ttf`,
      so an extension uncovered by stripping it stays. */
  lemma NormalizeOrderDependent()
    ensures Normalize("NotoSans.ttf-Regular") == "NotoSans.ttf"
  {
    var s := "NotoSans.ttf-Regular";
    assert !EndsWith(s, ".ttf") && !EndsWith(s, ".otf");
    assert EndsWith(s, "-Regular");
    var s1 := DropLast(s, 8);
    assert s1 == "NotoSans.ttf";
    assert forall i :: 3 <= i < 7 ==> !EndsWith(s1, Suffixes[i]);
    calc {
      Normalize(s);
      StripInOrder(s, Suffixes[2..]);
      StripInOrder(s1, Suffixes[3..]);
      { StripInOrderUnchanged(s1, Suffixes[3..]); }
      s1;
    }
  }

  lemma NormalizeStripsExtension()
    ensures Normalize("NotoSans.ttf") == "NotoSans"
  {
    var t := "NotoSans.ttf";
    assert EndsWith(t, ".ttf");
    var t1 := DropLast(t, 4);
    assert t1 == "NotoSans";
    assert forall i :: 1 <= i < 7 ==> !EndsWith(t1, Suffixes[i]);
    calc {
      Normalize(t);
      StripInOrder(t1, Suffixes[1..]);
      { StripInOrderUnchanged(t1, Suffixes[1..]); }
      t1;
    }
  }

  /** Normalising twice can strip more than normalising once: the pass is
      not idempotent. */
  lemma NormalizeNotIdempotent()
    ensures exists s :: Normalize(Normalize(s)) != Normalize(s)
  {
    var s := "NotoSans.ttf-Regular";
    NormalizeOrderDependent();
    NormalizeStripsExtension();
    assert "NotoSans" != "NotoSans.ttf";
    assert Normalize(Normalize(s)) != Normalize(s);
  }
}
