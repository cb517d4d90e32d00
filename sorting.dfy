/** `sorted(results, key=lambda x: x["family_name"])`: a stable sort by
    family name, where names compare as Python strings. */
module Sorting {
  import opened Seqs
  import opened Strings
  import opened Results

  predicate SortedByFamily(s: seq<FamilyReport>)
  {
    forall i, j :: 0 <= i < j < |s| ==> !LexLess(s[j].familyName, s[i].familyName)
  }

  function HasFamily(name: string): FamilyReport -> bool
  {
    (r: FamilyReport) => r.familyName == name
  }

  /** Places `x` after every element whose name is not greater than its own,
      so that equal names keep their order of insertion. */
  function InsertByFamily(t: seq<FamilyReport>, x: FamilyReport): seq<FamilyReport>
  {
    if t == [] || !LexLess(x.familyName, t[|t| - 1].familyName) then t + [x]
    else InsertByFamily(t[..|t| - 1], x) + [t[|t| - 1]]
  }

  function SortByFamily(s: seq<FamilyReport>): seq<FamilyReport>
  {
    if s == [] then []
    else InsertByFamily(SortByFamily(s[..|s| - 1]), s[|s| - 1])
  }

  lemma {:induction false} InsertPermutes(t: seq<FamilyReport>, x: FamilyReport)
    ensures multiset(InsertByFamily(t, x)) == multiset(t) + multiset{x}
  {
    if t != [] && LexLess(x.familyName, t[|t| - 1].familyName) {
      var init := t[..|t| - 1];
      InsertPermutes(init, x);
      assert t == init + [t[|t| - 1]];
    }
  }

  lemma {:induction false} InsertSorted(t: seq<FamilyReport>, x: FamilyReport)
    requires SortedByFamily(t)
    ensures SortedByFamily(InsertByFamily(t, x))
  {
    if t == [] {
    } else if !LexLess(x.familyName, t[|t| - 1].familyName) {
      var last := t[|t| - 1];
      forall i | 0 <= i < |t|
        ensures !LexLess(x.familyName, t[i].familyName)
      {
        if i < |t| - 1 {
          LexNotLessTransitive(t[i].familyName, last.familyName, x.familyName);
        }
      }
      var r := t + [x];
      assert forall i, j :: 0 <= i < j < |r| ==> !LexLess(r[j].familyName, r[i].familyName);
    } else {
      var init := t[..|t| - 1];
      var last := t[|t| - 1];
      InsertSorted(init, x);
      var u := InsertByFamily(init, x);
      InsertPermutes(init, x);
      forall y | y in u
        ensures !LexLess(last.familyName, y.familyName)
      {
        assert y in multiset(u);
        if y == x {
          LexAsymmetric(x.familyName, last.familyName);
        } else {
          assert y in multiset(init);
          var i :| 0 <= i < |init| && init[i] == y;
          assert t[i] == y;
        }
      }
      var r := u + [last];
      forall i, j | 0 <= i < j < |r|
        ensures !LexLess(r[j].familyName, r[i].familyName)
      {
        if j == |r| - 1 {
          assert r[i] in u;
        } else {
          assert r[i] == u[i] && r[j] == u[j];
        }
      }
    }
  }

  /** Among the elements with one family name, inserting appends `x` last. */
  lemma {:induction false} InsertStable(t: seq<FamilyReport>, x: FamilyReport, name: string)
    ensures Filter(InsertByFamily(t, x), HasFamily(name))
         == Filter(t, HasFamily(name)) + Filter([x], HasFamily(name))
  {
    var p := HasFamily(name);
    if t == [] || !LexLess(x.familyName, t[|t| - 1].familyName) {
      FilterAppend(t, [x], p);
    } else {
      var init := t[..|t| - 1];
      var last := t[|t| - 1];
      assert t == init + [last];
      InsertStable(init, x, name);
      FilterAppend(InsertByFamily(init, x), [last], p);
      FilterAppend(init, [last], p);
      if x.familyName == name {
        // `last` sorts strictly after `x`, so it is not a `name` element
        LexIrreflexive(name);
        assert !p(last);
      }
    }
  }

  /** The result is a permutation of the input. */
  lemma {:induction false} SortPermutes(s: seq<FamilyReport>)
    ensures multiset(SortByFamily(s)) == multiset(s)
  {
    if s != [] {
      var init := s[..|s| - 1];
      var last := s[|s| - 1];
      assert s == init + [last];
      calc {
        multiset(SortByFamily(s));
        multiset(InsertByFamily(SortByFamily(init), last));
        { InsertPermutes(SortByFamily(init), last); }
        multiset(SortByFamily(init)) + multiset{last};
        { SortPermutes(init); }
        multiset(init) + multiset{last};
        multiset(init + [last]);
      }
    }
  }

  /** The result is ordered by family name. */
  lemma {:induction false} SortSorted(s: seq<FamilyReport>)
    ensures SortedByFamily(SortByFamily(s))
  {
    if s != [] {
      SortSorted(s[..|s| - 1]);
      InsertSorted(SortByFamily(s[..|s| - 1]), s[|s| - 1]);
    }
  }

  /** The sort is stable: the records of any one family come out in the
      order they went in. */
  lemma {:induction false} SortStable(s: seq<FamilyReport>, name: string)
    ensures Filter(SortByFamily(s), HasFamily(name)) == Filter(s, HasFamily(name))
  {
    if s != [] {
      var init := s[..|s| - 1];
      var last := s[|s| - 1];
      SortStable(init, name);
      InsertStable(SortByFamily(init), last, name);
      assert s == init + [last];
      FilterAppend(init, [last], HasFamily(name));
    }
  }
}
