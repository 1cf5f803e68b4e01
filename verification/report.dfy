/**
 The reconciler of `src/report.js`: which of the current dependencies use a
 licence that is not in the known-good set.
 */
module Report {
  import opened Seqs
  import opened Deps

  /**
   `findUnapprovedLicenses`: walks the current project-to-licence map in its
   iteration order and keeps every entry whose licence is not known to be
   good. Nothing is sorted or deduplicated.
   */
  function FindUnapprovedLicenses(current: seq<Dep>, knownGood: set<License>): (r: seq<Dep>)
    ensures forall d :: d in r <==> d in current && d.license !in knownGood
    ensures IsSubsequence(r, current)
    decreases |current|
  {
    if |current| == 0 then []
    else
      var c := current[..|current| - 1];
      var x := current[|current| - 1];
      var r := FindUnapprovedLicenses(c, knownGood);
      assert current == c + [x];
      if x.license in knownGood then
        SubsequenceSnocRight(r, c, x);
        r
      else
        SubsequenceSnocBoth(r, c, x);
        r + [x]
  }

  lemma UnapprovedSnoc(c: seq<Dep>, x: Dep, knownGood: set<License>)
    ensures FindUnapprovedLicenses(c + [x], knownGood)
         == FindUnapprovedLicenses(c, knownGood) + (if x.license in knownGood then [] else [x])
  {
    assert (c + [x])[..|c|] == c;
  }

  /**
   No deduplication: every entry with an unapproved licence is reported as
   many times as it occurs, and no other entry is.
   */
  lemma {:induction false} UnapprovedCounts(current: seq<Dep>, knownGood: set<License>)
    ensures forall d :: multiset(FindUnapprovedLicenses(current, knownGood))[d]
                     == if d.license in knownGood then 0 else multiset(current)[d]
    decreases |current|
  {
    if |current| > 0 {
      var c := current[..|current| - 1];
      var x := current[|current| - 1];
      assert current == c + [x];
      UnapprovedCounts(c, knownGood);
      UnapprovedSnoc(c, x, knownGood);
    }
  }

  /** The report is empty exactly when every current licence is known to be good. */
  lemma UnapprovedEmpty(current: seq<Dep>, knownGood: set<License>)
    ensures FindUnapprovedLicenses(current, knownGood) == []
        <==> forall d :: d in current ==> d.license in knownGood
  {
    var r := FindUnapprovedLicenses(current, knownGood);
    if r != [] {
      assert r[0] in r;
    }
  }

  /** The report is no longer than the current map, and a map of distinct projects stays one. */
  lemma {:induction false} UnapprovedShape(current: seq<Dep>, knownGood: set<License>)
    ensures |FindUnapprovedLicenses(current, knownGood)| <= |current|
    ensures DistinctProjects(current) ==> DistinctProjects(FindUnapprovedLicenses(current, knownGood))
    decreases |current|
  {
    if |current| > 0 {
      var c := current[..|current| - 1];
      var x := current[|current| - 1];
      var r := FindUnapprovedLicenses(c, knownGood);
      assert current == c + [x];
      UnapprovedShape(c, knownGood);
      UnapprovedSnoc(c, x, knownGood);
      DistinctProjectsSnoc(c, x);
      if x.license !in knownGood {
        DistinctProjectsSnoc(r, x);
        assert Projects(r) <= Projects(c);
      }
    }
  }

  /** The reconciler distributes over concatenation of the current map. */
  lemma {:induction false} UnapprovedOfConcat(a: seq<Dep>, b: seq<Dep>, knownGood: set<License>)
    ensures FindUnapprovedLicenses(a + b, knownGood)
         == FindUnapprovedLicenses(a, knownGood) + FindUnapprovedLicenses(b, knownGood)
    decreases |b|
  {
    if |b| == 0 {
      assert a + b == a;
    } else {
      var b' := b[..|b| - 1];
      assert b == b' + [b[|b| - 1]];
      UnapprovedOfConcat(a, b', knownGood);
      UnapprovedConcatSnoc(a, b', b[|b| - 1], knownGood);
    }
  }

  /** One more entry at the end of the second part keeps the distribution over concatenation. */
  lemma UnapprovedConcatSnoc(a: seq<Dep>, b: seq<Dep>, x: Dep, knownGood: set<License>)
    requires FindUnapprovedLicenses(a + b, knownGood)
          == FindUnapprovedLicenses(a, knownGood) + FindUnapprovedLicenses(b, knownGood)
    ensures FindUnapprovedLicenses(a + (b + [x]), knownGood)
         == FindUnapprovedLicenses(a, knownGood) + FindUnapprovedLicenses(b + [x], knownGood)
  {
    var fa, fb, fab := FindUnapprovedLicenses(a, knownGood), FindUnapprovedLicenses(b, knownGood), FindUnapprovedLicenses(a + b, knownGood);
    var e := if x.license in knownGood then [] else [x];
    ConcatAssoc(a, b, [x]);
    UnapprovedSnoc(a + b, x, knownGood);
    UnapprovedSnoc(b, x, knownGood);
    ConcatAssoc(fa, fb, e);
  }

  /** With nothing known to be good, every current entry is reported, in order. */
  lemma {:induction false} NothingKnownReportsAll(current: seq<Dep>)
    ensures FindUnapprovedLicenses(current, {}) == current
    decreases |current|
  {
    if |current| > 0 {
      var c := current[..|current| - 1];
      assert current == c + [current[|current| - 1]];
      UnapprovedSnoc(c, current[|current| - 1], {});
      NothingKnownReportsAll(c);
    }
  }

  /**
   Filtering with one known-good set and then another is filtering with their
   union: approving licences in two steps is the same as approving them at once.
   */
  lemma {:induction false} UnapprovedCompose(current: seq<Dep>, k1: set<License>, k2: set<License>)
    ensures FindUnapprovedLicenses(FindUnapprovedLicenses(current, k1), k2)
         == FindUnapprovedLicenses(current, k1 + k2)
    decreases |current|
  {
    if |current| > 0 {
      var c := current[..|current| - 1];
      var x := current[|current| - 1];
      UnapprovedCompose(c, k1, k2);
      var r1 := FindUnapprovedLicenses(c, k1);
      if x.license !in k1 {
        assert FindUnapprovedLicenses(current, k1) == r1 + [x];
        assert (r1 + [x])[..|r1|] == r1;
      }
    }
  }

  /** Growing the known-good set only removes entries from the report. */
  lemma MoreKnownGoodReportsLess(current: seq<Dep>, k1: set<License>, k2: set<License>)
    requires k1 <= k2
    ensures IsSubsequence(FindUnapprovedLicenses(current, k2), FindUnapprovedLicenses(current, k1))
  {
    UnapprovedCompose(current, k1, k2);
    assert k1 + k2 == k2;
  }

  /** The repository's own test: {a: MIT, b: ISC} with nothing approved. */
  lemma ReportScenarioNoneApproved()
    ensures FindUnapprovedLicenses([Dep("a", "MIT"), Dep("b", "ISC")], {})
         == [Dep("a", "MIT"), Dep("b", "ISC")]
  {
    NothingKnownReportsAll([Dep("a", "MIT"), Dep("b", "ISC")]);
  }

  /** Two projects on an approved licence disappear; the other stays. */
  lemma ReportScenarioSharedLicense()
    ensures FindUnapprovedLicenses([Dep("a", "MIT"), Dep("b", "MIT"), Dep("c", "ISC")], {"MIT"})
         == [Dep("c", "ISC")]
  {
  }

  /** Two projects sharing an unapproved licence give two entries. */
  lemma ReportScenarioNoDedup()
    ensures FindUnapprovedLicenses([Dep("a", "GPL"), Dep("b", "GPL")], {"MIT"})
         == [Dep("a", "GPL"), Dep("b", "GPL")]
  {
  }

  /**
   `getKnownGoodLicenses`: `new Set(...)` over the array read from the
   known-good file, or over `undefined` (no file) which gives the empty set.
   */
  function GetKnownGoodLicenses(file: Option<seq<License>>): (r: seq<License>)
    ensures NoDup(r)
    ensures file.None? ==> r == []
    ensures file.Some? ==> Elements(r) == Elements(file.value)
    ensures file.Some? ==> IsSubsequence(r, file.value)
    ensures file.Some? ==> r == Dedup(file.value)
  {
    match file
    case None => []
    case Some(arr) =>
      assert [] + arr == arr;
      AddAllFirstOccurrence([], arr);
      AddAll([], arr)
  }
}
