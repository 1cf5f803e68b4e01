/**
 The earlier single-file iteration, `check-licenses.js`: the known-good file
 there maps each project to the licence it was accepted with, the report is
 a three-way diff against it, and the question loop works per project with
 an accept-all answer.
 */
module Legacy {
  import opened Seqs
  import opened Deps

  /** A known project whose licence has changed since it was accepted. */
  datatype Change = Change(project: Project, currentLicense: License, knownGoodLicense: License)

  /** The `Report` type: new projects, changed licences, vanished projects. */
  datatype Report = Report(added: seq<Dep>, wrongLicense: seq<Change>, removed: seq<Dep>)

  /**
   The loop of `generateLicenseReport` from a given point: `remaining` is the
   known-good map with every project already visited deleted from it. What is
   left of it at the end becomes `removed` (the in-loop push to `removed` is
   overwritten by that assignment and has no effect).
   */
  function ReportFrom(current: seq<Dep>, remaining: seq<Dep>, added: seq<Dep>, wrong: seq<Change>): (r: Report)
    requires DistinctProjects(current) && DistinctProjects(remaining)
    ensures added <= r.added && wrong <= r.wrongLicense
    decreases |current|
  {
    if |current| == 0 then Report(added, wrong, remaining)
    else
      var dep := current[0];
      var rest := current[1..];
      assert current == [dep] + rest;
      DistinctProjectsCons(dep, rest);
      var known := Lookup(remaining, dep.project);
      var remaining' := Delete(remaining, dep.project);
      if known.None? then
        ReportFrom(rest, remaining', added + [dep], wrong)
      else if known.value != dep.license then
        ReportFrom(rest, remaining', added, wrong + [Change(dep.project, dep.license, known.value)])
      else
        ReportFrom(rest, remaining', added, wrong)
  }

  /** What one step of the report loop knows about the entries after the first. */
  lemma ReportStep(current: seq<Dep>, remaining: seq<Dep>)
    requires |current| > 0 && DistinctProjects(current) && DistinctProjects(remaining)
    ensures DistinctProjects(current[1..])
    ensures forall d :: d in current <==> d == current[0] || d in current[1..]
    ensures forall d :: d in current[1..] ==> d.project != current[0].project
    ensures Projects(current) == {current[0].project} + Projects(current[1..])
    ensures Projects(Delete(remaining, current[0].project)) == Projects(remaining) - {current[0].project}
  {
    assert current == [current[0]] + current[1..];
    DistinctProjectsCons(current[0], current[1..]);
    ProjectsCons(current[0], current[1..]);
  }

  /** A current entry is added exactly when the known-good map has no entry for its project. */
  lemma {:induction false} ReportFromAdded(current: seq<Dep>, remaining: seq<Dep>, added: seq<Dep>, wrong: seq<Change>)
    requires DistinctProjects(current) && DistinctProjects(remaining)
    ensures forall d :: d in ReportFrom(current, remaining, added, wrong).added
                    <==> d in added || (d in current && d.project !in Projects(remaining))
    decreases |current|
  {
    if |current| > 0 {
      var dep := current[0];
      ReportStep(current, remaining);
      var remaining' := Delete(remaining, dep.project);
      var known := Lookup(remaining, dep.project);
      if known.None? {
        ReportFromAdded(current[1..], remaining', added + [dep], wrong);
      } else if known.value != dep.license {
        ReportFromAdded(current[1..], remaining', added, wrong + [Change(dep.project, dep.license, known.value)]);
      } else {
        ReportFromAdded(current[1..], remaining', added, wrong);
      }
    }
  }

  /** A change is reported exactly when the two maps hold different licences for the project. */
  lemma {:induction false} ReportFromWrong(current: seq<Dep>, remaining: seq<Dep>, added: seq<Dep>, wrong: seq<Change>)
    requires DistinctProjects(current) && DistinctProjects(remaining)
    ensures forall c :: c in ReportFrom(current, remaining, added, wrong).wrongLicense <==>
              || c in wrong
              || (&& Dep(c.project, c.currentLicense) in current
                  && Dep(c.project, c.knownGoodLicense) in remaining
                  && c.currentLicense != c.knownGoodLicense)
    decreases |current|
  {
    if |current| > 0 {
      var dep := current[0];
      ReportStep(current, remaining);
      var remaining' := Delete(remaining, dep.project);
      var known := Lookup(remaining, dep.project);
      if known.None? {
        ReportFromWrong(current[1..], remaining', added + [dep], wrong);
      } else if known.value != dep.license {
        ReportFromWrong(current[1..], remaining', added, wrong + [Change(dep.project, dep.license, known.value)]);
      } else {
        ReportFromWrong(current[1..], remaining', added, wrong);
      }
    }
  }

  /** A known-good entry is removed exactly when no current entry has its project. */
  lemma {:induction false} ReportFromRemoved(current: seq<Dep>, remaining: seq<Dep>, added: seq<Dep>, wrong: seq<Change>)
    requires DistinctProjects(current) && DistinctProjects(remaining)
    ensures forall d :: d in ReportFrom(current, remaining, added, wrong).removed
                    <==> d in remaining && d.project !in Projects(current)
    decreases |current|
  {
    if |current| > 0 {
      var dep := current[0];
      ReportStep(current, remaining);
      var remaining' := Delete(remaining, dep.project);
      var known := Lookup(remaining, dep.project);
      if known.None? {
        ReportFromRemoved(current[1..], remaining', added + [dep], wrong);
      } else if known.value != dep.license {
        ReportFromRemoved(current[1..], remaining', added, wrong + [Change(dep.project, dep.license, known.value)]);
      } else {
        ReportFromRemoved(current[1..], remaining', added, wrong);
      }
    }
  }

  /**
   `generateLicenseReport`: a current project the known-good map lacks is
   added, one whose licence differs is a wrong licence, and a known project
   no longer current is removed. Both maps have one entry per project.
   */
  function GenerateLicenseReport(current: seq<Dep>, knownGood: seq<Dep>): (r: Report)
    requires DistinctProjects(current) && DistinctProjects(knownGood)
    ensures forall d :: d in r.added <==> d in current && d.project !in Projects(knownGood)
    ensures forall c :: c in r.wrongLicense <==>
              Dep(c.project, c.currentLicense) in current && Dep(c.project, c.knownGoodLicense) in knownGood
              && c.currentLicense != c.knownGoodLicense
    ensures forall d :: d in r.removed <==> d in knownGood && d.project !in Projects(current)
  {
    ReportFromAdded(current, knownGood, [], []);
    ReportFromWrong(current, knownGood, [], []);
    ReportFromRemoved(current, knownGood, [], []);
    ReportFrom(current, knownGood, [], [])
  }

  /**
   Every current project lands in at most one of added and wrongLicense, and
   one whose licence matches its known-good entry in neither.
   */
  lemma ReportPartition(current: seq<Dep>, knownGood: seq<Dep>, d: Dep)
    requires DistinctProjects(current) && DistinctProjects(knownGood)
    requires d in current
    ensures var r := GenerateLicenseReport(current, knownGood);
            && (d in r.added ==> forall c :: c in r.wrongLicense ==> c.project != d.project)
            && (d in knownGood ==> d !in r.added && forall c :: c in r.wrongLicense ==> c.project != d.project)
  {
    var r := GenerateLicenseReport(current, knownGood);
    forall c | c in r.wrongLicense && c.project == d.project ensures d !in knownGood && d !in r.added {
      DistinctProjectsUnique(current, d, Dep(c.project, c.currentLicense));
      if d in knownGood {
        DistinctProjectsUnique(knownGood, d, Dep(c.project, c.knownGoodLicense));
      }
      assert c.project in Projects(knownGood);
    }
  }

  /** The verdict of `checkLicenses`: any new, removed or changed project fails with status 1. */
  function CheckLicenses(report: Report): (e: Exit)
    ensures e == Fail(1) <==> |report.added| > 0 || |report.removed| > 0 || |report.wrongLicense| > 0
    ensures e == Ok <==> report.added == [] && report.removed == [] && report.wrongLicense == []
  {
    if |report.added| > 0 || |report.removed| > 0 || |report.wrongLicense| > 0 then Fail(1) else Ok
  }

  /**
   The verdict as the code reads: `report.removed` is the iterator returned
   by `Map.prototype.values`, whose `length` is undefined, so the removed
   test never fires.
   */
  function CheckLicensesAsWritten(report: Report): (e: Exit)
    ensures e == Fail(1) <==> |report.added| > 0 || |report.wrongLicense| > 0
    ensures e == Ok <==> report.added == [] && report.wrongLicense == []
  {
    if |report.added| > 0 || |report.wrongLicense| > 0 then Fail(1) else Ok
  }

  /** A known project that disappeared passes the check as written but fails the intended one. */
  lemma RemovedProjectSlipsThrough()
    ensures var r := GenerateLicenseReport([], [Dep("left-pad", "MIT")]);
            && r == Report([], [], [Dep("left-pad", "MIT")])
            && CheckLicensesAsWritten(r) == Ok
            && CheckLicenses(r) == Fail(1)
  {
  }

  /** An empty report means every current entry is a known-good entry and back. */
  lemma EmptyReportMapsAgree(current: seq<Dep>, knownGood: seq<Dep>)
    requires DistinctProjects(current) && DistinctProjects(knownGood)
    requires GenerateLicenseReport(current, knownGood) == Report([], [], [])
    ensures forall d :: d in current <==> d in knownGood
  {
    var r := GenerateLicenseReport(current, knownGood);
    forall d | d in current ensures d in knownGood {
      assert d !in r.added;
      var e :| e in knownGood && e.project == d.project;
      assert Change(d.project, d.license, e.license) !in r.wrongLicense;
    }
    forall d | d in knownGood ensures d in current {
      assert d !in r.removed;
      var e :| e in current && e.project == d.project;
      assert Change(d.project, e.license, d.license) !in r.wrongLicense;
    }
  }

  /** A non-empty report names an entry on which the two maps differ. */
  lemma NonEmptyReportMapsDiffer(current: seq<Dep>, knownGood: seq<Dep>)
    requires DistinctProjects(current) && DistinctProjects(knownGood)
    requires GenerateLicenseReport(current, knownGood) != Report([], [], [])
    ensures exists d :: (d in current) != (d in knownGood)
  {
    var r := GenerateLicenseReport(current, knownGood);
    if r.added != [] {
      assert r.added[0] in r.added;
      assert (r.added[0] in current) != (r.added[0] in knownGood);
    } else if r.removed != [] {
      assert r.removed[0] in r.removed;
      assert (r.removed[0] in current) != (r.removed[0] in knownGood);
    } else {
      var c := r.wrongLicense[0];
      var d := Dep(c.project, c.currentLicense);
      assert c in r.wrongLicense;
      if d in knownGood {
        DistinctProjectsUnique(knownGood, d, Dep(c.project, c.knownGoodLicense));
      }
      assert (d in current) != (d in knownGood);
    }
  }

  /** The check passes exactly when the current map equals the known-good map as a set of entries. */
  lemma CheckPassesIffMapsAgree(current: seq<Dep>, knownGood: seq<Dep>)
    requires DistinctProjects(current) && DistinctProjects(knownGood)
    ensures CheckLicenses(GenerateLicenseReport(current, knownGood)) == Ok
        <==> forall d :: d in current <==> d in knownGood
  {
    if GenerateLicenseReport(current, knownGood) == Report([], [], []) {
      EmptyReportMapsAgree(current, knownGood);
    } else {
      NonEmptyReportMapsDiffer(current, knownGood);
    }
  }

  /** The answers of the older loop, which also knows a for accept-all. */
  datatype Answer = Accept | Reject | AcceptAll | Abort | Skip

  /** Anything other than y, n, q or a counts as ?. */
  function ReadAnswer(raw: char): (a: Answer)
    ensures a == Accept <==> raw == 'y'
    ensures a == Reject <==> raw == 'n'
    ensures a == AcceptAll <==> raw == 'a'
    ensures a == Abort <==> raw == 'q'
    ensures a == Skip <==> raw !in "ynqa"
  {
    if raw == 'y' then Accept
    else if raw == 'n' then Reject
    else if raw == 'a' then AcceptAll
    else if raw == 'q' then Abort
    else Skip
  }

  /** How the older loop ends; `rest` is the input left for the next loop. */
  datatype Loop =
    | Answered(yes: seq<Dep>, no: seq<Dep>, rest: seq<char>)
    | Aborted

  /**
   The `for` loop of the older `interact` from entry `i` on: one answer per
   entry with no licence deduplication. y and n record the entry under its
   project; a records every entry, earlier ones included, as accepted and
   stops; q ends the process; ? or anything else leaves the entry unrecorded
   and moves on. Once the input is exhausted every read yields a NUL byte,
   which counts as ?, so the remaining entries are passed over.
   */
  function InteractFrom(deps: seq<Dep>, i: nat, yes: seq<Dep>, no: seq<Dep>, script: seq<char>): (r: Loop)
    requires i <= |deps|
    ensures r.Answered? ==> SuffixOf(r.rest, script)
    ensures r.Answered? ==> |script| - |r.rest| <= |deps| - i
    decreases |deps| - i
  {
    if i == |deps| then
      SuffixOfTail(script, script);
      Answered(yes, no, script)
    else if |script| == 0 then InteractFrom(deps, i + 1, yes, no, script)
    else
      var a := ReadAnswer(script[0]);
      if a == Abort then Aborted
      else if a == AcceptAll then
        SuffixOfTail(script, script[1..]);
        Answered(SetAll(yes, deps), no, script[1..])
      else
        var maps := Record(a, deps[i], yes, no);
        var r := InteractFrom(deps, i + 1, maps.0, maps.1, script[1..]);
        if r.Answered? then SuffixOfTail(script, r.rest); r else r
  }

  /** The two maps after answer `a` about `dep`: y sets it into the first, n into the second. */
  function Record(a: Answer, dep: Dep, yes: seq<Dep>, no: seq<Dep>): (r: (seq<Dep>, seq<Dep>))
    ensures a != Accept ==> r.0 == yes
    ensures a != Reject ==> r.1 == no
  {
    if a == Accept then (MapSet(yes, dep), no)
    else if a == Reject then (yes, MapSet(no, dep))
    else (yes, no)
  }

  /** `rest` is what remains of `script` once some leading characters have been read. */
  predicate SuffixOf(rest: seq<char>, script: seq<char>) {
    |rest| <= |script| && rest == script[|script| - |rest|..]
  }

  /**
   Every input is a suffix of itself, so is what follows its first character,
   and so is any suffix of that.
   */
  lemma SuffixOfTail(script: seq<char>, rest: seq<char>)
    ensures SuffixOf(script, script)
    ensures |script| > 0 ==> SuffixOf(script[1..], script)
    ensures |script| > 0 && SuffixOf(rest, script[1..]) ==> SuffixOf(rest, script)
  {
    assert script[0..] == script;
  }

  /**
   The loop only ever records entries of `deps` besides those it started
   with, and keeps both maps at one entry per project.
   */
  lemma {:induction false} InteractFromMembers(deps: seq<Dep>, i: nat, yes: seq<Dep>, no: seq<Dep>, script: seq<char>)
    requires i <= |deps| && DistinctProjects(yes) && DistinctProjects(no)
    ensures var r := InteractFrom(deps, i, yes, no, script);
            r.Answered? ==> && (forall e :: e in r.yes ==> e in yes || e in deps)
                            && (forall e :: e in r.no ==> e in no || e in deps)
                            && DistinctProjects(r.yes) && DistinctProjects(r.no)
    decreases |deps| - i, 1
  {
    if i == |deps| {
      assert InteractFrom(deps, i, yes, no, script) == Answered(yes, no, script);
    } else if |script| == 0 {
      assert script == [];
      ExhaustedInputPassesOver(deps, i, yes, no);
    } else {
      InteractFromMembersStep(deps, i, yes, no, script);
    }
  }

  /** One answered entry: what it records comes from `deps`. */
  lemma {:induction false} InteractFromMembersStep(deps: seq<Dep>, i: nat, yes: seq<Dep>, no: seq<Dep>, script: seq<char>)
    requires i < |deps| && |script| > 0 && DistinctProjects(yes) && DistinctProjects(no)
    ensures var r := InteractFrom(deps, i, yes, no, script);
            r.Answered? ==> && (forall e :: e in r.yes ==> e in yes || e in deps)
                            && (forall e :: e in r.no ==> e in no || e in deps)
                            && DistinctProjects(r.yes) && DistinctProjects(r.no)
    decreases |deps| - i, 0
  {
    var a := ReadAnswer(script[0]);
    if a == AcceptAll {
      SetAllEntries(yes, deps);
    } else if a != Abort {
      var maps := Record(a, deps[i], yes, no);
      if a == Accept {
        MapSetEntries(yes, deps[i]);
      } else if a == Reject {
        MapSetEntries(no, deps[i]);
      }
      assert forall e :: e in maps.0 ==> e in yes || e in deps;
      assert forall e :: e in maps.1 ==> e in no || e in deps;
      InteractFromMembers(deps, i + 1, maps.0, maps.1, script[1..]);
    }
  }

  /** With the input exhausted, the remaining entries are passed over and the maps stay as they are. */
  lemma {:induction false} ExhaustedInputPassesOver(deps: seq<Dep>, i: nat, yes: seq<Dep>, no: seq<Dep>)
    requires i <= |deps|
    ensures InteractFrom(deps, i, yes, no, []) == Answered(yes, no, [])
    decreases |deps| - i
  {
    if i < |deps| {
      ExhaustedInputPassesOver(deps, i + 1, yes, no);
    }
  }

  /** `interact` of the older iteration. */
  function Interact(deps: seq<Dep>, script: seq<char>): (r: Loop)
    ensures r.Answered? ==> forall e :: e in r.yes ==> e in deps
    ensures r.Answered? ==> forall e :: e in r.no ==> e in deps
    ensures r.Answered? ==> SuffixOf(r.rest, script)
    ensures r.Answered? ==> |script| - |r.rest| <= |deps|
    ensures r.Answered? ==> DistinctProjects(r.yes) && DistinctProjects(r.no)
  {
    InteractFromMembers(deps, 0, [], [], script);
    InteractFrom(deps, 0, [], [], script)
  }

  /** The entries of `deps[k]` whose answer `script[k]` reads as `a`, in order. */
  function Picked(deps: seq<Dep>, script: seq<char>, a: Answer): (r: seq<Dep>)
    requires |deps| <= |script|
    ensures forall e :: e in r ==> e in deps
    decreases |deps|
  {
    if |deps| == 0 then []
    else (if ReadAnswer(script[0]) == a then [deps[0]] else []) + Picked(deps[1..], script[1..], a)
  }

  lemma PickedCons(deps: seq<Dep>, i: nat, script: seq<char>, a: Answer)
    requires i < |deps| && |deps| - i <= |script|
    ensures ReadAnswer(script[0]) == a ==> Picked(deps[i..], script, a) == [deps[i]] + Picked(deps[i + 1..], script[1..], a)
    ensures ReadAnswer(script[0]) != a ==> Picked(deps[i..], script, a) == Picked(deps[i + 1..], script[1..], a)
  {
    assert deps[i..][1..] == deps[i + 1..];
    assert [] + Picked(deps[i + 1..], script[1..], a) == Picked(deps[i + 1..], script[1..], a);
  }

  /** y on an entry whose project the yes map lacks appends the entry. */
  lemma AcceptAppends(deps: seq<Dep>, i: nat, yes: seq<Dep>, no: seq<Dep>, script: seq<char>)
    requires i < |deps| && |script| > 0 && script[0] == 'y'
    requires deps[i].project !in Projects(yes)
    ensures InteractFrom(deps, i, yes, no, script) == InteractFrom(deps, i + 1, yes + [deps[i]], no, script[1..])
  {
  }

  /** n on an entry whose project the no map lacks appends the entry. */
  lemma RejectAppends(deps: seq<Dep>, i: nat, yes: seq<Dep>, no: seq<Dep>, script: seq<char>)
    requires i < |deps| && |script| > 0 && script[0] == 'n'
    requires deps[i].project !in Projects(no)
    ensures InteractFrom(deps, i, yes, no, script) == InteractFrom(deps, i + 1, yes, no + [deps[i]], script[1..])
  {
  }

  /** ? or any other unrecognised answer leaves both maps as they are. */
  lemma SkipLeaves(deps: seq<Dep>, i: nat, yes: seq<Dep>, no: seq<Dep>, script: seq<char>)
    requires i < |deps| && |script| > 0 && script[0] !in "ynqa"
    ensures InteractFrom(deps, i, yes, no, script) == InteractFrom(deps, i + 1, yes, no, script[1..])
  {
  }

  /** q at any question ends the loop, whatever was answered before and whatever input follows. */
  lemma AbortEnds(deps: seq<Dep>, i: nat, yes: seq<Dep>, no: seq<Dep>, script: seq<char>)
    requires i < |deps| && |script| > 0 && script[0] == 'q'
    ensures InteractFrom(deps, i, yes, no, script) == Aborted
  {
  }

  lemma {:induction false} AnswerEachFrom(deps: seq<Dep>, i: nat, yes: seq<Dep>, no: seq<Dep>, script: seq<char>)
    requires i <= |deps| && |deps| - i <= |script|
    requires DistinctProjects(deps)
    requires Projects(yes) !! Projects(deps[i..]) && Projects(no) !! Projects(deps[i..])
    requires forall k | 0 <= k < |deps| - i :: script[k] !in "aq"
    ensures InteractFrom(deps, i, yes, no, script)
         == Answered(yes + Picked(deps[i..], script, Accept), no + Picked(deps[i..], script, Reject),
                     script[|deps| - i..])
    decreases |deps| - i
  {
    if i == |deps| {
      assert deps[i..] == [];
    } else {
      AnswerEachStep(deps, i, yes, no, script);
    }
  }

  /** The answers left for the entries after `i` are still all y, n or ?. */
  lemma AnswerTail(deps: seq<Dep>, i: nat, script: seq<char>)
    requires i < |deps| && |deps| - i <= |script|
    requires forall k | 0 <= k < |deps| - i :: script[k] !in "aq"
    ensures script[0] !in "aq"
    ensures forall k | 0 <= k < |deps| - (i + 1) :: script[1..][k] !in "aq"
    ensures script[1..][|deps| - (i + 1)..] == script[|deps| - i..]
  {
    forall k | 0 <= k < |deps| - (i + 1) ensures script[1..][k] !in "aq" {
      assert script[1..][k] == script[k + 1];
    }
  }

  /** A map whose projects avoid `deps[i..]` still avoids the rest after taking `deps[i]`. */
  lemma DisjointTail(m: seq<Dep>, deps: seq<Dep>, i: nat)
    requires i < |deps| && DistinctProjects(deps)
    requires Projects(m) !! Projects(deps[i..])
    ensures deps[i].project !in Projects(m)
    ensures Projects(m) !! Projects(deps[i + 1..])
    ensures Projects(m + [deps[i]]) !! Projects(deps[i + 1..])
  {
    assert deps[i..] == [deps[i]] + deps[i + 1..];
    ProjectsCons(deps[i], deps[i + 1..]);
    ProjectsSnoc(m, deps[i]);
    forall e | e in deps[i + 1..] ensures e.project != deps[i].project {
      var k :| i + 1 <= k < |deps| && deps[k] == e;
    }
  }

  lemma {:induction false} AnswerEachStep(deps: seq<Dep>, i: nat, yes: seq<Dep>, no: seq<Dep>, script: seq<char>)
    requires i < |deps| && |deps| - i <= |script|
    requires DistinctProjects(deps)
    requires Projects(yes) !! Projects(deps[i..]) && Projects(no) !! Projects(deps[i..])
    requires forall k | 0 <= k < |deps| - i :: script[k] !in "aq"
    ensures InteractFrom(deps, i, yes, no, script)
         == Answered(yes + Picked(deps[i..], script, Accept), no + Picked(deps[i..], script, Reject),
                     script[|deps| - i..])
    decreases |deps| - i, 2
  {
    AnswerTail(deps, i, script);
    if script[0] == 'y' {
      AnswerAcceptStep(deps, i, yes, no, script);
    } else if script[0] == 'n' {
      AnswerRejectStep(deps, i, yes, no, script);
    } else {
      AnswerSkipStep(deps, i, yes, no, script);
    }
  }

  lemma {:induction false} AnswerAcceptStep(deps: seq<Dep>, i: nat, yes: seq<Dep>, no: seq<Dep>, script: seq<char>)
    requires i < |deps| && |deps| - i <= |script| && script[0] == 'y'
    requires DistinctProjects(deps)
    requires Projects(yes) !! Projects(deps[i..]) && Projects(no) !! Projects(deps[i..])
    requires forall k | 0 <= k < |deps| - i :: script[k] !in "aq"
    ensures InteractFrom(deps, i, yes, no, script)
         == Answered(yes + Picked(deps[i..], script, Accept), no + Picked(deps[i..], script, Reject),
                     script[|deps| - i..])
    decreases |deps| - i, 1
  {
    var dep, s', tail := deps[i], script[1..], deps[i + 1..];
    var pa, pr := Picked(tail, s', Accept), Picked(tail, s', Reject);
    AcceptRest(deps, i, yes, no, script);
    PickedCons(deps, i, script, Accept);
    PickedCons(deps, i, script, Reject);
    ConcatAssoc(yes, [dep], pa);
  }

  /** After y, the rest of the loop records the remaining answers after the accepted entry. */
  lemma {:induction false} AcceptRest(deps: seq<Dep>, i: nat, yes: seq<Dep>, no: seq<Dep>, script: seq<char>)
    requires i < |deps| && |deps| - i <= |script| && script[0] == 'y'
    requires DistinctProjects(deps)
    requires Projects(yes) !! Projects(deps[i..]) && Projects(no) !! Projects(deps[i..])
    requires forall k | 0 <= k < |deps| - i :: script[k] !in "aq"
    ensures InteractFrom(deps, i, yes, no, script)
         == Answered(yes + [deps[i]] + Picked(deps[i + 1..], script[1..], Accept),
                     no + Picked(deps[i + 1..], script[1..], Reject),
                     script[|deps| - i..])
    decreases |deps| - i, 0
  {
    AnswerTail(deps, i, script);
    DisjointTail(yes, deps, i);
    DisjointTail(no, deps, i);
    AcceptAppends(deps, i, yes, no, script);
    AnswerEachFrom(deps, i + 1, yes + [deps[i]], no, script[1..]);
  }

  lemma {:induction false} AnswerRejectStep(deps: seq<Dep>, i: nat, yes: seq<Dep>, no: seq<Dep>, script: seq<char>)
    requires i < |deps| && |deps| - i <= |script| && script[0] == 'n'
    requires DistinctProjects(deps)
    requires Projects(yes) !! Projects(deps[i..]) && Projects(no) !! Projects(deps[i..])
    requires forall k | 0 <= k < |deps| - i :: script[k] !in "aq"
    ensures InteractFrom(deps, i, yes, no, script)
         == Answered(yes + Picked(deps[i..], script, Accept), no + Picked(deps[i..], script, Reject),
                     script[|deps| - i..])
    decreases |deps| - i, 1
  {
    var dep, s', tail := deps[i], script[1..], deps[i + 1..];
    var pa, pr := Picked(tail, s', Accept), Picked(tail, s', Reject);
    RejectRest(deps, i, yes, no, script);
    PickedCons(deps, i, script, Accept);
    PickedCons(deps, i, script, Reject);
    ConcatAssoc(no, [dep], pr);
  }

  /** After n, the rest of the loop records the remaining answers after the rejected entry. */
  lemma {:induction false} RejectRest(deps: seq<Dep>, i: nat, yes: seq<Dep>, no: seq<Dep>, script: seq<char>)
    requires i < |deps| && |deps| - i <= |script| && script[0] == 'n'
    requires DistinctProjects(deps)
    requires Projects(yes) !! Projects(deps[i..]) && Projects(no) !! Projects(deps[i..])
    requires forall k | 0 <= k < |deps| - i :: script[k] !in "aq"
    ensures InteractFrom(deps, i, yes, no, script)
         == Answered(yes + Picked(deps[i + 1..], script[1..], Accept),
                     no + [deps[i]] + Picked(deps[i + 1..], script[1..], Reject),
                     script[|deps| - i..])
    decreases |deps| - i, 0
  {
    AnswerTail(deps, i, script);
    DisjointTail(yes, deps, i);
    DisjointTail(no, deps, i);
    RejectAppends(deps, i, yes, no, script);
    AnswerEachFrom(deps, i + 1, yes, no + [deps[i]], script[1..]);
  }

  lemma {:induction false} AnswerSkipStep(deps: seq<Dep>, i: nat, yes: seq<Dep>, no: seq<Dep>, script: seq<char>)
    requires i < |deps| && |deps| - i <= |script| && script[0] !in "ynqa"
    requires DistinctProjects(deps)
    requires Projects(yes) !! Projects(deps[i..]) && Projects(no) !! Projects(deps[i..])
    requires forall k | 0 <= k < |deps| - i :: script[k] !in "aq"
    ensures InteractFrom(deps, i, yes, no, script)
         == Answered(yes + Picked(deps[i..], script, Accept), no + Picked(deps[i..], script, Reject),
                     script[|deps| - i..])
    decreases |deps| - i, 1
  {
    var s', tail := script[1..], deps[i + 1..];
    var pa, pr := Picked(tail, s', Accept), Picked(tail, s', Reject);
    AnswerTail(deps, i, script);
    PickedCons(deps, i, script, Accept);
    PickedCons(deps, i, script, Reject);
    DisjointTail(yes, deps, i);
    DisjointTail(no, deps, i);
    SkipLeaves(deps, i, yes, no, script);
    AnswerEachFrom(deps, i + 1, yes, no, script[1..]);
  }

  /**
   Without a or q, one answer is taken per entry, even for entries that share
   a licence, and y and n record exactly the entries answered that way.
   */
  lemma AnswerEachEntry(deps: seq<Dep>, script: seq<char>)
    requires DistinctProjects(deps) && |deps| <= |script|
    requires forall k | 0 <= k < |deps| :: script[k] !in "aq"
    ensures Interact(deps, script)
         == Answered(Picked(deps, script, Accept), Picked(deps, script, Reject), script[|deps|..])
  {
    var pa, pr := Picked(deps, script, Accept), Picked(deps, script, Reject);
    assert InteractFrom(deps, 0, [], [], script) == Answered(pa, pr, script[|deps|..]) by {
      assert deps[0..] == deps;
      assert Projects([]) == {};
      AnswerEachFrom(deps, 0, [], [], script);
      assert [] + pa == pa && [] + pr == pr;
    }
  }

  /** a accepts every entry, including one rejected a moment earlier, and leaves the rejection in place. */
  lemma AcceptAllAfterReject()
    ensures Interact([Dep("a", "MIT"), Dep("b", "GPL"), Dep("c", "ISC")], "na")
         == Answered([Dep("a", "MIT"), Dep("b", "GPL"), Dep("c", "ISC")], [Dep("a", "MIT")], "")
  {
    var deps := [Dep("a", "MIT"), Dep("b", "GPL"), Dep("c", "ISC")];
    assert DistinctProjects(deps);
    RejectThenAcceptAll(deps, "na");
  }

  /** n on the first entry and then a: all entries accepted, the first also rejected. */
  lemma RejectThenAcceptAll(deps: seq<Dep>, script: seq<char>)
    requires |deps| > 1 && DistinctProjects(deps)
    requires |script| == 2 && script[0] == 'n' && script[1] == 'a'
    ensures Interact(deps, script) == Answered(deps, [deps[0]], [])
  {
    var tail := script[1..];
    assert InteractFrom(deps, 0, [], [], script) == InteractFrom(deps, 1, [], [deps[0]], tail) by {
      assert Projects([]) == {};
      RejectAppends(deps, 0, [], [], script);
      assert [] + [deps[0]] == [deps[0]];
    }
    assert InteractFrom(deps, 1, [], [deps[0]], tail) == Answered(SetAll([], deps), [deps[0]], []) by {
      AcceptAllStops(deps, 1, [], [deps[0]], tail);
    }
    assert SetAll([], deps) == deps by {
      assert Projects([]) == {};
      SetAllFresh([], deps);
      assert [] + deps == deps;
    }
  }

  /** a ends the loop with every entry set into the yes map. */
  lemma AcceptAllStops(deps: seq<Dep>, i: nat, yes: seq<Dep>, no: seq<Dep>, script: seq<char>)
    requires i < |deps| && |script| > 0 && script[0] == 'a'
    ensures InteractFrom(deps, i, yes, no, script) == Answered(SetAll(yes, deps), no, script[1..])
  {
  }

  /** An a answer records every entry as accepted, whatever came before. */
  lemma AcceptAllTakesEveryEntry(deps: seq<Dep>, i: nat, yes: seq<Dep>, no: seq<Dep>, script: seq<char>)
    requires i < |deps| && |script| > 0 && script[0] == 'a'
    requires DistinctProjects(deps) && DistinctProjects(yes)
    ensures InteractFrom(deps, i, yes, no, script).Answered?
    ensures forall d :: d in deps ==> d in InteractFrom(deps, i, yes, no, script).yes
    ensures InteractFrom(deps, i, yes, no, script).no == no
  {
    SetAllEntries(yes, deps);
  }

  /** The changed projects asked about, each under its current licence. */
  function ChangedEntries(wrong: seq<Change>): (r: seq<Dep>)
    ensures |r| == |wrong|
    ensures forall k | 0 <= k < |wrong| :: r[k] == Dep(wrong[k].project, wrong[k].currentLicense)
  {
    seq(|wrong|, k requires 0 <= k < |wrong| => Dep(wrong[k].project, wrong[k].currentLicense))
  }

  /** Both question rounds ask only about current entries that the known-good map lacks. */
  lemma AskedEntriesAreNew(current: seq<Dep>, knownGood: seq<Dep>)
    requires DistinctProjects(current) && DistinctProjects(knownGood)
    ensures var report := GenerateLicenseReport(current, knownGood);
            && (forall d :: d in report.added ==> d in current && d !in knownGood)
            && (forall d :: d in ChangedEntries(report.wrongLicense) ==> d in current && d !in knownGood)
            && (forall d :: d in report.added ==> d.project !in Projects(knownGood))
            && (forall d :: d in ChangedEntries(report.wrongLicense) ==> d.project in Projects(knownGood))
  {
    var report := GenerateLicenseReport(current, knownGood);
    var changed := ChangedEntries(report.wrongLicense);
    forall d | d in changed ensures d in current && d !in knownGood {
      var k :| 0 <= k < |changed| && changed[k] == d;
      var c := report.wrongLicense[k];
      assert c in report.wrongLicense;
      assert Dep(c.project, c.knownGoodLicense) in knownGood;
      if d in knownGood {
        DistinctProjectsUnique(knownGood, d, Dep(c.project, c.knownGoodLicense));
      }
    }
  }

  /**
   A question round: the loop over `deps`, or nothing asked when there is
   nothing to ask about.
   */
  function Round(deps: seq<Dep>, script: seq<char>): (r: Loop)
    ensures r.Answered? ==> (forall e :: e in r.yes ==> e in deps) && DistinctProjects(r.yes)
    ensures |deps| == 0 ==> r == Answered([], [], script)
  {
    if |deps| > 0 then Interact(deps, script) else Answered([], [], script)
  }

  /**
   The two rounds accept projects on opposite sides of the known-good map, so
   saving both into a fresh map lists the first round's entries, then the
   second's, each in the order they were accepted.
   */
  lemma {:induction false} SavedInOrder(yes1: seq<Dep>, yes2: seq<Dep>, knownGood: seq<Dep>)
    requires DistinctProjects(yes1) && DistinctProjects(yes2)
    requires forall d :: d in yes1 ==> d.project !in Projects(knownGood)
    requires forall d :: d in yes2 ==> d.project in Projects(knownGood)
    ensures SetAll(SetAll([], yes1), yes2) == yes1 + yes2
  {
    assert SetAll([], yes1) == yes1 by {
      assert Projects([]) == {};
      SetAllFresh([], yes1);
      assert [] + yes1 == yes1;
    }
    assert Projects(yes1) !! Projects(yes2) by {
      forall p | p in Projects(yes1) ensures p !in Projects(yes2) {
        var d :| d in yes1 && d.project == p;
        assert p !in Projects(knownGood);
      }
    }
    SetAllFresh(yes1, yes2);
  }

  /** Saving the accepted entries of both rounds into a fresh map keeps only those entries. */
  lemma SavedEntries(yes1: seq<Dep>, yes2: seq<Dep>, current: seq<Dep>, knownGood: seq<Dep>)
    requires forall d :: d in yes1 ==> d in current && d !in knownGood
    requires forall d :: d in yes2 ==> d in current && d !in knownGood
    ensures DistinctProjects(SetAll(SetAll([], yes1), yes2))
    ensures forall d :: d in SetAll(SetAll([], yes1), yes2) ==> d in current && d !in knownGood
  {
    SetAllEntries([], yes1);
    SetAllEntries(SetAll([], yes1), yes2);
  }

  /**
   The older `interactiveMode`: the added projects are asked about, then the
   changed ones (as their current licence), and the map saved holds only the
   entries accepted in this run; q writes nothing. No answer fails the run.
   */
  function InteractiveMode(current: seq<Dep>, knownGood: seq<Dep>, script: seq<char>): (r: Run<seq<Dep>>)
    requires DistinctProjects(current) && DistinctProjects(knownGood)
    ensures r.exit == Ok || r.exit == Quit
    ensures r.exit == Ok <==> r.written.Some?
    ensures r.written.Some? ==> DistinctProjects(r.written.value)
    ensures r.written.Some? ==> forall d :: d in r.written.value ==> d in current && d !in knownGood
    ensures var report := GenerateLicenseReport(current, knownGood);
            var first := Round(report.added, script);
            && (first.Aborted? ==> r == Run(Quit, None))
            && (first.Answered? ==>
                  var second := Round(ChangedEntries(report.wrongLicense), first.rest);
                  && (second.Aborted? ==> r == Run(Quit, None))
                  && (second.Answered? ==> r == Run(Ok, Some(first.yes + second.yes))))
  {
    var report := GenerateLicenseReport(current, knownGood);
    match Round(report.added, script)
    case Aborted => Run(Quit, None)
    case Answered(yes1, _, rest) =>
      match Round(ChangedEntries(report.wrongLicense), rest)
      case Aborted => Run(Quit, None)
      case Answered(yes2, _, _) =>
        AskedEntriesAreNew(current, knownGood);
        SavedEntries(yes1, yes2, current, knownGood);
        SavedInOrder(yes1, yes2, knownGood);
        Run(Ok, Some(yes1 + yes2))
  }

  /** q as the first answer, with some new project to ask about, ends the run with status 0 and saves nothing. */
  lemma QuitOnFirstQuestion(current: seq<Dep>, knownGood: seq<Dep>, script: seq<char>, d: Dep)
    requires DistinctProjects(current) && DistinctProjects(knownGood)
    requires d in current && d.project !in Projects(knownGood)
    requires |script| > 0 && script[0] == 'q'
    ensures InteractiveMode(current, knownGood, script) == Run(Quit, None)
  {
    var report := GenerateLicenseReport(current, knownGood);
    assert d in report.added;
    assert InteractFrom(report.added, 0, [], [], script) == Aborted;
  }

  /**
   q at the first question of the second round, after the first round has
   finished, also ends the run with status 0 and saves nothing, even though
   the first round accepted entries.
   */
  lemma QuitInSecondRound(current: seq<Dep>, knownGood: seq<Dep>, script: seq<char>)
    requires DistinctProjects(current) && DistinctProjects(knownGood)
    requires var report := GenerateLicenseReport(current, knownGood);
             var first := Round(report.added, script);
             && first.Answered? && |first.rest| > 0 && first.rest[0] == 'q'
             && |ChangedEntries(report.wrongLicense)| > 0
    ensures InteractiveMode(current, knownGood, script) == Run(Quit, None)
  {
    var report := GenerateLicenseReport(current, knownGood);
    var first := Round(report.added, script);
    AbortEnds(ChangedEntries(report.wrongLicense), 0, [], [], first.rest);
  }

  /** An unchanged known project is never re-saved: the old entries are not carried over. */
  lemma KnownGoodNotCarriedOver(current: seq<Dep>, knownGood: seq<Dep>, script: seq<char>, d: Dep)
    requires DistinctProjects(current) && DistinctProjects(knownGood)
    requires d in knownGood
    ensures var r := InteractiveMode(current, knownGood, script);
            r.written.Some? ==> d !in r.written.value
  {
  }

  /**
   The script: no arguments checks, `--interactive` asks, anything else
   prints the usage and exits with status 2.
   */
  function CheckLicensesScript(argv: seq<string>, current: seq<Dep>, knownGood: seq<Dep>, script: seq<char>)
    : (r: Run<seq<Dep>>)
    requires DistinctProjects(current) && DistinctProjects(knownGood)
    ensures |argv| == 2 ==> r.written == None
    ensures |argv| == 2 ==> (r.exit == Ok <==> forall d :: d in current <==> d in knownGood)
    ensures |argv| == 3 && argv[2] == "--interactive" ==> r == InteractiveMode(current, knownGood, script)
    ensures |argv| != 2 && !(|argv| == 3 && argv[2] == "--interactive") ==> r == Run(Fail(2), None)
  {
    if |argv| == 2 then
      CheckPassesIffMapsAgree(current, knownGood);
      Run(CheckLicenses(GenerateLicenseReport(current, knownGood)), None)
    else if |argv| == 3 && argv[2] == "--interactive" then InteractiveMode(current, knownGood, script)
    else Run(Fail(2), None)
  }
}
