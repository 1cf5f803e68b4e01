/**
 The entities shared by every iteration of the licence checker: a dependency
 is a (project, licence) pair, and a JavaScript `Map` keyed by project is an
 insertion-ordered sequence of such pairs. Process exits become values.
 */
module Deps {
  import opened Seqs

  /** A package name. */
  type Project = string

  /** A licence identifier such as "MIT"; never validated. */
  type License = string

  /** The `{project, license}` record of the source. */
  datatype Dep = Dep(project: Project, license: License)

  datatype Option<+T> = None | Some(value: T)

  /** What `process.exit` (or falling off the end of the script) amounts to. */
  datatype Exit =
    | Ok              // the script ends normally, exit status 0
    | Quit            // `process.exit(0)` on the answer q
    | Fail(code: nat) // `process.exit(code)` with a non-zero status
    | Blocked         // input ran out at a question that is then asked again forever

  /** The exit together with what was written to the approval file, if anything. */
  datatype Run<W> = Run(exit: Exit, written: Option<W>)

  /** The licences of `deps`, position for position. */
  function Licenses(deps: seq<Dep>): (r: seq<License>)
    ensures |r| == |deps|
    ensures forall k | 0 <= k < |deps| :: r[k] == deps[k].license
  {
    seq(|deps|, k requires 0 <= k < |deps| => deps[k].license)
  }

  lemma LicensesSnoc(deps: seq<Dep>, d: Dep)
    ensures Licenses(deps + [d]) == Licenses(deps) + [d.license]
  {
  }

  /** The keys of a map, that is the projects it mentions. */
  function Projects(m: seq<Dep>): set<Project> {
    set d | d in m :: d.project
  }

  lemma ProjectsCons(x: Dep, m: seq<Dep>)
    ensures Projects([x] + m) == {x.project} + Projects(m)
  {
    assert forall e :: e in [x] + m <==> e == x || e in m;
  }

  lemma ProjectsSnoc(m: seq<Dep>, x: Dep)
    ensures Projects(m + [x]) == Projects(m) + {x.project}
  {
    assert forall e :: e in m + [x] <==> e == x || e in m;
  }

  /** The map invariant of a JS `Map`: no project occurs twice. */
  predicate DistinctProjects(m: seq<Dep>) {
    forall i, j | 0 <= i < j < |m| :: m[i].project != m[j].project
  }

  lemma DistinctProjectsSnoc(m: seq<Dep>, d: Dep)
    ensures DistinctProjects(m + [d]) <==> DistinctProjects(m) && d.project !in Projects(m)
  {
    var t := m + [d];
    if DistinctProjects(t) {
      forall e | e in m ensures e.project != d.project {
        var i :| 0 <= i < |m| && m[i] == e;
        assert t[i] == e && t[|m|] == d;
      }
      forall i, j | 0 <= i < j < |m| ensures m[i].project != m[j].project {
        assert t[i] == m[i] && t[j] == m[j];
      }
    }
    if DistinctProjects(m) && d.project !in Projects(m) {
      forall i, j | 0 <= i < j < |t| ensures t[i].project != t[j].project {
        if j == |m| {
          assert t[i] == m[i];
          assert m[i] in m;
        }
      }
    }
  }

  lemma DistinctProjectsCons(d: Dep, m: seq<Dep>)
    ensures DistinctProjects([d] + m) <==> DistinctProjects(m) && d.project !in Projects(m)
  {
    var t := [d] + m;
    if DistinctProjects(t) {
      forall e | e in m ensures e.project != d.project {
        var i :| 0 <= i < |m| && m[i] == e;
        assert t[i + 1] == e && t[0] == d;
      }
      forall i, j | 0 <= i < j < |m| ensures m[i].project != m[j].project {
        assert t[i + 1] == m[i] && t[j + 1] == m[j];
      }
    }
    if DistinctProjects(m) && d.project !in Projects(m) {
      forall i, j | 0 <= i < j < |t| ensures t[i].project != t[j].project {
        if i == 0 {
          assert t[j] == m[j - 1];
          assert m[j - 1] in m;
        } else {
          assert t[i] == m[i - 1] && t[j] == m[j - 1];
        }
      }
    }
  }

  /** In a map each project has one licence. */
  lemma DistinctProjectsUnique(m: seq<Dep>, a: Dep, b: Dep)
    requires DistinctProjects(m) && a in m && b in m && a.project == b.project
    ensures a == b
  {
    var i :| 0 <= i < |m| && m[i] == a;
    var j :| 0 <= j < |m| && m[j] == b;
  }

  lemma DistinctProjectsHead(m: seq<Dep>)
    requires |m| > 0
    ensures DistinctProjects(m) ==> forall l :: Dep(m[0].project, l) in m ==> l == m[0].license
  {
    if DistinctProjects(m) {
      forall l | Dep(m[0].project, l) in m ensures l == m[0].license {
        DistinctProjectsUnique(m, Dep(m[0].project, l), m[0]);
      }
    }
  }

  /** `Map.prototype.get`: the licence stored for `p`, if any. */
  function Lookup(m: seq<Dep>, p: Project): (r: Option<License>)
    ensures r.None? <==> p !in Projects(m)
    ensures r.Some? ==> Dep(p, r.value) in m
    ensures DistinctProjects(m) ==> forall l :: r == Some(l) <==> Dep(p, l) in m
  {
    if |m| == 0 then None
    else if m[0].project == p then
      DistinctProjectsHead(m);
      Some(m[0].license)
    else
      var r := Lookup(m[1..], p);
      assert m == [m[0]] + m[1..];
      DistinctProjectsCons(m[0], m[1..]);
      r
  }

  lemma LookupCons(x: Dep, m: seq<Dep>, q: Project)
    ensures Lookup([x] + m, q) == if x.project == q then Some(x.license) else Lookup(m, q)
  {
    assert ([x] + m)[1..] == m;
  }

  /** The position of the first entry for `p`. */
  function KeyIndex(m: seq<Dep>, p: Project): (i: nat)
    requires p in Projects(m)
    ensures i < |m| && m[i].project == p
    ensures forall k | 0 <= k < i :: m[k].project != p
  {
    if m[0].project == p then 0
    else
      assert m == [m[0]] + m[1..];
      ProjectsCons(m[0], m[1..]);
      1 + KeyIndex(m[1..], p)
  }

  /**
   `Map.prototype.set`: an existing key keeps its position and takes the new
   licence; a new key is appended.
   */
  function MapSet(m: seq<Dep>, d: Dep): (r: seq<Dep>)
    ensures forall q :: Lookup(r, q) == if q == d.project then Some(d.license) else Lookup(m, q)
    ensures Projects(r) == Projects(m) + {d.project}
    ensures d.project !in Projects(m) ==> r == m + [d]
  {
    if |m| == 0 then [d]
    else if m[0].project == d.project then
      assert m == [m[0]] + m[1..];
      ProjectsCons(m[0], m[1..]);
      ProjectsCons(d, m[1..]);
      forall q ensures Lookup([d] + m[1..], q) == if q == d.project then Some(d.license) else Lookup(m, q) {
        LookupCons(d, m[1..], q);
        LookupCons(m[0], m[1..], q);
      }
      [d] + m[1..]
    else
      var t := MapSet(m[1..], d);
      assert m == [m[0]] + m[1..];
      ProjectsCons(m[0], m[1..]);
      ProjectsCons(m[0], t);
      forall q ensures Lookup([m[0]] + t, q) == if q == d.project then Some(d.license) else Lookup(m, q) {
        LookupCons(m[0], t, q);
        LookupCons(m[0], m[1..], q);
      }
      [m[0]] + t
  }

  /** Setting a project the map already holds replaces its entry where it stands. */
  lemma {:induction false} MapSetInPlace(m: seq<Dep>, d: Dep)
    requires d.project in Projects(m)
    ensures MapSet(m, d) == m[KeyIndex(m, d.project) := d]
  {
    if m[0].project == d.project {
      assert KeyIndex(m, d.project) == 0;
      assert MapSet(m, d) == [d] + m[1..];
    } else {
      var t := m[1..];
      assert d.project in Projects(t) by {
        assert m == [m[0]] + t;
        ProjectsCons(m[0], t);
      }
      var k := KeyIndex(t, d.project);
      assert KeyIndex(m, d.project) == k + 1;
      assert MapSet(m, d) == [m[0]] + MapSet(t, d);
      MapSetInPlace(t, d);
      UpdateTail(m, k, d);
    }
  }

  /** Setting the project of the first entry replaces that entry in place. */
  lemma MapSetHead(x: Dep, m: seq<Dep>, d: Dep)
    requires x.project == d.project
    ensures MapSet([x] + m, d) == [d] + m
  {
    assert ([x] + m)[1..] == m;
  }

  /** Three sets where the third repeats the first project: it overwrites in place. */
  lemma MapSetOverwrite(d1: Dep, d2: Dep, d3: Dep)
    requires d1.project != d2.project && d3.project == d1.project
    ensures MapSet(MapSet(MapSet([], d1), d2), d3) == [d3, d2]
  {
    assert Projects([]) == {};
    assert MapSet([], d1) == [d1];
    assert Projects([d1]) == {d1.project};
    assert MapSet([d1], d2) == [d1] + [d2];
    MapSetHead(d1, [d2], d3);
  }

  /** On a well-formed map, `MapSet` replaces the entry for the key and keeps the map well formed. */
  lemma {:induction false} MapSetEntries(m: seq<Dep>, d: Dep)
    requires DistinctProjects(m)
    ensures DistinctProjects(MapSet(m, d))
    ensures forall e :: e in MapSet(m, d) <==> e == d || (e in m && e.project != d.project)
  {
    if |m| == 0 {
    } else if m[0].project == d.project {
      assert m == [m[0]] + m[1..];
      DistinctProjectsCons(m[0], m[1..]);
      DistinctProjectsCons(d, m[1..]);
    } else {
      var t := MapSet(m[1..], d);
      assert m == [m[0]] + m[1..];
      DistinctProjectsCons(m[0], m[1..]);
      MapSetEntries(m[1..], d);
      DistinctProjectsCons(m[0], t);
      assert MapSet(m, d) == [m[0]] + t;
    }
  }

  /** `Map.prototype.delete`: the entry for `p` disappears and every other entry stays. */
  function Delete(m: seq<Dep>, p: Project): (r: seq<Dep>)
    ensures forall e :: e in r ==> e in m
    ensures DistinctProjects(m) ==> DistinctProjects(r)
    ensures DistinctProjects(m) ==> forall e :: e in r <==> e in m && e.project != p
  {
    if |m| == 0 then []
    else if m[0].project == p then
      assert m == [m[0]] + m[1..];
      DistinctProjectsCons(m[0], m[1..]);
      m[1..]
    else
      var t := Delete(m[1..], p);
      assert m == [m[0]] + m[1..];
      DistinctProjectsCons(m[0], m[1..]);
      DistinctProjectsCons(m[0], t);
      [m[0]] + t
  }

  /**
   Deleting removes only the first entry for `p`, where it stands, and keeps
   the others in their order; deleting a project the map lacks changes nothing.
   */
  lemma {:induction false} DeleteInPlace(m: seq<Dep>, p: Project)
    ensures p !in Projects(m) ==> Delete(m, p) == m
    ensures p in Projects(m) ==> Delete(m, p) == m[..KeyIndex(m, p)] + m[KeyIndex(m, p) + 1..]
  {
    if |m| > 0 && m[0].project != p {
      var t := m[1..];
      assert Projects(m) == {m[0].project} + Projects(t) by {
        assert m == [m[0]] + t;
        ProjectsCons(m[0], t);
      }
      assert Delete(m, p) == [m[0]] + Delete(t, p);
      DeleteInPlace(t, p);
      if p in Projects(t) {
        var k := KeyIndex(t, p);
        assert KeyIndex(m, p) == k + 1;
        RemoveTail(m, k);
      } else {
        assert m == [m[0]] + t;
      }
    }
  }

  /** `Map.prototype.set` for every entry of `ds` in order. */
  function SetAll(m: seq<Dep>, ds: seq<Dep>): (r: seq<Dep>)
    ensures Projects(r) == Projects(m) + Projects(ds)
    decreases |ds|
  {
    if |ds| == 0 then m
    else
      var ds' := ds[..|ds| - 1];
      assert ds == ds' + [ds[|ds| - 1]];
      ProjectsSnoc(ds', ds[|ds| - 1]);
      MapSet(SetAll(m, ds'), ds[|ds| - 1])
  }

  /**
   Folding `Map.prototype.set` over `ds` keeps the map well formed, takes its
   entries only from `m` and `ds`, and, when `ds` has one entry per project,
   holds every entry of `ds`.
   */
  lemma {:induction false} SetAllEntries(m: seq<Dep>, ds: seq<Dep>)
    requires DistinctProjects(m)
    ensures DistinctProjects(SetAll(m, ds))
    ensures forall e :: e in SetAll(m, ds) ==> e in m || e in ds
    ensures DistinctProjects(ds) ==> forall d :: d in ds ==> d in SetAll(m, ds)
    decreases |ds|
  {
    if |ds| > 0 {
      var ds' := ds[..|ds| - 1];
      var d := ds[|ds| - 1];
      assert ds == ds' + [d];
      SetAllEntries(m, ds');
      MapSetEntries(SetAll(m, ds'), d);
      DistinctProjectsSnoc(ds', d);
      if DistinctProjects(ds) {
        forall e | e in ds' ensures e.project != d.project {
          assert e.project in Projects(ds');
        }
      }
    }
  }

  /** Setting projects the map does not hold yet appends them in order. */
  lemma {:induction false} SetAllFresh(m: seq<Dep>, ds: seq<Dep>)
    requires DistinctProjects(ds) && Projects(m) !! Projects(ds)
    ensures SetAll(m, ds) == m + ds
    decreases |ds|
  {
    if |ds| > 0 {
      var ds' := ds[..|ds| - 1];
      var d := ds[|ds| - 1];
      assert ds == ds' + [d];
      DistinctProjectsSnoc(ds', d);
      ProjectsSnoc(ds', d);
      SetAllFresh(m, ds');
      assert d.project !in Projects(m + ds') by {
        assert Projects(m + ds') == Projects(m) + Projects(ds');
      }
      assert m + ds' + [d] == m + ds;
    }
  }

  /**
   `Set.prototype.add` for every licence of `added`, in order, on a set kept
   as its insertion-ordered elements: a licence already present is not
   added again, a new one goes to the end.
   */
  function AddAll(set_: seq<License>, added: seq<License>): (r: seq<License>)
    ensures set_ <= r
    ensures forall l :: l in r <==> l in set_ || l in added
    ensures NoDup(set_) ==> NoDup(r)
    ensures IsSubsequence(r[|set_|..], added)
    decreases |added|
  {
    if |added| == 0 then
      SubsequenceRefl(set_[|set_|..]);
      set_
    else
      var added' := added[..|added| - 1];
      var x := added[|added| - 1];
      var t := AddAll(set_, added');
      AddOne(set_, added', x, t);
      assert added == added' + [x];
      if x in t then t else t + [x]
  }

  /** Adding `x` once the elements of `added'` have been added keeps the properties `AddAll` promises. */
  lemma AddOne(set_: seq<License>, added': seq<License>, x: License, t: seq<License>)
    requires set_ <= t
    requires forall l :: l in t <==> l in set_ || l in added'
    requires NoDup(set_) ==> NoDup(t)
    requires IsSubsequence(t[|set_|..], added')
    ensures var r := if x in t then t else t + [x];
            && set_ <= r
            && (forall l :: l in r <==> l in set_ || l in added' + [x])
            && (NoDup(set_) ==> NoDup(r))
            && IsSubsequence(r[|set_|..], added' + [x])
  {
    NoDupSnoc(t, x);
    if x in t {
      SubsequenceSnocRight(t[|set_|..], added', x);
    } else {
      SubsequenceSnocBoth(t[|set_|..], added', x);
      DropSnoc(t, |set_|, x);
    }
  }

  /**
   Adding to a set keeps the first occurrence of every element, in order: the
   result is the deduplication of everything seen.
   */
  lemma {:induction false} AddAllFirstOccurrence(set_: seq<License>, added: seq<License>)
    requires NoDup(set_)
    ensures AddAll(set_, added) == Dedup(set_ + added)
    decreases |added|
  {
    if |added| == 0 {
      assert set_ + added == set_;
      DedupOfNoDup(set_);
    } else {
      var added' := added[..|added| - 1];
      var x := added[|added| - 1];
      assert added == added' + [x];
      assert set_ + added == (set_ + added') + [x];
      AddAllFirstOccurrence(set_, added');
      DedupSnoc(set_ + added', x);
    }
  }

  /** The members of an insertion-ordered set. */
  function Elements(s: seq<License>): set<License> {
    set l | l in s
  }
}
