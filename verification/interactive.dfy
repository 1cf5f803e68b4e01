/**
 The question loop of `src/interactive-mode.js`: one question per distinct
 unapproved licence, answered from a scripted standard input, then the
 accepted licences are merged into the known-good set and written back.
 */
module Interactive {
  import opened Seqs
  import opened Deps

  /** The answers `askQuestion` lets through. */
  datatype Answer = Accept | Reject | Abort | Help

  /**
   `askQuestion` after the prompt: the first character read from standard
   input, where anything other than y, n, q or ? counts as ?.
   */
  function AskQuestion(raw: char): (a: Answer)
    ensures a == Accept <==> raw == 'y'
    ensures a == Reject <==> raw == 'n'
    ensures a == Abort <==> raw == 'q'
    ensures a == Help <==> raw !in "ynq"
  {
    if raw == 'y' then Accept
    else if raw == 'n' then Reject
    else if raw == 'q' then Abort
    else Help
  }

  /** The `{yes, no}` object `interact` builds: accepted and rejected licences. */
  datatype Answers = Answers(yes: seq<License>, no: seq<License>)

  /** How the question loop ends. */
  datatype Loop =
    | Finished(answers: Answers)
    | Aborted      // the answer q: `process.exit(0)` inside the loop
    | OutOfInput   // the script ran out while a question was pending

  /**
   The state of `interact` before entry `i`: every licence met so far is
   decided exactly once, accepted or rejected, and each list keeps the order
   in which the licences first appear.
   */
  ghost predicate Decided(deps: seq<Dep>, i: nat, yes: seq<License>, no: seq<License>)
    requires i <= |deps|
  {
    var seen := Licenses(deps[..i]);
    && IsSubsequence(yes, Dedup(seen))
    && IsSubsequence(no, Dedup(seen))
    && (forall l :: l in yes || l in no <==> l in seen)
    && (forall l :: l in yes ==> l !in no)
  }

  lemma SeenSnoc(deps: seq<Dep>, i: nat)
    requires i < |deps|
    ensures Licenses(deps[..i + 1]) == Licenses(deps[..i]) + [deps[i].license]
  {
    assert deps[..i + 1] == deps[..i] + [deps[i]];
    LicensesSnoc(deps[..i], deps[i]);
  }

  /** An entry whose licence is already decided leaves the state as it is. */
  lemma DecidedSkip(deps: seq<Dep>, i: nat, yes: seq<License>, no: seq<License>)
    requires i < |deps|
    requires deps[i].license in yes || deps[i].license in no
    ensures Decided(deps, i, yes, no) ==> Decided(deps, i + 1, yes, no)
  {
    SeenSnoc(deps, i);
    DedupSnoc(Licenses(deps[..i]), deps[i].license);
  }

  /** Deciding a new licence appends it to exactly one of the two lists. */
  lemma DecidedAdd(deps: seq<Dep>, i: nat, yes: seq<License>, no: seq<License>, accept: bool)
    requires i < |deps|
    requires deps[i].license !in yes && deps[i].license !in no
    ensures Decided(deps, i, yes, no) && accept ==> Decided(deps, i + 1, yes + [deps[i].license], no)
    ensures Decided(deps, i, yes, no) && !accept ==> Decided(deps, i + 1, yes, no + [deps[i].license])
  {
    if !Decided(deps, i, yes, no) { return; }
    var x := deps[i].license;
    var seen := Licenses(deps[..i]);
    SeenSnoc(deps, i);
    DedupSnoc(seen, x);
    if accept {
      SubsequenceSnocBoth(yes, Dedup(seen), x);
      SubsequenceSnocRight(no, Dedup(seen), x);
    } else {
      SubsequenceSnocRight(yes, Dedup(seen), x);
      SubsequenceSnocBoth(no, Dedup(seen), x);
    }
  }

  /**
   The `for` loop of `interact` from entry `i` on. An entry whose licence is
   decided is skipped without a question; otherwise one answer is consumed:
   y and n decide the licence and move on, q ends the process, and ? (or
   anything unrecognised) asks about the same entry again.
   */
  function InteractFrom(deps: seq<Dep>, i: nat, yes: seq<License>, no: seq<License>, script: seq<char>): (r: Loop)
    requires i <= |deps|
    ensures r.Finished? ==> yes <= r.answers.yes && no <= r.answers.no
    decreases |deps| - i, |script|
  {
    if i == |deps| then Finished(Answers(yes, no))
    else
      var x := deps[i].license;
      if x in yes || x in no then InteractFrom(deps, i + 1, yes, no, script)
      else if |script| == 0 then OutOfInput
      else
        match AskQuestion(script[0])
        case Accept => InteractFrom(deps, i + 1, yes + [x], no, script[1..])
        case Reject => InteractFrom(deps, i + 1, yes, no + [x], script[1..])
        case Abort => Aborted
        case Help => InteractFrom(deps, i, yes, no, script[1..])
  }

  /** The loop keeps every licence of the entries it has passed decided exactly once. */
  lemma {:induction false} InteractFromDecided(deps: seq<Dep>, i: nat, yes: seq<License>, no: seq<License>, script: seq<char>)
    requires i <= |deps|
    ensures var r := InteractFrom(deps, i, yes, no, script);
            Decided(deps, i, yes, no) && r.Finished? ==> Decided(deps, |deps|, r.answers.yes, r.answers.no)
    decreases |deps| - i, |script|
  {
    if i < |deps| {
      var x := deps[i].license;
      if x in yes || x in no {
        DecidedSkip(deps, i, yes, no);
        InteractFromDecided(deps, i + 1, yes, no, script);
      } else if |script| > 0 {
        DecidedAdd(deps, i, yes, no, true);
        DecidedAdd(deps, i, yes, no, false);
        match AskQuestion(script[0])
        case Accept => InteractFromDecided(deps, i + 1, yes + [x], no, script[1..]);
        case Reject => InteractFromDecided(deps, i + 1, yes, no + [x], script[1..]);
        case Abort =>
        case Help => InteractFromDecided(deps, i, yes, no, script[1..]);
      }
    }
  }

  /**
   `interact`: on completion every licence of `deps` is decided exactly once,
   the two lists are disjoint and free of duplicates, nothing else appears in
   them, and both follow the order in which the licences first occur.
   */
  function Interact(deps: seq<Dep>, script: seq<char>): (r: Loop)
    ensures r.Finished? ==> forall k | 0 <= k < |deps| ::
              deps[k].license in r.answers.yes || deps[k].license in r.answers.no
    ensures r.Finished? ==> forall l | l in r.answers.yes || l in r.answers.no :: l in Licenses(deps)
    ensures r.Finished? ==> forall l | l in r.answers.yes :: l !in r.answers.no
    ensures r.Finished? ==> NoDup(r.answers.yes) && NoDup(r.answers.no)
    ensures r.Finished? ==> IsSubsequence(r.answers.yes, Dedup(Licenses(deps)))
    ensures r.Finished? ==> IsSubsequence(r.answers.no, Dedup(Licenses(deps)))
  {
    assert deps[..0] == [];
    InteractFromDecided(deps, 0, [], [], script);
    var r := InteractFrom(deps, 0, [], [], script);
    assert deps[..|deps|] == deps;
    if r.Finished? then
      SubsequenceNoDup(r.answers.yes, Dedup(Licenses(deps)));
      SubsequenceNoDup(r.answers.no, Dedup(Licenses(deps)));
      r
    else r
  }

  /** An entry whose licence was decided earlier costs no answer. */
  lemma DecidedLicenseNotAskedAgain(deps: seq<Dep>, i: nat, yes: seq<License>, no: seq<License>, script: seq<char>)
    requires i < |deps| && (deps[i].license in yes || deps[i].license in no)
    ensures InteractFrom(deps, i, yes, no, script) == InteractFrom(deps, i + 1, yes, no, script)
  {
  }

  /** ? and unrecognised answers present the same entry again. */
  lemma HelpAsksAgain(deps: seq<Dep>, i: nat, yes: seq<License>, no: seq<License>, script: seq<char>)
    requires i < |deps| && deps[i].license !in yes && deps[i].license !in no
    requires |script| > 0 && script[0] !in "ynq"
    ensures InteractFrom(deps, i, yes, no, script) == InteractFrom(deps, i, yes, no, script[1..])
  {
  }

  /** y decides the licence of the current entry and moves to the next one. */
  lemma AcceptAdvances(deps: seq<Dep>, i: nat, yes: seq<License>, no: seq<License>, script: seq<char>)
    requires i < |deps| && deps[i].license !in yes && deps[i].license !in no
    requires |script| > 0 && script[0] == 'y'
    ensures InteractFrom(deps, i, yes, no, script)
         == InteractFrom(deps, i + 1, yes + [deps[i].license], no, script[1..])
  {
  }

  /** n decides the licence of the current entry as rejected and moves to the next one. */
  lemma RejectAdvances(deps: seq<Dep>, i: nat, yes: seq<License>, no: seq<License>, script: seq<char>)
    requires i < |deps| && deps[i].license !in yes && deps[i].license !in no
    requires |script| > 0 && script[0] == 'n'
    ensures InteractFrom(deps, i, yes, no, script)
         == InteractFrom(deps, i + 1, yes, no + [deps[i].license], script[1..])
  {
  }

  /** q at any pending question ends the loop, whatever input follows. */
  lemma AbortEnds(deps: seq<Dep>, i: nat, yes: seq<License>, no: seq<License>, script: seq<char>)
    requires i < |deps| && deps[i].license !in yes && deps[i].license !in no
    requires |script| > 0 && script[0] == 'q'
    ensures InteractFrom(deps, i, yes, no, script) == Aborted
  {
  }

  lemma DedupPrefixGrows(s: seq<License>, i: nat)
    requires i < |s|
    ensures Dedup(s[..i + 1]) == if s[i] in s[..i] then Dedup(s[..i]) else Dedup(s[..i]) + [s[i]]
  {
    assert s[..i + 1] == s[..i] + [s[i]];
    DedupSnoc(s[..i], s[i]);
  }

  lemma {:induction false} DedupPrefixShorter(s: seq<License>, i: nat)
    requires i <= |s|
    ensures |Dedup(s[..i])| <= |Dedup(s)|
    decreases |s| - i
  {
    if i < |s| {
      DedupPrefixGrows(s, i);
      DedupPrefixShorter(s, i + 1);
    } else {
      assert s[..i] == s;
    }
  }

  lemma {:induction false} AcceptAllFrom(deps: seq<Dep>, i: nat, ys: seq<char>)
    requires i <= |deps|
    requires forall k | 0 <= k < |ys| :: ys[k] == 'y'
    requires |ys| == |Dedup(Licenses(deps))| - |Dedup(Licenses(deps)[..i])|
    ensures InteractFrom(deps, i, Dedup(Licenses(deps)[..i]), [], ys) == Finished(Answers(Dedup(Licenses(deps)), []))
    decreases |deps| - i
  {
    var s := Licenses(deps);
    if i == |deps| {
      assert s[..i] == s;
    } else {
      AcceptAllStep(deps, i, ys);
    }
  }

  lemma {:induction false} AcceptAllStep(deps: seq<Dep>, i: nat, ys: seq<char>)
    requires i < |deps|
    requires forall k | 0 <= k < |ys| :: ys[k] == 'y'
    requires |ys| == |Dedup(Licenses(deps))| - |Dedup(Licenses(deps)[..i])|
    ensures InteractFrom(deps, i, Dedup(Licenses(deps)[..i]), [], ys) == Finished(Answers(Dedup(Licenses(deps)), []))
    decreases |deps| - i, 1
  {
    var s := Licenses(deps);
    assert s[i] == deps[i].license;
    if deps[i].license in s[..i] {
      AcceptAllSeen(deps, i, ys);
    } else {
      AcceptAllUnseen(deps, i, ys);
    }
  }

  /** A licence seen earlier is already in the accepted list and costs no answer. */
  lemma {:induction false} AcceptAllSeen(deps: seq<Dep>, i: nat, ys: seq<char>)
    requires i < |deps| && deps[i].license in Licenses(deps)[..i]
    requires forall k | 0 <= k < |ys| :: ys[k] == 'y'
    requires |ys| == |Dedup(Licenses(deps))| - |Dedup(Licenses(deps)[..i])|
    ensures InteractFrom(deps, i, Dedup(Licenses(deps)[..i]), [], ys) == Finished(Answers(Dedup(Licenses(deps)), []))
    decreases |deps| - i, 0
  {
    var s := Licenses(deps);
    var d := Dedup(s[..i]);
    assert s[i] == deps[i].license;
    DedupPrefixGrows(s, i);
    assert deps[i].license in d;
    AcceptAllFrom(deps, i + 1, ys);
    DecidedLicenseNotAskedAgain(deps, i, d, [], ys);
  }

  /** A licence not seen before takes one y and is appended to the accepted list. */
  lemma {:induction false} AcceptAllUnseen(deps: seq<Dep>, i: nat, ys: seq<char>)
    requires i < |deps| && deps[i].license !in Licenses(deps)[..i]
    requires forall k | 0 <= k < |ys| :: ys[k] == 'y'
    requires |ys| == |Dedup(Licenses(deps))| - |Dedup(Licenses(deps)[..i])|
    ensures InteractFrom(deps, i, Dedup(Licenses(deps)[..i]), [], ys) == Finished(Answers(Dedup(Licenses(deps)), []))
    decreases |deps| - i, 0
  {
    var s := Licenses(deps);
    var d := Dedup(s[..i]);
    assert s[i] == deps[i].license;
    DedupPrefixGrows(s, i);
    DedupPrefixShorter(s, i + 1);
    assert deps[i].license !in d;
    var ys' := ys[1..];
    assert |ys'| == |Dedup(s)| - |Dedup(s[..i + 1])|;
    AcceptAllFrom(deps, i + 1, ys');
    AcceptAdvances(deps, i, d, [], ys);
  }

  /**
   Answering y to everything takes exactly one answer per distinct licence
   and accepts the licences in order of first occurrence.
   */
  lemma AcceptEverything(deps: seq<Dep>)
    ensures Interact(deps, seq(|Dedup(Licenses(deps))|, _ => 'y'))
         == Finished(Answers(Dedup(Licenses(deps)), []))
  {
    assert Licenses(deps)[..0] == [];
    AcceptAllFrom(deps, 0, seq(|Dedup(Licenses(deps))|, _ => 'y'));
  }

  /** Two projects on one licence: a single y approves both. */
  lemma SharedLicenseAskedOnce()
    ensures Interact([Dep("a", "MIT"), Dep("b", "MIT")], "y") == Finished(Answers(["MIT"], []))
  {
  }

  /** An unrecognised answer and a ? are followed by a fresh question about the same entry. */
  lemma UnrecognisedAnswerReasks()
    ensures Interact([Dep("a", "MIT")], "x?y") == Finished(Answers(["MIT"], []))
  {
  }

  /**
   `interactiveMode`: nothing to ask means nothing written; otherwise the
   loop runs, and unless it was quit the accepted licences are added to the
   known-good set, which is written back as a list in insertion order (also
   when nothing was accepted); any rejection then fails with exit status 3.
   */
  function InteractiveMode(unapproved: seq<Dep>, knownGood: seq<License>, script: seq<char>): (r: Run<seq<License>>)
    ensures |unapproved| == 0 ==> r == Run(Ok, None)
    ensures r.exit == Quit || r.exit == Blocked ==> r.written == None
    ensures r.exit.Fail? ==> r.exit.code == 3 && r.written.Some?
    ensures r.written.Some? ==> knownGood <= r.written.value
    ensures r.written.Some? && NoDup(knownGood) ==> NoDup(r.written.value)
    ensures r.written.Some? ==> forall l | l in r.written.value :: l in knownGood || l in Licenses(unapproved)
    ensures r.exit == Ok && |unapproved| > 0 ==>
              r.written.Some? && forall k | 0 <= k < |unapproved| :: unapproved[k].license in r.written.value
    ensures r.exit == Fail(3) && (forall k | 0 <= k < |unapproved| :: unapproved[k].license !in knownGood) ==>
              exists k | 0 <= k < |unapproved| :: unapproved[k].license !in r.written.value
  {
    if |unapproved| == 0 then Run(Ok, None)
    else match Interact(unapproved, script)
      case Aborted => Run(Quit, None)
      case OutOfInput => Run(Blocked, None)
      case Finished(answers) =>
        var saved := AddAll(knownGood, answers.yes);
        if |answers.no| > 0 then
          var l := answers.no[0];
          assert l in Licenses(unapproved);
          var k :| 0 <= k < |unapproved| && unapproved[k].license == l;
          Run(Fail(3), Some(saved))
        else
          Run(Ok, Some(saved))
  }

  /**
   The verdict follows the loop: q quits, running out of input blocks, and a
   finished loop saves the old set extended by the accepted licences, failing
   exactly when something was rejected.
   */
  lemma InteractiveModeVerdict(unapproved: seq<Dep>, knownGood: seq<License>, script: seq<char>)
    requires |unapproved| > 0
    ensures var loop := Interact(unapproved, script);
            var r := InteractiveMode(unapproved, knownGood, script);
            && (r.exit == Quit <==> loop.Aborted?)
            && (r.exit == Blocked <==> loop.OutOfInput?)
            && (r.exit == Fail(3) <==> loop.Finished? && |loop.answers.no| > 0)
            && (r.exit == Ok <==> loop.Finished? && |loop.answers.no| == 0)
            && (loop.Finished? ==> r.written == Some(AddAll(knownGood, loop.answers.yes)))
  {
  }

  /** A single rejected licence fails the run and stays out of the known-good set. */
  lemma RejectOnlyLicense()
    ensures InteractiveMode([Dep("a", "GPL-3.0")], ["MIT"], "n") == Run(Fail(3), Some(["MIT"]))
  {
  }

  /** q on the first question ends the run with status 0 and writes nothing. */
  lemma QuitOnFirstQuestion(unapproved: seq<Dep>, knownGood: seq<License>, script: seq<char>)
    requires |unapproved| > 0 && |script| > 0 && script[0] == 'q'
    ensures InteractiveMode(unapproved, knownGood, script) == Run(Quit, None)
  {
    assert unapproved[..0] == [];
  }
}
