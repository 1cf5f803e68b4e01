/**
 The entry script `src/check-licenses.js`: choose a mode from the command
 line, then either check the current licences or run the question loop.
 */
module Cli {
  import opened Seqs
  import opened Deps
  import Report
  import Interactive

  /** The three modes of the script. */
  datatype Mode = NonInteractiveMode | InteractiveMode | InvalidMode

  /**
   `findMode`: argv holds the node binary and the script before the user's
   arguments, so two entries mean no arguments at all.
   */
  function FindMode(argv: seq<string>): (m: Mode)
    ensures m == NonInteractiveMode <==> |argv| == 2
    ensures m == InteractiveMode <==> |argv| == 3 && argv[2] == "--interactive"
    ensures m == InvalidMode <==> |argv| != 2 && !(|argv| == 3 && argv[2] == "--interactive")
  {
    if |argv| == 2 then NonInteractiveMode
    else if |argv| == 3 && argv[2] == "--interactive" then InteractiveMode
    else InvalidMode
  }

  /**
   The mode in terms of the user's own arguments: none checks, exactly
   `--interactive` asks, anything else is a usage error.
   */
  lemma ModeOfUserArguments(node: string, script: string, args: seq<string>)
    ensures FindMode([node, script] + args)
         == if args == [] then NonInteractiveMode
            else if args == ["--interactive"] then InteractiveMode
            else InvalidMode
  {
    var argv := [node, script] + args;
    if |args| == 1 {
      assert argv[2] == args[0];
      assert args == ["--interactive"] <==> args[0] == "--interactive";
    }
  }

  /** `checkLicenses`: fails with exit status 1 when anything is unapproved. */
  function CheckLicenses(unapproved: seq<Dep>): (e: Exit)
    ensures e == Fail(1) <==> |unapproved| > 0
    ensures e == Ok <==> |unapproved| == 0
  {
    if |unapproved| > 0 then Fail(1) else Ok
  }

  /** The non-interactive check fails exactly when some current licence is not known to be good. */
  lemma CheckFailsIffUnknownLicense(current: seq<Dep>, knownGood: set<License>)
    ensures CheckLicenses(Report.FindUnapprovedLicenses(current, knownGood)) == Fail(1)
        <==> exists d :: d in current && d.license !in knownGood
  {
    Report.UnapprovedEmpty(current, knownGood);
  }

  /**
   One run of the script: the command line, the current dependency map, the
   known-good file (`None` when it does not exist) and the scripted answers,
   giving the exit and what was written to the known-good file.
   */
  function CheckLicensesScript(argv: seq<string>, current: seq<Dep>, knownGoodFile: Option<seq<License>>, script: seq<char>)
    : (r: Run<seq<License>>)
    ensures FindMode(argv) == InvalidMode ==> r == Run(Fail(2), None)
    ensures FindMode(argv) == NonInteractiveMode ==> r.written == None && (r.exit == Ok || r.exit == Fail(1))
    ensures FindMode(argv) == NonInteractiveMode ==>
              (r.exit == Fail(1) <==> exists d :: d in current && d.license !in Elements(Report.GetKnownGoodLicenses(knownGoodFile)))
    ensures FindMode(argv) == InteractiveMode && r.exit == Ok ==>
              var known := if r.written.Some? then r.written.value else Report.GetKnownGoodLicenses(knownGoodFile);
              Report.FindUnapprovedLicenses(current, Elements(known)) == []
    ensures FindMode(argv) == InteractiveMode && r.exit.Fail? ==>
              r.exit == Fail(3) && r.written.Some?
              && Report.FindUnapprovedLicenses(current, Elements(r.written.value)) != []
  {
    match FindMode(argv)
    case InvalidMode => Run(Fail(2), None)
    case NonInteractiveMode =>
      var known := Report.GetKnownGoodLicenses(knownGoodFile);
      CheckFailsIffUnknownLicense(current, Elements(known));
      Run(CheckLicenses(Report.FindUnapprovedLicenses(current, Elements(known))), None)
    case InteractiveMode =>
      var known := Report.GetKnownGoodLicenses(knownGoodFile);
      var unapproved := Report.FindUnapprovedLicenses(current, Elements(known));
      var r := Interactive.InteractiveMode(unapproved, known, script);
      InteractiveOutcome(current, known, unapproved, script);
      r
  }

  /**
   After the question loop, a successful run leaves nothing for the check to
   report against the written known-good list, and a failed one leaves
   something.
   */
  lemma InteractiveOutcome(current: seq<Dep>, known: seq<License>, unapproved: seq<Dep>, script: seq<char>)
    requires unapproved == Report.FindUnapprovedLicenses(current, Elements(known))
    ensures var r := Interactive.InteractiveMode(unapproved, known, script);
            && (r.exit == Ok ==>
                  var k := if r.written.Some? then r.written.value else known;
                  Report.FindUnapprovedLicenses(current, Elements(k)) == [])
            && (r.exit == Fail(3) ==> Report.FindUnapprovedLicenses(current, Elements(r.written.value)) != [])
  {
    var r := Interactive.InteractiveMode(unapproved, known, script);
    if r.exit == Ok {
      var k := if r.written.Some? then r.written.value else known;
      forall d | d in current ensures d.license in Elements(k) {
        if d.license !in Elements(known) {
          assert d in unapproved;
          var i :| 0 <= i < |unapproved| && unapproved[i] == d;
        }
      }
      Report.UnapprovedEmpty(current, Elements(k));
    }
    if r.exit == Fail(3) {
      var i :| 0 <= i < |unapproved| && unapproved[i].license !in r.written.value;
      assert unapproved[i] in unapproved;
      Report.UnapprovedEmpty(current, Elements(r.written.value));
    }
  }

  /** Bad arguments: usage and exit status 2, whatever the dependencies. */
  lemma InvalidArgumentsDoNoWork(argv: seq<string>, c1: seq<Dep>, c2: seq<Dep>,
                                 f1: Option<seq<License>>, f2: Option<seq<License>>, s1: seq<char>, s2: seq<char>)
    requires FindMode(argv) == InvalidMode
    ensures CheckLicensesScript(argv, c1, f1, s1) == CheckLicensesScript(argv, c2, f2, s2) == Run(Fail(2), None)
  {
  }
}
