/** A run as a whole: validation of the command line, assembly of the cases,
    one verdict per case, the summary and the process exit status. */
module Runner {
  import opened Wrappers
  import opened Normalize
  import opened Json
  import opened OrderedMaps
  import opened Paths
  import opened Binding
  import opened Cases
  import opened Verdict

  /** The configuration errors the command line can be rejected for. */
  datatype ConfigError = MissingTestsDir | MissingCommand | MultiplePlaceholders

  /** How a run ends: every case judged (all passed or not), a configuration
      error reported, or an exception escaping case assembly. */
  datatype Outcome = Completed(allPassed: bool) | Rejected(error: ConfigError) | Crashed(failure: SetupError)

  /** Validating the command line, in order: the tests directory must be a
      directory, the program a regular file, and at most one segment `@`. */
  function ConfigCheck(isDir: bool, isFile: string -> bool, cmd: seq<string>): (r: Option<ConfigError>)
    requires |cmd| > 0
    ensures r.None? <==> isDir && isFile(cmd[0]) && AtCount(cmd) <= 1
    ensures r == Some(MissingTestsDir) <==> !isDir
    ensures r == Some(MissingCommand) <==> isDir && !isFile(cmd[0])
    ensures r == Some(MultiplePlaceholders) <==> isDir && isFile(cmd[0]) && AtCount(cmd) > 1
  {
    if !isDir then Some(MissingTestsDir)
    else if !isFile(cmd[0]) then Some(MissingCommand)
    else if AtCount(cmd) > 1 then Some(MultiplePlaceholders)
    else None
  }

  /** Counting the passed cases in order and comparing with the total. */
  method Summarize(verdicts: seq<bool>) returns (passed: nat, allPassed: bool)
    ensures passed == multiset(verdicts)[true] && passed <= |verdicts|
    ensures allPassed <==> forall i :: 0 <= i < |verdicts| ==> verdicts[i]
  {
    passed := 0;
    var i := 0;
    while i < |verdicts|
      invariant 0 <= i <= |verdicts|
      invariant passed == multiset(verdicts[..i])[true]
      invariant passed + multiset(verdicts[..i])[false] == i
    {
      assert verdicts[..i + 1] == verdicts[..i] + [verdicts[i]];
      if verdicts[i] {
        passed := passed + 1;
      }
      i := i + 1;
    }
    assert verdicts[..i] == verdicts;
    allPassed := passed == |verdicts|;
    if !allPassed {
      assert false in multiset(verdicts);
    }
  }

  /** A whole run: validate, assemble, judge every case. */
  function Run(isDir: bool, isFile: string -> bool, opts: Options, cmd: seq<string>, listing: seq<string>, manifest: Manifest, files: Files, run: Runner): (o: Outcome)
    requires |cmd| > 0
    ensures o.Rejected? <==> !(isDir && isFile(cmd[0]) && AtCount(cmd) <= 1)
    ensures o.Crashed? ==> o.failure != BadFixtureName && o.failure != ListInManifest
  {
    match ConfigCheck(isDir, isFile, cmd)
    case Some(e) => Rejected(e)
    case None =>
      match GetTestCases(cmd, listing, manifest)
      case Failure(e) => Crashed(e)
      case Success(fs) => Completed(forall i :: 0 <= i < |fs| ==> CaseSucceeds(opts, fs[i], files, run))
  }

  /** The exit status of a run: 0 when every case passed, 1 when some failed
      or an exception escaped, 2 for a configuration error. */
  function ExitStatus(o: Outcome): (r: int)
    ensures r == 0 <==> o == Completed(true)
    ensures r == 2 <==> o.Rejected?
    ensures 0 <= r <= 2
  {
    match o
    case Completed(allPassed) => if allPassed then 0 else 1
    case Rejected(_) => 2
    case Crashed(_) => 1
  }

  /** The exit status as the error handler is written: on Python 3 reading
      the exception's `message` attribute itself raises, so a configuration
      error leaves the process like any uncaught exception. */
  function ExitStatusAsWritten(o: Outcome): (r: int)
    ensures o.Rejected? ==> r == 1
    ensures !o.Rejected? ==> r == ExitStatus(o)
  {
    match o
    case Completed(allPassed) => if allPassed then 0 else 1
    case Rejected(_) => 1
    case Crashed(_) => 1
  }

  /** The verdict of every case, in case order. */
  function Verdicts(opts: Options, fs: seq<Fixture>, files: Files, run: Runner): (r: seq<bool>)
    ensures |r| == |fs| && forall i :: 0 <= i < |fs| ==> r[i] == CaseSucceeds(opts, fs[i], files, run)
  {
    seq(|fs|, i requires 0 <= i < |fs| => CaseSucceeds(opts, fs[i], files, run))
  }

  /** `main` and `test_cmd` step by step: validate, assemble, judge every
      case, count the passes with `Summarize` and pick the exit status. The
      status is the one `Run` and `ExitStatus` give, and a completed run
      reports the number of passing cases. */
  method Execute(isDir: bool, isFile: string -> bool, opts: Options, cmd: seq<string>, listing: seq<string>, manifest: Manifest, files: Files, run: Runner)
    returns (status: int, passed: nat)
    requires |cmd| > 0
    ensures status == ExitStatus(Run(isDir, isFile, opts, cmd, listing, manifest, files, run))
    ensures Run(isDir, isFile, opts, cmd, listing, manifest, files, run).Completed? ==>
      passed == multiset(Verdicts(opts, GetTestCases(cmd, listing, manifest).value, files, run))[true]
  {
    passed := 0;
    var outcome := Run(isDir, isFile, opts, cmd, listing, manifest, files, run);
    if ConfigCheck(isDir, isFile, cmd).Some? {
      assert outcome.Rejected?;
      return 2, passed;
    }
    var assembled := GetTestCases(cmd, listing, manifest);
    if assembled.Failure? {
      assert outcome == Crashed(assembled.error);
      return 1, passed;
    }
    var fs := assembled.value;
    var allPassed;
    passed, allPassed := Summarize(Verdicts(opts, fs, files, run));
    assert outcome == Completed(allPassed);
    status := if allPassed then 0 else 1;
  }

  /** As written, a rejected command line and a run with failing cases end
      with the same status; the intended statuses tell them apart. */
  lemma ConfigErrorLooksLikeFailure(e: ConfigError)
    ensures ExitStatusAsWritten(Rejected(e)) == ExitStatusAsWritten(Completed(false))
    ensures ExitStatus(Rejected(e)) != ExitStatus(Completed(false))
  {
  }

  /** A validated run against a manifest of objects: it completes, each case
      runs the command its own flags give, and it passes exactly when every
      case does. */
  lemma RunPassesIff(isDir: bool, isFile: string -> bool, opts: Options, cmd: seq<string>, listing: seq<string>, entries: seq<(string, Json)>, files: Files, run: Runner)
    requires |cmd| > 0 && isDir && isFile(cmd[0]) && AtCount(cmd) <= 1
    requires Distinct(Keys(entries))
    requires forall i :: 0 <= i < |entries| ==> entries[i].1.JObject?
    ensures var manifest := Parsed(JObject(entries));
      && GetTestCases(cmd, listing, manifest).Success?
      && var fs := GetTestCases(cmd, listing, manifest).value;
      && (forall i :: 0 <= i < |fs| ==> fs[i].command == ExpectedCommand(cmd, fs[i].name, entries))
      && (Run(isDir, isFile, opts, cmd, listing, manifest, files, run) == Completed(true) <==>
          forall i :: 0 <= i < |fs| ==> CaseSucceeds(opts, fs[i], files, run))
      && (ExitStatus(Run(isDir, isFile, opts, cmd, listing, manifest, files, run)) == 0 <==>
          forall i :: 0 <= i < |fs| ==> CaseSucceeds(opts, fs[i], files, run))
  {
    GetTestCasesCommands(cmd, listing, entries);
  }

  /** A tests directory without input files passes: no cases, all of them
      passed. */
  lemma NoInputFilesPasses(isDir: bool, isFile: string -> bool, opts: Options, cmd: seq<string>, listing: seq<string>, entries: seq<(string, Json)>, files: Files, run: Runner)
    requires |cmd| > 0 && isDir && isFile(cmd[0]) && AtCount(cmd) <= 1
    requires forall i :: 0 <= i < |listing| ==> !IsInputFile(listing[i])
    ensures Run(isDir, isFile, opts, cmd, listing, Parsed(JObject(entries)), files, run) == Completed(true)
  {
    SortedInputsCount(listing);
    assert SortedInputs(listing) == [];
    assert Keys<TestCase>([]) == [];
  }
}
