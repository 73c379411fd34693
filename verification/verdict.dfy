/** Judging one case: run its command on the input file and compare each
    normalised output stream with the expected file, if there is one. */
module Verdict {
  import opened Wrappers
  import opened Normalize
  import opened Cases

  /** What a finished command left behind: both output streams, raw, and its
      exit status. */
  datatype Captured = Captured(stdout: Bytes, stderr: Bytes, exitStatus: int)

  /** The regular files of the tests directory, by name. */
  type Files = map<string, Bytes>

  /** Running a command line with some bytes on standard input: `None` when
      the process cannot be started. */
  type Runner = (seq<string>, Bytes) -> Option<Captured>

  /** The content of a regular file, if there is one by that name. */
  function Lookup(files: Files, name: string): (r: Option<Bytes>)
    ensures r.Some? <==> name in files
  {
    if name in files then Some(files[name]) else None
  }

  /** One stream passes when its normalised output equals the normalised
      expected file, or, without an expected file, when the normalised output
      is empty. */
  function StreamPasses(opts: Options, expected: Option<Bytes>, received: Bytes): (r: bool)
    ensures r <==> Convert(opts, received) == Convert(opts, if expected.Some? then expected.value else [])
  {
    ConvertEmpty(opts);
    match expected
    case Some(e) => Convert(opts, e) == Convert(opts, received)
    case None => |Convert(opts, received)| == 0
  }

  /** A case passes when its input file can be read, its command starts and
      both streams pass; the exit status plays no part. */
  function CaseSucceeds(opts: Options, f: Fixture, files: Files, run: Runner): (r: bool)
    ensures r ==> f.inputFile in files && run(f.command, files[f.inputFile]).Some?
  {
    if f.inputFile !in files then false
    else
      match run(f.command, files[f.inputFile])
      case None => false
      case Some(c) => StreamPasses(opts, Lookup(files, f.stdoutFile), c.stdout) && StreamPasses(opts, Lookup(files, f.stderrFile), c.stderr)
  }

  /** A case passes exactly when its input file exists, its command starts,
      and each normalised stream equals its normalised expected file, a
      missing expected file counting as empty. */
  lemma CaseSucceedsIff(opts: Options, f: Fixture, files: Files, run: Runner)
    ensures CaseSucceeds(opts, f, files, run) <==>
      && f.inputFile in files
      && run(f.command, files[f.inputFile]).Some?
      && var c := run(f.command, files[f.inputFile]).value;
      && Convert(opts, c.stdout) == Convert(opts, if f.stdoutFile in files then files[f.stdoutFile] else [])
      && Convert(opts, c.stderr) == Convert(opts, if f.stderrFile in files then files[f.stderrFile] else [])
  {
  }

  /** The same runner with every exit status replaced by `status`. */
  function WithExitStatus(run: Runner, status: int): Runner
  {
    (cmd: seq<string>, input: Bytes) =>
      match run(cmd, input)
      case None => None
      case Some(c) => Some(c.(exitStatus := status))
  }

  /** The exit status never changes a verdict: a command that fails but
      prints the expected output passes, one that succeeds with other output
      fails. */
  lemma ExitStatusIgnored(opts: Options, f: Fixture, files: Files, run: Runner, status: int)
    ensures CaseSucceeds(opts, f, files, WithExitStatus(run, status)) == CaseSucceeds(opts, f, files, run)
  {
  }

  /** With both options off, each stream is compared byte for byte, and a
      missing expected file demands empty output. */
  lemma ExactWithoutOptions(f: Fixture, files: Files, run: Runner, c: Captured)
    requires f.inputFile in files && run(f.command, files[f.inputFile]) == Some(c)
    ensures CaseSucceeds(Options(false, false), f, files, run) <==>
      && (if f.stdoutFile in files then c.stdout == files[f.stdoutFile] else c.stdout == [])
      && (if f.stderrFile in files then c.stderr == files[f.stderrFile] else c.stderr == [])
  {
  }

  /** A missing expected file judges exactly as an empty one. */
  lemma MissingSameAsEmpty(opts: Options, f: Fixture, files: Files, run: Runner, name: string)
    requires name !in files && name != f.inputFile
    ensures CaseSucceeds(opts, f, files[name := []], run) == CaseSucceeds(opts, f, files, run)
  {
    var files' := files[name := []];
    if f.inputFile in files {
      assert files'[f.inputFile] == files[f.inputFile];
    }
  }

  /** With right-trimming alone and no expected file, a stream passes exactly
      when it holds nothing but spaces and line feeds. */
  lemma BlankOutputPassesUnderRTrim(received: Bytes)
    ensures StreamPasses(Options(false, true), None, received) <==> Content(received) == []
  {
    RTrimEmptyIff(received);
  }
}
