/** Assembling the test cases: the input files of a directory listing, in
    sorted order, keyed by case name, with arguments bound from the
    manifest `tests.json` and the remaining placeholder cleared. */
module Cases {
  import opened Wrappers
  import opened Seqs
  import opened Paths
  import opened Json
  import opened OrderedMaps
  import opened Sorting
  import opened Binding

  /** Which list a case's command is: the one list every case is constructed
      with, shared by all of them, or a list of its own. */
  datatype CmdRef = Shared | Own(cmd: seq<string>)

  /** A case as constructed; file names are relative to the tests directory. */
  datatype TestCase = TestCase(name: string, inputFile: string, stdoutFile: string, stderrFile: string, cmd: CmdRef)

  /** A case ready to run, its command resolved to an argument list. */
  datatype Fixture = Fixture(name: string, inputFile: string, stdoutFile: string, stderrFile: string, command: seq<string>)

  /** What reading the manifest yields: no such file, text that is not JSON,
      or the decoded value. */
  datatype Manifest = NoManifest | Unparsable | Parsed(value: Json)

  /** The exceptions that escape case assembly. */
  datatype SetupError =
    | BadFixtureName       // the assertion in the name derivation
    | ManifestMissing      // opening tests.json
    | ManifestUnparsable   // decoding tests.json
    | ListInManifest       // the decoding hook on a list (as-written model only)
    | ManifestNotAnObject  // the top-level value has no items
    | ArgsNotAnObject      // a case's argument value has no items

  /** The list a case's command refers to. */
  function Deref(shared: seq<string>, ref: CmdRef): seq<string>
  {
    match ref
    case Shared => shared
    case Own(cmd) => cmd
  }

  /** The input files of a listing, in listing order. */
  function InputFiles(listing: seq<string>): (r: seq<string>)
    ensures AllInputFiles(r)
  {
    if |listing| == 0 then []
    else
      var r := InputFiles(listing[..|listing| - 1]);
      var x := listing[|listing| - 1];
      if IsInputFile(x) then r + [x] else r
  }

  /** The input files of a listing are kept as often as the listing names
      them, and every other name is dropped. */
  lemma {:induction false} InputFilesCount(listing: seq<string>)
    ensures forall x :: multiset(InputFiles(listing))[x] == if IsInputFile(x) then multiset(listing)[x] else 0
  {
    if |listing| > 0 {
      var front, y := listing[..|listing| - 1], listing[|listing| - 1];
      InputFilesCount(front);
      assert listing == front + [y];
      assert multiset(listing) == multiset(front) + multiset{y};
      var r := InputFiles(front);
      if IsInputFile(y) {
        assert InputFiles(listing) == r + [y];
        assert multiset(r + [y]) == multiset(r) + multiset{y};
      } else {
        assert InputFiles(listing) == r;
      }
    }
  }

  predicate AllInputFiles(files: seq<string>)
  {
    forall i :: 0 <= i < |files| ==> IsInputFile(files[i])
  }

  /** A list of names is all input files when its front and its last name are. */
  lemma AllInputFilesFront(files: seq<string>)
    requires |files| > 0
    ensures AllInputFiles(files) <==> AllInputFiles(files[..|files| - 1]) && IsInputFile(files[|files| - 1])
  {
    var front := files[..|files| - 1];
    assert forall i :: 0 <= i < |front| ==> front[i] == files[i];
  }

  /** Constructing a case from an input file name. */
  function NewCase(f: string): (r: Result<TestCase, NameError>)
    ensures r.Success? <==> IsInputFile(f)
    ensures r.Success? ==>
      exists root, ext ::
        && HasStem(root) && IsExtension(ext) && f == root + InMarker + ext
        && r.value == TestCase(DisplayName(root), f, root + OutMarker + ext, root + ErrMarker + ext, Shared)
  {
    match (TestName(f), StdoutFileName(f), StderrFileName(f))
    case (Success(n), Success(o), Success(e)) =>
      var (root, ext) := RootAndExt(f).value;
      assert f == root + InMarker + ext;
      Success(TestCase(n, f, o, e, Shared))
    case _ => Failure(MalformedFixtureName)
  }

  /** The case of a name known to be an input file. */
  function CaseOf(f: string): TestCase
    requires IsInputFile(f)
  {
    NewCase(f).value
  }

  /** Constructing the cases of `files` in order, each stored under its name;
      a later file with the same name replaces the earlier case in place. */
  function BuildCases(files: seq<string>): (r: Result<OMap<TestCase>, NameError>)
    ensures r.Success? <==> AllInputFiles(files)
  {
    if |files| == 0 then Success([])
    else
      var front, f := files[..|files| - 1], files[|files| - 1];
      AllInputFilesFront(files);
      match BuildCases(front)
      case Failure(e) => Failure(e)
      case Success(m) =>
        var c := NewCase(f);
        if c.Failure? then Failure(c.error) else Success(Put(m, c.value.name, c.value))
  }

  /** The case names of `files`, in file order. */
  function NamesOf(files: seq<string>): (r: seq<string>)
    requires AllInputFiles(files)
  {
    seq(|files|, i requires 0 <= i < |files| => CaseOf(files[i]).name)
  }

  /** The (name, case) pairs of `files`, in file order. */
  function CasePairs(files: seq<string>): (r: seq<(string, TestCase)>)
    requires AllInputFiles(files)
    ensures Keys(r) == NamesOf(files)
  {
    seq(|files|, i requires 0 <= i < |files| => (CaseOf(files[i]).name, CaseOf(files[i])))
  }

  /** Building the cases is building a dictionary from their pairs. */
  lemma {:induction false} BuildCasesFromPairs(files: seq<string>)
    requires AllInputFiles(files)
    ensures BuildCases(files) == Success(FromPairs(CasePairs(files)))
  {
    if |files| > 0 {
      var n := |files| - 1;
      BuildCasesFromPairs(files[..n]);
      assert CasePairs(files[..n]) == CasePairs(files)[..n];
    }
  }

  /** The case table of a list of input files: one case per distinct name,
      in the order of each name's first file, holding the case of its last
      file. */
  lemma CaseTable(files: seq<string>)
    requires AllInputFiles(files)
    ensures BuildCases(files).Success?
    ensures var m, ns := BuildCases(files).value, NamesOf(files);
      && Distinct(Keys(m))
      && (forall k :: k in Keys(m) <==> k in ns)
      && InFirstOccurrenceOrder(ns, Keys(m))
      && (forall i :: 0 <= i < |m| ==> m[i].0 in ns && m[i].1 == CaseOf(files[LastIndexOf(ns, m[i].0)]))
  {
    var ps := CasePairs(files);
    BuildCasesFromPairs(files);
    FromPairsKeySet(ps);
    FromPairsKeyOrder(ps);
    FromPairsValues(ps);
    var m := FromPairs(ps);
    forall i | 0 <= i < |m|
      ensures m[i].0 in NamesOf(files) && m[i].1 == CaseOf(files[LastIndexOf(NamesOf(files), m[i].0)])
    {
      GetAt(m, i);
    }
  }

  /** The command a case ends up with when its name has an entry in the
      manifest (an object of flags) and when it has none. */
  function BoundRef(shared: seq<string>, name: string, entries: seq<(string, Json)>): CmdRef
  {
    var entry: Option<Json> := Get(entries, name);
    match entry
    case Some(JObject(flags)) => Own(ReplaceAtSign(shared, ParseArgs(flags)))
    case _ => Shared
  }

  /** Every manifest entry that names a case holds an object of flags. */
  predicate MatchedEntriesAreObjects(cases: OMap<TestCase>, entries: seq<(string, Json)>)
  {
    forall i :: 0 <= i < |entries| && entries[i].0 in Keys(cases) ==> entries[i].1.JObject?
  }

  /** Binding one manifest entry: when it names a case, that case gets its
      own copy of its command with the placeholder replaced by the entry's
      flags, which must be an object; otherwise nothing changes. */
  function BindEntry(shared: seq<string>, m: OMap<TestCase>, name: string, value: Json): (r: Result<OMap<TestCase>, SetupError>)
    ensures r.Success? <==> (name in Keys(m) ==> value.JObject?)
    ensures r.Failure? ==> r.error == ArgsNotAnObject
    ensures r.Success? ==>
      && |r.value| == |m|
      && forall i :: 0 <= i < |m| ==> r.value[i].0 == m[i].0 && r.value[i].1 == m[i].1.(cmd := r.value[i].1.cmd)
  {
    var p := FirstIndexOf(Keys(m), name);
    if p < 0 then Success(m)
    else
      match value
      case JObject(flags) =>
        var c := m[p].1;
        Success(m[p := (name, c.(cmd := Own(ReplaceAtSign(Deref(shared, c.cmd), ParseArgs(flags)))))])
      case _ => Failure(ArgsNotAnObject)
  }

  /** Binding the manifest: its entries in order, each bound by `BindEntry`;
      the first entry naming a case with flags that are not an object fails. */
  function BindManifest(shared: seq<string>, cases: OMap<TestCase>, entries: seq<(string, Json)>): (r: Result<OMap<TestCase>, SetupError>)
    ensures r.Success? <==> MatchedEntriesAreObjects(cases, entries)
    ensures r.Failure? ==> r.error == ArgsNotAnObject
    ensures r.Success? ==>
      && |r.value| == |cases|
      && forall i :: 0 <= i < |cases| ==> r.value[i].0 == cases[i].0 && r.value[i].1 == cases[i].1.(cmd := r.value[i].1.cmd)
  {
    if |entries| == 0 then Success(cases)
    else
      var n := |entries| - 1;
      var front := entries[..n];
      assert MatchedEntriesAreObjects(cases, entries) <==>
        MatchedEntriesAreObjects(cases, front) && (entries[n].0 in Keys(cases) ==> entries[n].1.JObject?) by {
        assert forall i :: 0 <= i < n ==> front[i] == entries[i];
      }
      match BindManifest(shared, cases, front)
      case Failure(e) => Failure(e)
      case Success(m) =>
        assert Keys(m) == Keys(cases);
        BindEntry(shared, m, entries[n].0, entries[n].1)
  }

  /** The facts every step of `BindManifestCommands` starts from. */
  predicate BindStepReady(shared: seq<string>, cases: OMap<TestCase>, entries: seq<(string, Json)>)
  {
    && |entries| > 0
    && Distinct(Keys(cases)) && Distinct(Keys(entries))
    && (forall i :: 0 <= i < |cases| ==> cases[i].1.cmd == Shared)
    && MatchedEntriesAreObjects(cases, entries)
    && BindManifest(shared, cases, entries[..|entries| - 1]).Success?
    && var m := BindManifest(shared, cases, entries[..|entries| - 1]).value;
      forall i :: 0 <= i < |cases| ==> m[i].1.cmd == BoundRef(shared, cases[i].0, entries[..|entries| - 1])
  }

  /** The command bound for the key of the last entry, when keys are
      distinct: that entry's flags. */
  lemma BoundRefLast(shared: seq<string>, entries: seq<(string, Json)>)
    requires |entries| > 0 && Distinct(Keys(entries)) && entries[|entries| - 1].1.JObject?
    ensures var (name, value) := entries[|entries| - 1];
      BoundRef(shared, name, entries) == Own(ReplaceAtSign(shared, ParseArgs(value.members)))
  {
    GetAt(entries, |entries| - 1);
  }

  /** The command bound for any other key ignores the last entry. */
  lemma BoundRefOther(shared: seq<string>, entries: seq<(string, Json)>, k: string)
    requires |entries| > 0 && k != entries[|entries| - 1].0
    ensures BoundRef(shared, k, entries) == BoundRef(shared, k, entries[..|entries| - 1])
  {
    var n := |entries| - 1;
    assert entries[..n] + [entries[n]] == entries;
    GetAppend(entries[..n], entries[n].0, entries[n].1, k);
  }

  /** A last entry that names no case changes nothing. */
  lemma BindUnmatchedEntry(shared: seq<string>, cases: OMap<TestCase>, entries: seq<(string, Json)>)
    requires BindStepReady(shared, cases, entries)
    requires entries[|entries| - 1].0 !in Keys(cases)
    ensures forall i :: 0 <= i < |cases| ==> BindManifest(shared, cases, entries).value[i].1.cmd == BoundRef(shared, cases[i].0, entries)
  {
    var n := |entries| - 1;
    var front := entries[..n];
    var (name, value) := entries[n];
    var m := BindManifest(shared, cases, front).value;
    assert Keys(m) == Keys(cases);
    assert FirstIndexOf(Keys(m), name) < 0;
    assert BindManifest(shared, cases, entries) == BindEntry(shared, m, name, value) == Success(m);
    forall i | 0 <= i < |cases|
      ensures m[i].1.cmd == BoundRef(shared, cases[i].0, entries)
    {
      assert cases[i].0 in Keys(cases);
      BoundRefOther(shared, entries, cases[i].0);
    }
  }

  /** A last entry that names a case gives that case, still on the shared
      list before, its own bound command, and leaves the others alone. */
  lemma BindMatchedEntry(shared: seq<string>, cases: OMap<TestCase>, entries: seq<(string, Json)>)
    requires BindStepReady(shared, cases, entries)
    requires entries[|entries| - 1].0 in Keys(cases)
    ensures forall i :: 0 <= i < |cases| ==> BindManifest(shared, cases, entries).value[i].1.cmd == BoundRef(shared, cases[i].0, entries)
  {
    var n := |entries| - 1;
    var front := entries[..n];
    var (name, value) := entries[n];
    DistinctKeysFront(entries);
    var m := BindManifest(shared, cases, front).value;
    assert Keys(m) == Keys(cases);
    var p := FirstIndexOf(Keys(m), name);
    assert BindManifest(shared, cases, entries) == BindEntry(shared, m, name, value);
    var r := BindEntry(shared, m, name, value).value;
    assert m[p].1.cmd == BoundRef(shared, name, front) == Shared;
    BoundRefLast(shared, entries);
    assert r[p].1.cmd == BoundRef(shared, name, entries);
    forall i | 0 <= i < |cases| && i != p
      ensures r[i].1.cmd == BoundRef(shared, cases[i].0, entries)
    {
      assert Keys(cases)[i] != Keys(cases)[p];
      BoundRefOther(shared, entries, cases[i].0);
    }
  }

  /** Binding the manifest to freshly built cases: each case's command is
      the shared list bound to its entry's flags when it has one, and the
      shared list itself otherwise. */
  lemma {:induction false} BindManifestCommands(shared: seq<string>, cases: OMap<TestCase>, entries: seq<(string, Json)>)
    requires Distinct(Keys(cases)) && Distinct(Keys(entries))
    requires forall i :: 0 <= i < |cases| ==> cases[i].1.cmd == Shared
    requires MatchedEntriesAreObjects(cases, entries)
    ensures forall i :: 0 <= i < |cases| ==> BindManifest(shared, cases, entries).value[i].1.cmd == BoundRef(shared, cases[i].0, entries)
  {
    if |entries| > 0 {
      var front := entries[..|entries| - 1];
      DistinctKeysFront(entries);
      assert MatchedEntriesAreObjects(cases, front) by {
        forall i | 0 <= i < |front| && front[i].0 in Keys(cases) ensures front[i].1.JObject? {
          assert front[i] == entries[i];
        }
      }
      BindManifestCommands(shared, cases, front);
      if entries[|entries| - 1].0 in Keys(cases) {
        BindMatchedEntry(shared, cases, entries);
      } else {
        BindUnmatchedEntry(shared, cases, entries);
      }
    }
  }

  /** Clearing the placeholder from every case in order: a case on the shared
      list removes one `@` from that list, which every other case on it
      sees; a case with its own list removes one from its own. */
  function ClearAll(shared: seq<string>, cs: OMap<TestCase>): (r: (seq<string>, OMap<TestCase>))
    ensures |r.1| == |cs|
    decreases |cs|
  {
    if |cs| == 0 then (shared, [])
    else
      var (k, c) := cs[0];
      match c.cmd
      case Shared =>
        var (s, rest) := ClearAll(ClearAtSign(shared), cs[1..]);
        (s, [(k, c)] + rest)
      case Own(own) =>
        var (s, rest) := ClearAll(shared, cs[1..]);
        (s, [(k, c.(cmd := Own(ClearAtSign(own))))] + rest)
  }

  /** A shared list without a placeholder comes through clearing unchanged. */
  lemma {:induction false} ClearAllWithoutAtSign(shared: seq<string>, cs: OMap<TestCase>)
    requires AtCount(shared) == 0
    ensures ClearAll(shared, cs).0 == shared
    decreases |cs|
  {
    if |cs| > 0 {
      ClearAllWithoutAtSign(shared, cs[1..]);
    }
  }

  /** One step of clearing: a first case on the shared list clears it and
      stays on it; one with its own list clears its own. */
  lemma ClearAllStep(shared: seq<string>, cs: OMap<TestCase>)
    requires |cs| > 0
    ensures cs[0].1.cmd.Shared? ==>
      && ClearAll(shared, cs).0 == ClearAll(ClearAtSign(shared), cs[1..]).0
      && ClearAll(shared, cs).1 == [cs[0]] + ClearAll(ClearAtSign(shared), cs[1..]).1
    ensures cs[0].1.cmd.Own? ==>
      && ClearAll(shared, cs).0 == ClearAll(shared, cs[1..]).0
      && ClearAll(shared, cs).1[0] == (cs[0].0, cs[0].1.(cmd := Own(ClearAtSign(cs[0].1.cmd.cmd))))
      && ClearAll(shared, cs).1[1..] == ClearAll(shared, cs[1..]).1
  {
  }

  /** Clearing changes commands only: every case keeps its name, its files
      and its place, and a case on the shared list stays on it. */
  lemma {:induction false} ClearAllFrameAt(shared: seq<string>, cs: OMap<TestCase>, i: nat)
    requires i < |cs|
    ensures var r := ClearAll(shared, cs).1;
      && r[i].0 == cs[i].0
      && r[i].1 == cs[i].1.(cmd := r[i].1.cmd)
      && r[i].1.cmd.Shared? == cs[i].1.cmd.Shared?
    decreases i
  {
    ClearAllStep(shared, cs);
    if i > 0 {
      var next := if cs[0].1.cmd.Shared? then ClearAtSign(shared) else shared;
      ClearAllFrameAt(next, cs[1..], i - 1);
      assert cs[i] == cs[1..][i - 1];
    }
  }

  /** `ClearAllFrameAt` at every position. */
  lemma ClearAllFrame(shared: seq<string>, cs: OMap<TestCase>)
    ensures var r := ClearAll(shared, cs).1;
      forall i :: 0 <= i < |cs| ==>
        && r[i].0 == cs[i].0
        && r[i].1 == cs[i].1.(cmd := r[i].1.cmd)
        && r[i].1.cmd.Shared? == cs[i].1.cmd.Shared?
  {
    forall i | 0 <= i < |cs|
      ensures var r := ClearAll(shared, cs).1;
        && r[i].0 == cs[i].0
        && r[i].1 == cs[i].1.(cmd := r[i].1.cmd)
        && r[i].1.cmd.Shared? == cs[i].1.cmd.Shared?
    {
      ClearAllFrameAt(shared, cs, i);
    }
  }

  /** Clearing a reference's list after the shared list was cleared once
      gives what clearing it once gives. */
  lemma ClearDerefOnce(shared: seq<string>, ref: CmdRef)
    requires AtCount(shared) <= 1
    ensures ClearAtSign(Deref(ClearAtSign(shared), ref)) == ClearAtSign(Deref(shared, ref))
  {
    ClearAtSignIdempotent(shared);
  }

  /** The case at position `i > 0` behind a first case on the shared list. */
  lemma ClearAllSharedAt(shared: seq<string>, cs: OMap<TestCase>, i: nat)
    requires AtCount(shared) <= 1 && 0 < i < |cs| && cs[0].1.cmd.Shared?
    requires var once := ClearAtSign(shared);
      Deref(ClearAll(once, cs[1..]).0, ClearAll(once, cs[1..]).1[i - 1].1.cmd) == ClearAtSign(Deref(once, cs[1..][i - 1].1.cmd))
    ensures Deref(ClearAll(shared, cs).0, ClearAll(shared, cs).1[i].1.cmd) == ClearAtSign(Deref(shared, cs[i].1.cmd))
  {
    ClearAllStep(shared, cs);
    assert cs[i] == cs[1..][i - 1];
    ClearDerefOnce(shared, cs[i].1.cmd);
  }

  /** The first case: on the shared list it sees the list cleared once, which
      later cases leave alone; with its own list it clears its own. */
  lemma ClearAllHead(shared: seq<string>, cs: OMap<TestCase>)
    requires AtCount(shared) <= 1 && 0 < |cs|
    ensures Deref(ClearAll(shared, cs).0, ClearAll(shared, cs).1[0].1.cmd) == ClearAtSign(Deref(shared, cs[0].1.cmd))
  {
    ClearAllStep(shared, cs);
    if cs[0].1.cmd.Shared? {
      ClearAtSignIdempotent(shared);
      ClearAllWithoutAtSign(ClearAtSign(shared), cs[1..]);
    }
  }

  /** The case at position `i > 0` behind a first case with its own list. */
  lemma ClearAllOwnAt(shared: seq<string>, cs: OMap<TestCase>, i: nat)
    requires 0 < i < |cs| && cs[0].1.cmd.Own?
    requires Deref(ClearAll(shared, cs[1..]).0, ClearAll(shared, cs[1..]).1[i - 1].1.cmd) == ClearAtSign(Deref(shared, cs[1..][i - 1].1.cmd))
    ensures Deref(ClearAll(shared, cs).0, ClearAll(shared, cs).1[i].1.cmd) == ClearAtSign(Deref(shared, cs[i].1.cmd))
  {
    ClearAllStep(shared, cs);
    assert cs[i] == cs[1..][i - 1];
  }

  /** With at most one `@` in the shared list, clearing through the shared
      list gives the case at position `i` what clearing its own copy would. */
  lemma {:induction false} ClearAllAt(shared: seq<string>, cs: OMap<TestCase>, i: nat)
    requires AtCount(shared) <= 1 && i < |cs|
    ensures Deref(ClearAll(shared, cs).0, ClearAll(shared, cs).1[i].1.cmd) == ClearAtSign(Deref(shared, cs[i].1.cmd))
    decreases i, 1
  {
    if i == 0 {
      ClearAllHead(shared, cs);
    } else if cs[0].1.cmd.Shared? {
      ClearAllAtBehindShared(shared, cs, i);
    } else {
      ClearAllAtBehindOwn(shared, cs, i);
    }
  }

  lemma {:induction false} ClearAllAtBehindShared(shared: seq<string>, cs: OMap<TestCase>, i: nat)
    requires AtCount(shared) <= 1 && 0 < i < |cs| && cs[0].1.cmd.Shared?
    ensures Deref(ClearAll(shared, cs).0, ClearAll(shared, cs).1[i].1.cmd) == ClearAtSign(Deref(shared, cs[i].1.cmd))
    decreases i, 0
  {
    // one step of the induction, for a first case on the shared list
    ClearAtSignIdempotent(shared);
    ClearAllAt(ClearAtSign(shared), cs[1..], i - 1);
    ClearAllSharedAt(shared, cs, i);
  }

  lemma {:induction false} ClearAllAtBehindOwn(shared: seq<string>, cs: OMap<TestCase>, i: nat)
    requires AtCount(shared) <= 1 && 0 < i < |cs| && !cs[0].1.cmd.Shared?
    ensures Deref(ClearAll(shared, cs).0, ClearAll(shared, cs).1[i].1.cmd) == ClearAtSign(Deref(shared, cs[i].1.cmd))
    decreases i, 0
  {
    // one step of the induction, for a first case with its own list
    ClearAllAt(shared, cs[1..], i - 1);
    ClearAllOwnAt(shared, cs, i);
  }

  /** With at most one `@` in the shared list, clearing through the shared
      list gives every case what clearing its own copy would. */
  lemma ClearAllAsValues(shared: seq<string>, cs: OMap<TestCase>)
    requires AtCount(shared) <= 1
    ensures var (s, cleared) := ClearAll(shared, cs);
      forall i :: 0 <= i < |cs| ==> Deref(s, cleared[i].1.cmd) == ClearAtSign(Deref(shared, cs[i].1.cmd))
  {
    forall i | 0 <= i < |cs|
      ensures Deref(ClearAll(shared, cs).0, ClearAll(shared, cs).1[i].1.cmd) == ClearAtSign(Deref(shared, cs[i].1.cmd))
    {
      ClearAllAt(shared, cs, i);
    }
  }

  /** Two cases on the shared list clear it twice. */
  lemma ClearAllTwoShared(shared: seq<string>, cs: OMap<TestCase>)
    requires |cs| == 2 && cs[0].1.cmd.Shared? && cs[1].1.cmd.Shared?
    ensures ClearAll(shared, cs).0 == ClearAtSign(ClearAtSign(shared))
  {
    var tail := cs[1..];
    assert tail[0].1.cmd.Shared? && |tail[1..]| == 0;
    ClearAllStep(shared, cs);
    ClearAllStep(ClearAtSign(shared), tail);
  }

  /** Two placeholders and two cases on the shared list: each case removes
      one, so both run without either. */
  lemma SharedListLosesBothPlaceholders(p: string, a: TestCase, b: TestCase)
    requires p != AtSign && a.cmd == Shared && b.cmd == Shared
    ensures ClearAll([p, AtSign, AtSign], [(a.name, a), (b.name, b)]).0 == [p]
    ensures ClearAtSign([p, AtSign, AtSign]) == [p, AtSign]
  {
    var cmd, once := [p, AtSign, AtSign], [p, AtSign];
    ClearTwoAtSigns(p);
    ClearAllTwoShared(cmd, [(a.name, a), (b.name, b)]);
  }

  /** A fixture keeps the name and file names of the case it comes from. */
  predicate SameFiles(f: Fixture, c: TestCase)
  {
    f.name == c.name && f.inputFile == c.inputFile && f.stdoutFile == c.stdoutFile && f.stderrFile == c.stderrFile
  }

  /** The fixtures of the cases, each command read through its reference. */
  function Resolve(shared: seq<string>, cs: OMap<TestCase>): (r: seq<Fixture>)
    ensures |r| == |cs|
    ensures forall i :: 0 <= i < |cs| ==> SameFiles(r[i], cs[i].1)
  {
    seq(|cs|, i requires 0 <= i < |cs| =>
      var c := cs[i].1;
      Fixture(c.name, c.inputFile, c.stdoutFile, c.stderrFile, Deref(shared, c.cmd)))
  }

  /** Binding the manifest, clearing the placeholders and resolving the
      commands: one fixture per case, in case order, or the binding error. */
  function Assemble(cmd: seq<string>, cases: OMap<TestCase>, entries: seq<(string, Json)>): (r: Result<seq<Fixture>, SetupError>)
    ensures r.Success? <==> MatchedEntriesAreObjects(cases, entries)
    ensures r.Failure? ==> r.error == ArgsNotAnObject
    ensures r.Success? ==> |r.value| == |cases| && forall i :: 0 <= i < |cases| ==> SameFiles(r.value[i], cases[i].1)
  {
    match BindManifest(cmd, cases, entries)
    case Failure(e) => Failure(e)
    case Success(bound) =>
      var (shared, cleared) := ClearAll(cmd, bound);
      ClearAllFrame(cmd, bound);
      Success(Resolve(shared, cleared))
  }

  /** The input files of the listing, sorted. */
  function SortedInputs(listing: seq<string>): (r: seq<string>)
    ensures Sorted(r)
    ensures AllInputFiles(r)
  {
    var ins := InputFiles(listing);
    var r := Sort(ins);
    forall i | 0 <= i < |r| ensures IsInputFile(r[i]) {
      assert r[i] in multiset(ins);
    }
    r
  }

  /** As a multiset, the sorted input files are the input files of the
      listing. */
  lemma SortedInputsCount(listing: seq<string>)
    ensures forall x :: multiset(SortedInputs(listing))[x] == if IsInputFile(x) then multiset(listing)[x] else 0
  {
    InputFilesCount(listing);
  }

  /** Assembling the cases of a tests directory: construct a case per input
      file in sorted order, read the manifest, then `Assemble`. */
  function GetTestCases(cmd: seq<string>, listing: seq<string>, manifest: Manifest): (r: Result<seq<Fixture>, SetupError>)
    ensures r.Failure? ==> r.error != BadFixtureName && r.error != ListInManifest
  {
    match BuildCases(SortedInputs(listing))
    case Failure(_) => Failure(BadFixtureName)
    case Success(cases) =>
      match manifest
      case NoManifest => Failure(ManifestMissing)
      case Unparsable => Failure(ManifestUnparsable)
      case Parsed(JObject(entries)) => Assemble(cmd, cases, entries)
      case Parsed(_) => Failure(ManifestNotAnObject)
  }

  /** The decoded manifest holds an object with a non-empty list as a member
      value, at any depth. */
  predicate HasListMember(j: Json)
    decreases j
  {
    match j
    case JArray(items) => exists i :: 0 <= i < |items| && HasListMember(items[i])
    case JObject(ms) => exists i :: 0 <= i < |ms| && ((ms[i].1.JArray? && |ms[i].1.items| > 0) || HasListMember(ms[i].1))
    case _ => false
  }

  /** Assembly as the decoding hook behaves on Python 3: the hook runs on
      every decoded object and, for a member value that is a non-empty list,
      tests the first item against a name Python 3 does not define. */
  function GetTestCasesAsWritten(cmd: seq<string>, listing: seq<string>, manifest: Manifest): (r: Result<seq<Fixture>, SetupError>)
    ensures manifest.Parsed? && HasListMember(manifest.value) ==> r == Failure(ListInManifest)
    ensures !(manifest.Parsed? && HasListMember(manifest.value)) ==> r == GetTestCases(cmd, listing, manifest)
  {
    if BuildCases(SortedInputs(listing)).Failure? then Failure(BadFixtureName)
    else if manifest.Parsed? && HasListMember(manifest.value) then Failure(ListInManifest)
    else GetTestCases(cmd, listing, manifest)
  }

  /** A list-valued flag: the as-written assembly fails on it, while the
      intended binding renders the list as JSON text. */
  lemma ListFlagCrashes(cmd: seq<string>, listing: seq<string>, name: string, flag: string, n: int)
    ensures GetTestCasesAsWritten(cmd, listing, Parsed(JObject([(name, JObject([(flag, JArray([JInt(n)]))]))]))) == Failure(ListInManifest)
    ensures ParseArgs([(flag, JArray([JInt(n)]))]) == [flag, "[" + Dumps(JInt(n)) + "]"]
  {
    ListMemberFound(name, JObject([(flag, JArray([JInt(n)]))]), flag, n);
    ListFlagRendered(flag, n);
  }

  /** A flag whose value is a one-item list is a list member, inside the
      case's entry too. */
  lemma ListMemberFound(name: string, inner: Json, flag: string, n: int)
    requires inner == JObject([(flag, JArray([JInt(n)]))])
    ensures HasListMember(inner) && HasListMember(JObject([(name, inner)]))
  {
    assert inner.members[0].1.JArray? && |inner.members[0].1.items| > 0;
    assert JObject([(name, inner)]).members[0].1 == inner;
  }

  /** A one-item list flag flattens to the flag and the bracketed item. */
  lemma ListFlagRendered(flag: string, n: int)
    ensures ParseArgs([(flag, JArray([JInt(n)]))]) == [flag, "[" + Dumps(JInt(n)) + "]"]
  {
    var args, item := [(flag, JArray([JInt(n)]))], Dumps(JInt(n));
    assert args[..0] == [];
    assert JoinStrings([item], ", ") == item;
    assert Dumps(JArray([JInt(n)])) == "[" + item + "]";
  }

  /** The command each case runs, by value: the command line with the
      placeholder replaced by the case's flags when the manifest names the
      case, and with the placeholder removed in any case. */
  function ExpectedCommand(cmd: seq<string>, name: string, entries: seq<(string, Json)>): seq<string>
  {
    ClearAtSign(Deref(cmd, BoundRef(cmd, name, entries)))
  }

  /** The case names of the sorted input files of a listing. */
  function ListingNames(listing: seq<string>): seq<string>
  {
    NamesOf(SortedInputs(listing))
  }

  /** Every case of the sorted input files is built, and a manifest holding
      an object is handed to `Assemble` with its members. */
  lemma GetTestCasesSteps(cmd: seq<string>, listing: seq<string>, manifest: Manifest)
    ensures BuildCases(SortedInputs(listing)).Success?
    ensures manifest.Parsed? && manifest.value.JObject? ==>
      GetTestCases(cmd, listing, manifest) == Assemble(cmd, BuildCases(SortedInputs(listing)).value, manifest.value.members)
  {
    var files := SortedInputs(listing);
    assert AllInputFiles(files);
    var built := BuildCases(files);
    assert built.Success?;
    match manifest
    case Parsed(JObject(entries)) =>
      assert GetTestCases(cmd, listing, manifest) == Assemble(cmd, built.value, entries);
    case _ =>
  }

  /** Each built case is stored under its own name, on the shared list. */
  lemma BuiltCasesNamed(files: seq<string>)
    requires AllInputFiles(files)
    ensures BuildCases(files).Success?
    ensures var m := BuildCases(files).value;
      forall i :: 0 <= i < |m| ==> m[i].1.name == m[i].0 && m[i].1.cmd == Shared
  {
    CaseTable(files);
    var m, ns := BuildCases(files).value, NamesOf(files);
    forall i | 0 <= i < |m| ensures m[i].1.name == m[i].0 && m[i].1.cmd == Shared {
      var j := LastIndexOf(ns, m[i].0);
      assert ns[j] == m[i].0;
      assert CaseOf(files[j]).name == ns[j];
    }
  }

  /** What assembly fails with, in the order the steps run: a missing,
      undecodable or non-object manifest, then a case named in it whose
      flags are not an object. Nothing else fails. */
  lemma GetTestCasesErrors(cmd: seq<string>, listing: seq<string>, manifest: Manifest)
    ensures manifest == NoManifest ==> GetTestCases(cmd, listing, manifest) == Failure(ManifestMissing)
    ensures manifest == Unparsable ==> GetTestCases(cmd, listing, manifest) == Failure(ManifestUnparsable)
    ensures manifest.Parsed? && !manifest.value.JObject? ==> GetTestCases(cmd, listing, manifest) == Failure(ManifestNotAnObject)
    ensures manifest.Parsed? && manifest.value.JObject? ==>
      var entries := manifest.value.members;
      && (GetTestCases(cmd, listing, manifest).Success? <==>
          forall i :: 0 <= i < |entries| && entries[i].0 in ListingNames(listing) ==> entries[i].1.JObject?)
      && (GetTestCases(cmd, listing, manifest).Failure? ==> GetTestCases(cmd, listing, manifest).error == ArgsNotAnObject)
  {
    var files := SortedInputs(listing);
    GetTestCasesSteps(cmd, listing, manifest);
    if manifest.Parsed? && manifest.value.JObject? {
      CaseTable(files);
      var cases, entries := BuildCases(files).value, manifest.value.members;
      assert forall k :: k in Keys(cases) <==> k in ListingNames(listing);
      assert MatchedEntriesAreObjects(cases, entries) <==>
        forall i :: 0 <= i < |entries| && entries[i].0 in ListingNames(listing) ==> entries[i].1.JObject?;
    }
  }

  /** The names of a fixture list, in order. */
  function FixtureNames(fs: seq<Fixture>): (r: seq<string>)
    ensures |r| == |fs| && forall i :: 0 <= i < |fs| ==> r[i] == fs[i].name
  {
    seq(|fs|, i requires 0 <= i < |fs| => fs[i].name)
  }

  /** The assembled cases: one per distinct case name among the input files,
      in the order of each name's first file in sorted order, each built from
      the LAST sorted file with its name. */
  lemma GetTestCasesNames(cmd: seq<string>, listing: seq<string>, manifest: Manifest)
    requires GetTestCases(cmd, listing, manifest).Success?
    ensures var fs, ns, files := GetTestCases(cmd, listing, manifest).value, ListingNames(listing), SortedInputs(listing);
      && Distinct(FixtureNames(fs))
      && (forall n :: n in ns <==> n in FixtureNames(fs))
      && InFirstOccurrenceOrder(ns, FixtureNames(fs))
      && forall i :: 0 <= i < |fs| ==> fs[i].name in ns && SameFiles(fs[i], CaseOf(files[LastIndexOf(ns, fs[i].name)]))
  {
    var files := SortedInputs(listing);
    GetTestCasesSteps(cmd, listing, manifest);
    assert manifest.Parsed? && manifest.value.JObject?;
    CaseTable(files);
    BuiltCasesNamed(files);
    AssembledNames(cmd, BuildCases(files).value, manifest.value.members);
  }

  /** Assembled fixtures carry the names of the cases they come from, when
      each case is stored under its own name. */
  lemma AssembledNames(cmd: seq<string>, cases: OMap<TestCase>, entries: seq<(string, Json)>)
    requires Assemble(cmd, cases, entries).Success?
    requires forall i :: 0 <= i < |cases| ==> cases[i].1.name == cases[i].0
    ensures var fs := Assemble(cmd, cases, entries).value;
      && FixtureNames(fs) == Keys(cases)
      && forall i :: 0 <= i < |fs| ==> SameFiles(fs[i], cases[i].1)
  {
    var fs := Assemble(cmd, cases, entries).value;
    assert |fs| == |cases|;
    forall i | 0 <= i < |fs| ensures fs[i].name == cases[i].0 && SameFiles(fs[i], cases[i].1) {
      assert SameFiles(fs[i], cases[i].1);
    }
    assert FixtureNames(fs) == Keys(cases);
  }

  /** With at most one placeholder in the command line and every manifest
      entry an object, assembly succeeds and each case runs exactly the
      command that binding and clearing its own copy would give. */
  lemma GetTestCasesCommands(cmd: seq<string>, listing: seq<string>, entries: seq<(string, Json)>)
    requires AtCount(cmd) <= 1
    requires Distinct(Keys(entries))
    requires forall i :: 0 <= i < |entries| ==> entries[i].1.JObject?
    ensures GetTestCases(cmd, listing, Parsed(JObject(entries))).Success?
    ensures var fs := GetTestCases(cmd, listing, Parsed(JObject(entries))).value;
      forall i :: 0 <= i < |fs| ==> fs[i].command == ExpectedCommand(cmd, fs[i].name, entries)
  {
    var files := SortedInputs(listing);
    GetTestCasesSteps(cmd, listing, Parsed(JObject(entries)));
    CaseTable(files);
    BuiltCasesNamed(files);
    var cases := BuildCases(files).value;
    assert MatchedEntriesAreObjects(cases, entries);
    BindManifestCommands(cmd, cases, entries);
    var bound := BindManifest(cmd, cases, entries).value;
    ClearAllAsValues(cmd, bound);
    var (shared, cleared) := ClearAll(cmd, bound);
    var fs := Resolve(shared, cleared);
    assert GetTestCases(cmd, listing, Parsed(JObject(entries))) == Success(fs);
    forall i | 0 <= i < |fs| ensures fs[i].command == ExpectedCommand(cmd, fs[i].name, entries) {
      assert fs[i].command == Deref(shared, cleared[i].1.cmd) == ClearAtSign(Deref(cmd, bound[i].1.cmd));
      assert bound[i].1.cmd == BoundRef(cmd, cases[i].0, entries);
      assert fs[i].name == cleared[i].1.name == bound[i].1.name == cases[i].1.name == cases[i].0;
    }
  }
}
