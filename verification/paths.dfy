/** Fixture file names: the `.in` input convention, the `.out` / `.err`
    sibling names and the display name of a case. File names are strings;
    `SplitExt` is POSIX `os.path.splitext`. */
module Paths {
  import opened Wrappers
  import opened Seqs

  /** The error the name-derivation helpers raise (an `assert` in the
      program) when a name does not follow the `.in` convention. */
  datatype NameError = MalformedFixtureName

  const InMarker: string := ".in"
  const OutMarker: string := ".out"
  const ErrMarker: string := ".err"

  /** A well-formed extension: a dot followed by no further dot or slash. */
  predicate IsExtension(e: string)
  {
    |e| >= 1 && e[0] == '.' && '.' !in e[1..] && '/' !in e
  }

  /** The last path component of `root` holds a character other than a dot,
      so a dot after it may start an extension. */
  predicate HasStem(root: string)
  {
    exists k :: LastIndexOf(root, '/') < k < |root| && root[k] != '.'
  }

  /** POSIX `os.path.splitext`: the extension runs from the last dot of the
      last path component to the end, unless only dots precede that dot in
      the component (`.bashrc` has no extension). */
  function SplitExt(p: string): (r: (string, string))
    ensures r.0 + r.1 == p
    ensures r.1 == [] || (IsExtension(r.1) && HasStem(r.0))
  {
    var sep := LastIndexOf(p, '/');
    var dot := LastIndexOf(p, '.');
    if dot > sep && exists k :: sep < k < dot && p[k] != '.' then
      LastIndexOfPrefix(p, '/', dot);
      (p[..dot], p[dot..])
    else
      (p, [])
  }

  /** Gluing a stem and a well-formed extension is undone by `SplitExt`. */
  lemma SplitExtOfJoin(root: string, ext: string)
    requires HasStem(root) && IsExtension(ext)
    ensures SplitExt(root + ext) == (root, ext)
  {
    var p := root + ext;
    assert ext == [ext[0]] + ext[1..];
    assert '/' !in ext;
    LastIndexOfAppend(root, ext, '/');
    var sep := LastIndexOf(p, '/');
    assert sep == LastIndexOf(root, '/');
    var dot := LastIndexOf(p, '.');
    assert p[|root|] == '.';
    forall k | |root| < k < |p|
      ensures p[k] != '.'
    {
      assert p[k] == ext[1..][k - |root| - 1];
    }
    assert dot == |root|;
    var k :| sep < k < |root| && root[k] != '.';
    assert p[k] != '.';
    assert p[..dot] == root && p[dot..] == ext;
  }

  /** Directory filter: the name, with one extension stripped, ends in the
      extension `.in` (`case.in.txt` is an input file, `case.in` is not). */
  predicate IsInputFile(name: string)
  {
    SplitExt(SplitExt(name).0).1 == InMarker
  }

  /** The stem before `.in` and the trailing extension of an input name. */
  function RootAndExt(name: string): (r: Result<(string, string), NameError>)
    ensures r.Success? <==> IsInputFile(name)
    ensures r.Success? ==>
      && name == r.value.0 + InMarker + r.value.1
      && HasStem(r.value.0) && IsExtension(r.value.1)
  {
    var (inputRoot, ext) := SplitExt(name);
    var (root, inExt) := SplitExt(inputRoot);
    if inExt == InMarker then Success((root, ext)) else Failure(MalformedFixtureName)
  }

  /** Every `c` of `s` replaced by `d` (Python's `str.replace` for one character). */
  function ReplaceChar(s: string, c: char, d: char): (r: string)
    ensures |r| == |s|
    ensures forall i :: 0 <= i < |s| ==> r[i] == (if s[i] == c then d else s[i])
  {
    if |s| == 0 then [] else ReplaceChar(s[..|s| - 1], c, d) + [if s[|s| - 1] == c then d else s[|s| - 1]]
  }

  /** The display name of a stem: its dashes read as spaces. */
  function DisplayName(root: string): (r: string)
    ensures '-' !in r
    ensures |r| == |root|
    ensures forall i :: 0 <= i < |root| && root[i] != '-' ==> r[i] == root[i]
  {
    ReplaceChar(root, '-', ' ')
  }

  /** The case name derived from an input file name. */
  function TestName(name: string): (r: Result<string, NameError>)
    ensures r.Success? <==> IsInputFile(name)
    ensures r.Success? ==> '-' !in r.value && |r.value| == |name| - |InMarker| - |RootAndExt(name).value.1|
  {
    match RootAndExt(name)
    case Success((root, _)) => Success(DisplayName(root))
    case Failure(e) => Failure(e)
  }

  /** The expected-stdout file name of an input file: `.in` becomes `.out`. */
  function StdoutFileName(name: string): (r: Result<string, NameError>)
    ensures r.Success? <==> IsInputFile(name)
    ensures r.Success? ==> exists root, ext :: IsExtension(ext) && name == root + InMarker + ext && r.value == root + OutMarker + ext
  {
    match RootAndExt(name)
    case Success((root, ext)) => Success(root + OutMarker + ext)
    case Failure(e) => Failure(e)
  }

  /** The expected-stderr file name of an input file: `.in` becomes `.err`. */
  function StderrFileName(name: string): (r: Result<string, NameError>)
    ensures r.Success? <==> IsInputFile(name)
    ensures r.Success? ==> exists root, ext :: IsExtension(ext) && name == root + InMarker + ext && r.value == root + ErrMarker + ext
  {
    match RootAndExt(name)
    case Success((root, ext)) => Success(root + ErrMarker + ext)
    case Failure(e) => Failure(e)
  }

  /** An input file name is exactly a stem, `.in` and a non-empty extension;
      every name of that shape is an input file, and the three derived names
      share its stem and extension. */
  lemma InputFileShape(root: string, ext: string)
    requires HasStem(root) && IsExtension(ext)
    ensures IsInputFile(root + InMarker + ext)
    ensures RootAndExt(root + InMarker + ext) == Success((root, ext))
    ensures TestName(root + InMarker + ext) == Success(DisplayName(root))
    ensures StdoutFileName(root + InMarker + ext) == Success(root + OutMarker + ext)
    ensures StderrFileName(root + InMarker + ext) == Success(root + ErrMarker + ext)
  {
    SplitExtOfJoin(root + InMarker, ext);
    SplitExtOfJoin(root, InMarker);
  }

  /** The directory filter accepts exactly the names made of a stem, `.in`
      and a non-empty extension. */
  lemma IsInputFileIff(name: string)
    ensures IsInputFile(name) <==>
      exists root, ext :: HasStem(root) && IsExtension(ext) && name == root + InMarker + ext
  {
    if IsInputFile(name) {
      var (root, ext) := RootAndExt(name).value;
      assert HasStem(root) && IsExtension(ext) && name == root + InMarker + ext;
    } else if exists root, ext :: HasStem(root) && IsExtension(ext) && name == root + InMarker + ext {
      var root, ext :| HasStem(root) && IsExtension(ext) && name == root + InMarker + ext;
      InputFileShape(root, ext);
    }
  }

  /** A plain name ending in `.in`, with no extension after it, is not an input file. */
  lemma BareInNotInput(root: string)
    requires '.' !in root
    ensures !IsInputFile(root + InMarker)
  {
    var p := root + InMarker;
    var (r1, e1) := SplitExt(p);
    if e1 == [] {
      assert r1 == p;
      assert SplitExt(p).1 == [];
    } else {
      SplitExtOfJoin(r1, e1);
      assert r1 + e1 == root + InMarker;
      assert e1 == InMarker;
      assert r1 == root;
      assert SplitExt(root).1 == [];
    }
  }

  /** Stems that differ only in dashes versus spaces, position by position,
      have the same display name. */
  lemma DisplayNameDashOrSpace(u: string, v: string)
    requires |u| == |v|
    requires forall i :: 0 <= i < |u| ==> u[i] == v[i] || ((u[i] == '-' || u[i] == ' ') && (v[i] == '-' || v[i] == ' '))
    ensures DisplayName(u) == DisplayName(v)
  {
    var du, dv := ReplaceChar(u, '-', ' '), ReplaceChar(v, '-', ' ');
    assert forall i :: 0 <= i < |u| ==> du[i] == dv[i];
  }

  /** Two input files whose stems differ only in dashes versus spaces give
      the same case name. */
  lemma DashAndSpaceCollide(u: string, v: string, ext: string)
    requires HasStem(u) && HasStem(v) && IsExtension(ext)
    requires |u| == |v|
    requires forall i :: 0 <= i < |u| ==> u[i] == v[i] || ((u[i] == '-' || u[i] == ' ') && (v[i] == '-' || v[i] == ' '))
    ensures IsInputFile(u + InMarker + ext) && IsInputFile(v + InMarker + ext)
    ensures TestName(u + InMarker + ext) == TestName(v + InMarker + ext)
  {
    InputFileShape(u, ext);
    InputFileShape(v, ext);
    DisplayNameDashOrSpace(u, v);
  }
}
