/** Output normalisation applied to captured and expected streams alike
    before they are compared: CRLF-to-LF conversion (`to_unix`) and the
    trimming of trailing spaces and trailing newlines (`rtrim`). */
module Normalize {
  import opened Seqs

  type Byte = x: int | 0 <= x < 256
  type Bytes = seq<Byte>

  const TAB: Byte := 9
  const LF: Byte := 10
  const CR: Byte := 13
  const SPACE: Byte := 32

  /** The two normalisation switches, both off by default. */
  datatype Options = Options(toUnix: bool, rtrim: bool)

  /** `s` with every `x` deleted. */
  function Without(s: Bytes, x: Byte): (r: Bytes)
    ensures x !in r
    ensures |r| <= |s|
  {
    if |s| == 0 then [] else (if s[0] == x then [] else [s[0]]) + Without(s[1..], x)
  }

  /** `bytes.replace(b"\r\n", b"\n")`: CRLF pairs, taken left to right
      without overlap, become LF; every other byte is copied. */
  function ToUnix(s: Bytes): (r: Bytes)
    ensures |r| <= |s|
    ensures CR !in s ==> r == s
    ensures Without(r, CR) == Without(s, CR)
  {
    if |s| < 2 then s
    else if s[0] == CR && s[1] == LF then
      assert Without(s, CR) == Without(s[1..], CR) && s[1..][1..] == s[2..];
      [LF] + ToUnix(s[2..])
    else
      assert ([s[0]] + ToUnix(s[1..]))[1..] == ToUnix(s[1..]);
      [s[0]] + ToUnix(s[1..])
  }

  /** Reference for `ToUnix`: the DOS line-ending conversion, LF to CRLF. */
  function ToDos(s: Bytes): (r: Bytes)
    ensures |r| == |s| + multiset(s)[LF]
    ensures |r| > 0 ==> r[0] != LF
  {
    if |s| == 0 then []
    else
      assert s == [s[0]] + s[1..];
      (if s[0] == LF then [CR, LF] else [s[0]]) + ToDos(s[1..])
  }

  /** `ToUnix` exactly undoes `ToDos`, even where `s` holds stray CRs. */
  lemma {:induction false} ToUnixUndoesToDos(s: Bytes)
    ensures ToUnix(ToDos(s)) == s
  {
    if |s| > 0 {
      var d, rest := ToDos(s), ToDos(s[1..]);
      ToUnixUndoesToDos(s[1..]);
      if s[0] == LF {
        assert d == [CR, LF] + rest && d[2..] == rest;
      } else {
        assert d == [s[0]] + rest && d[1..] == rest;
        if |d| >= 2 {
          assert d[1] == rest[0] != LF;
        } else {
          assert rest == [] == ToUnix(rest);
        }
      }
      assert s == [s[0]] + s[1..];
    }
  }

  /** `to_unix` is not idempotent: a CR before a CRLF survives the first
      pass and pairs with the LF on the second. */
  lemma ToUnixNotIdempotent()
    ensures ToUnix([CR, CR, LF]) == [CR, LF]
    ensures ToUnix(ToUnix([CR, CR, LF])) == [LF]
  {
    var s, t: Bytes := [CR, CR, LF], [CR, LF];
    assert t[2..] == [] && ToUnix(t) == [LF] + ToUnix(t[2..]);
    assert s[1..] == t && ToUnix(s) == [CR] + ToUnix(t);
  }

  /** No space byte is directly followed by an LF or by the end. */
  predicate NoSpaceBeforeBreak(s: Bytes)
  {
    forall i :: 0 <= i < |s| && s[i] == SPACE ==> i + 1 < |s| && s[i + 1] != LF
  }

  /** What `rtrim` guarantees: no line ends in a space and the whole does not
      end in LF. */
  predicate Trimmed(s: Bytes)
  {
    (|s| == 0 || s[|s| - 1] != LF) && NoSpaceBeforeBreak(s)
  }

  /** The bytes that `rtrim` must keep: everything but spaces and LFs (tabs
      included), in order. */
  function Content(s: Bytes): (r: Bytes)
    ensures SPACE !in r && LF !in r
  {
    if |s| == 0 then [] else (if s[0] == SPACE || s[0] == LF then [] else [s[0]]) + Content(s[1..])
  }

  lemma {:induction false} ContentConcat(a: Bytes, b: Bytes)
    ensures Content(a + b) == Content(a) + Content(b)
  {
    if |a| == 0 {
      assert a + b == b;
    } else {
      var h: Bytes := if a[0] == SPACE || a[0] == LF then [] else [a[0]];
      ContentConcat(a[1..], b);
      assert (a + b)[0] == a[0] && (a + b)[1..] == a[1..] + b;
      assert Content(a + b) == h + Content(a[1..] + b);
      assert Content(a) == h + Content(a[1..]);
      assert h + (Content(a[1..]) + Content(b)) == (h + Content(a[1..])) + Content(b);
    }
  }

  lemma {:induction false} ContentOfBlanks(s: Bytes)
    requires forall k :: 0 <= k < |s| ==> s[k] == SPACE || s[k] == LF
    ensures Content(s) == []
  {
    if |s| > 0 {
      ContentOfBlanks(s[1..]);
    }
  }

  /** Stripping trailing spaces or LFs keeps the content. */
  lemma RStripKeepsContent(s: Bytes, x: Byte)
    requires x == SPACE || x == LF
    ensures Content(RStrip(s, x)) == Content(s)
  {
    var r := RStrip(s, x);
    assert s == r + s[|r|..];
    ContentConcat(r, s[|r|..]);
    ContentOfBlanks(s[|r|..]);
  }

  /** Joining lines with LF keeps the content of the lines. */
  lemma {:induction false} JoinKeepsContent(ls: seq<Bytes>, ms: seq<Bytes>)
    requires |ls| == |ms|
    requires forall i :: 0 <= i < |ls| ==> Content(ls[i]) == Content(ms[i])
    ensures Content(Join(ls, LF)) == Content(Join(ms, LF))
  {
    if |ls| > 1 {
      var n := |ls| - 1;
      JoinKeepsContent(ls[..n], ms[..n]);
      ContentConcat(Join(ls[..n], LF) + [LF], ls[n]);
      ContentConcat(Join(ls[..n], LF), [LF]);
      ContentConcat(Join(ms[..n], LF) + [LF], ms[n]);
      ContentConcat(Join(ms[..n], LF), [LF]);
    }
  }

  /** Joining lines free of LF and of trailing spaces leaves no space before
      a break, and the result does not end in a space. */
  lemma {:induction false} JoinNoSpaceBeforeBreak(ls: seq<Bytes>)
    requires forall i :: 0 <= i < |ls| ==> LF !in ls[i] && (|ls[i]| == 0 || ls[i][|ls[i]| - 1] != SPACE)
    ensures NoSpaceBeforeBreak(Join(ls, LF))
  {
    if |ls| > 1 {
      var n := |ls| - 1;
      var j, last := Join(ls[..n], LF), ls[n];
      JoinNoSpaceBeforeBreak(ls[..n]);
      var s := j + [LF] + last;
      assert Join(ls, LF) == s;
      forall i | 0 <= i < |s| && s[i] == SPACE
        ensures i + 1 < |s| && s[i + 1] != LF
      {
        if i > |j| {
          assert s[i] == last[i - |j| - 1];
          if i + 1 < |s| {
            assert s[i + 1] == last[i - |j|];
          }
        }
      }
    }
  }

  /** Dropping trailing LFs keeps `NoSpaceBeforeBreak`. */
  lemma RStripKeepsNoSpaceBeforeBreak(s: Bytes)
    requires NoSpaceBeforeBreak(s)
    ensures NoSpaceBeforeBreak(RStrip(s, LF))
  {
    var r := RStrip(s, LF);
    forall i | 0 <= i < |r| && r[i] == SPACE
      ensures i + 1 < |r| && r[i + 1] != LF
    {
      assert s[i] == SPACE;
    }
  }

  /** Under `NoSpaceBeforeBreak` no line of the split ends in a space. */
  lemma {:induction false} SplitLinesUntrailed(s: Bytes)
    requires NoSpaceBeforeBreak(s)
    ensures forall i :: 0 <= i < |Split(s, LF)| ==> |Split(s, LF)[i]| == 0 || Split(s, LF)[i][|Split(s, LF)[i]| - 1] != SPACE
    decreases |s|
  {
    var k := LastIndexOf(s, LF);
    if k >= 0 {
      assert NoSpaceBeforeBreak(s[..k]) by {
        forall i | 0 <= i < k && s[..k][i] == SPACE
          ensures i + 1 < k && s[..k][i + 1] != LF
        {
          assert s[i] == SPACE;
        }
      }
      SplitLinesUntrailed(s[..k]);
      assert |s[k + 1..]| == 0 || s[|s| - 1] != SPACE;
    }
  }

  /** Trailing spaces (not tabs) stripped from every line. */
  function StripEach(lines: seq<Bytes>): (r: seq<Bytes>)
    ensures |r| == |lines|
  {
    seq(|lines|, i requires 0 <= i < |lines| => RStrip(lines[i], SPACE))
  }

  /** The first half of `rtrim`: split at LF, strip trailing spaces from every
      line, and join the lines again. */
  function StripLines(s: Bytes): (r: Bytes)
    ensures NoSpaceBeforeBreak(r)
    ensures Content(r) == Content(s)
  {
    var lines := Split(s, LF);
    var stripped := StripEach(lines);
    JoinNoSpaceBeforeBreak(stripped);
    assert forall i :: 0 <= i < |lines| ==> Content(stripped[i]) == Content(lines[i]) by {
      forall i | 0 <= i < |lines| { RStripKeepsContent(lines[i], SPACE); }
    }
    JoinKeepsContent(stripped, lines);
    JoinSplit(s, LF);
    Join(stripped, LF)
  }

  /** `rtrim`: strip trailing spaces (not tabs) from every LF-separated line,
      then strip trailing LFs from the whole. */
  function RTrim(s: Bytes): (r: Bytes)
    ensures Trimmed(r)
    ensures Content(r) == Content(s)
  {
    var joined := StripLines(s);
    RStripKeepsNoSpaceBeforeBreak(joined);
    RStripKeepsContent(joined, LF);
    RStrip(joined, LF)
  }

  /** The index of the first byte of `s` from `i` on that is not a space, or
      `|s|` when there is none. */
  function NextNonSpace(s: Bytes, i: nat): (k: nat)
    requires i <= |s|
    ensures i <= k <= |s|
    ensures forall j :: i <= j < k ==> s[j] == SPACE
    ensures k < |s| ==> s[k] != SPACE
    decreases |s| - i
  {
    if i == |s| || s[i] != SPACE then i else NextNonSpace(s, i + 1)
  }

  /** Only spaces lie between the start of `s` and the next LF or the end. */
  predicate EndsLine(s: Bytes)
  {
    var k := NextNonSpace(s, 0);
    k == |s| || s[k] == LF
  }

  /** Reference for the line stripping of `rtrim`, byte by byte: every byte is
      kept except a space that only spaces separate from an LF or the end. */
  function DropLineEndSpaces(s: Bytes): (r: Bytes)
  {
    if |s| == 0 then []
    else (if s[0] == SPACE && EndsLine(s) then [] else [s[0]]) + DropLineEndSpaces(s[1..])
  }

  /** Whether a space ends its line does not depend on what follows an LF,
      nor on anything after a byte that is not a space. */
  lemma EndsLineConcat(a: Bytes, b: Bytes)
    requires |a| > 0
    requires |b| == 0 || b[0] == LF || a[|a| - 1] != SPACE
    ensures EndsLine(a + b) == EndsLine(a)
  {
    var k, m := NextNonSpace(a, 0), NextNonSpace(a + b, 0);
    if k < |a| {
      assert (a + b)[k] == a[k];
    } else if |b| > 0 {
      assert (a + b)[|a|] == b[0];
    }
  }

  /** Line-end spaces of `a` are found in `a` alone when `b` starts a new line
      or `a` does not end in a space. */
  lemma {:induction false} DropLineEndSpacesConcat(a: Bytes, b: Bytes)
    requires |a| == 0 || |b| == 0 || b[0] == LF || a[|a| - 1] != SPACE
    ensures DropLineEndSpaces(a + b) == DropLineEndSpaces(a) + DropLineEndSpaces(b)
    decreases |a|
  {
    if |a| == 0 {
      assert a + b == b;
    } else {
      DropLineEndSpacesConcat(a[1..], b);
      EndsLineConcat(a, b);
      assert (a + b)[0] == a[0] && (a + b)[1..] == a[1..] + b;
      var h: Bytes := if a[0] == SPACE && EndsLine(a) then [] else [a[0]];
      assert DropLineEndSpaces(a + b) == h + DropLineEndSpaces(a[1..] + b);
      assert DropLineEndSpaces(a) == h + DropLineEndSpaces(a[1..]);
    }
  }

  /** A run of spaces is dropped whole. */
  lemma {:induction false} DropLineEndSpacesOfSpaces(s: Bytes)
    requires forall j :: 0 <= j < |s| ==> s[j] == SPACE
    ensures DropLineEndSpaces(s) == []
  {
    if |s| > 0 {
      assert NextNonSpace(s, 0) == |s|;
      DropLineEndSpacesOfSpaces(s[1..]);
    }
  }

  /** A line that does not end in a space keeps all its bytes. */
  lemma {:induction false} DropLineEndSpacesKeeps(s: Bytes)
    requires LF !in s && (|s| == 0 || s[|s| - 1] != SPACE)
    ensures DropLineEndSpaces(s) == s
  {
    if |s| > 0 {
      assert s[0] == SPACE ==> !EndsLine(s) by {
        if s[0] == SPACE {
          var k := NextNonSpace(s, 0);
          assert k < |s|;
          assert s[k] in s;
        }
      }
      DropLineEndSpacesKeeps(s[1..]);
      assert s == [s[0]] + s[1..];
    }
  }

  /** On one line, dropping line-end spaces is stripping trailing spaces. */
  lemma DropLineEndSpacesOfLine(s: Bytes)
    requires LF !in s
    ensures DropLineEndSpaces(s) == RStrip(s, SPACE)
  {
    var r := RStrip(s, SPACE);
    var rest := s[|r|..];
    assert s == r + rest;
    assert LF !in r by {
      forall j | 0 <= j < |r| ensures r[j] != LF { assert r[j] == s[j]; }
    }
    DropLineEndSpacesConcat(r, rest);
    DropLineEndSpacesKeeps(r);
    DropLineEndSpacesOfSpaces(rest);
  }

  /** Stripping one more line: the stripped front, an LF and the stripped
      last line. */
  lemma StripEachSnoc(lines: seq<Bytes>, last: Bytes)
    requires |lines| > 0
    ensures Join(StripEach(lines + [last]), LF) == Join(StripEach(lines), LF) + [LF] + RStrip(last, SPACE)
  {
    var all := StripEach(lines + [last]);
    assert all[..|lines|] == StripEach(lines);
  }

  /** The line stripping of `rtrim` is `DropLineEndSpaces`. */
  lemma {:induction false} StripLinesDropsLineEndSpaces(s: Bytes)
    ensures StripLines(s) == DropLineEndSpaces(s)
    decreases |s|
  {
    var i := LastIndexOf(s, LF);
    if i < 0 {
      StripOneLine(s);
    } else {
      StripLinesDropsLineEndSpaces(s[..i]);
      StripLinesStep(s, i);
    }
  }

  /** `StripLinesDropsLineEndSpaces` for a single line. */
  lemma StripOneLine(s: Bytes)
    requires LastIndexOf(s, LF) < 0
    ensures StripLines(s) == DropLineEndSpaces(s)
  {
    assert LF !in s;
    assert Split(s, LF) == [s];
    assert StripEach([s]) == [RStrip(s, SPACE)];
    DropLineEndSpacesOfLine(s);
  }

  /** `StripLinesDropsLineEndSpaces` from the lines before the last LF, at
      `i`, to the whole. */
  lemma StripLinesStep(s: Bytes, i: int)
    requires i == LastIndexOf(s, LF) && i >= 0
    requires StripLines(s[..i]) == DropLineEndSpaces(s[..i])
    ensures StripLines(s) == DropLineEndSpaces(s)
  {
    StripLinesSnoc(s, i);
    DropLineEndSpacesAtBreak(s, i);
    assert LF !in s[i + 1..];
    DropLineEndSpacesOfLine(s[i + 1..]);
  }

  /** Stripping the lines of `s` is stripping those before its last LF, at
      `i`, then the LF and the stripped last line. */
  lemma StripLinesSnoc(s: Bytes, i: int)
    requires i == LastIndexOf(s, LF) && i >= 0
    ensures StripLines(s) == StripLines(s[..i]) + [LF] + RStrip(s[i + 1..], SPACE)
  {
    assert Split(s, LF) == Split(s[..i], LF) + [s[i + 1..]];
    StripEachSnoc(Split(s[..i], LF), s[i + 1..]);
  }

  /** An LF at `i` splits `DropLineEndSpaces` in two. */
  lemma DropLineEndSpacesAtBreak(s: Bytes, i: int)
    requires 0 <= i < |s| && s[i] == LF
    ensures DropLineEndSpaces(s) == DropLineEndSpaces(s[..i]) + [LF] + DropLineEndSpaces(s[i + 1..])
  {
    var tail := s[i..];
    assert s == s[..i] + tail;
    DropLineEndSpacesConcat(s[..i], tail);
    assert tail[0] == LF && tail[1..] == s[i + 1..];
  }

  /** `rtrim` byte by byte: it keeps every byte but the spaces that only spaces
      separate from an LF or the end, and then drops the trailing LFs. So
      every LF before the last non-blank byte survives, and so does every
      space followed on its line by something other than a space. */
  lemma RTrimByBytes(s: Bytes)
    ensures RTrim(s) == RStrip(DropLineEndSpaces(s), LF)
  {
    StripLinesDropsLineEndSpaces(s);
  }

  /** An already trimmed stream is left alone by `rtrim`. */
  lemma TrimmedIsFixed(s: Bytes)
    requires Trimmed(s)
    ensures RTrim(s) == s
  {
    var lines := Split(s, LF);
    SplitLinesUntrailed(s);
    assert StripEach(lines) == lines;
    JoinSplit(s, LF);
    assert StripLines(s) == s;
  }

  /** `rtrim` is idempotent. */
  lemma RTrimIdempotent(s: Bytes)
    ensures RTrim(RTrim(s)) == RTrim(s)
  {
    TrimmedIsFixed(RTrim(s));
  }

  /** `rtrim` empties a stream exactly when it holds only spaces and LFs. */
  lemma RTrimEmptyIff(s: Bytes)
    ensures RTrim(s) == [] <==> Content(s) == []
  {
    var r := RTrim(s);
    if r != [] {
      TrimmedHasContent(r);
    }
  }

  /** Trimmed bytes end in a byte that is neither space nor LF, so they have
      content unless they are empty. */
  lemma TrimmedHasContent(r: Bytes)
    requires Trimmed(r) && r != []
    ensures Content(r) != []
  {
    var last := r[|r| - 1];
    assert last != SPACE && last != LF;
    assert r == r[..|r| - 1] + [last];
    ContentConcat(r[..|r| - 1], [last]);
    assert Content([last]) == [last];
  }

  /** The normalisation `convert_output` applies: `to_unix` first, then `rtrim`. */
  function Convert(opts: Options, s: Bytes): (r: Bytes)
    ensures !opts.toUnix && !opts.rtrim ==> r == s
    ensures opts.rtrim ==> Trimmed(r)
    ensures opts.rtrim && !opts.toUnix ==> Content(r) == Content(s)
    ensures opts.toUnix && !opts.rtrim ==> Without(r, CR) == Without(s, CR)
  {
    var t := if opts.toUnix then ToUnix(s) else s;
    if opts.rtrim then RTrim(t) else t
  }

  /** Normalising nothing gives nothing, whatever the options. */
  lemma ConvertEmpty(opts: Options)
    ensures Convert(opts, []) == []
  {
    ContentOfBlanks([]);
    RTrimEmptyIff([]);
  }

  /** Without `to_unix`, normalisation is idempotent. */
  lemma ConvertIdempotentWithoutToUnix(opts: Options, s: Bytes)
    requires !opts.toUnix
    ensures Convert(opts, Convert(opts, s)) == Convert(opts, s)
  {
    if opts.rtrim {
      RTrimIdempotent(s);
    }
  }

  /** With both switches on, normalisation is not idempotent either. */
  lemma ConvertNotIdempotent()
    ensures Convert(Options(true, true), [CR, CR, LF, 120]) == [CR, LF, 120]
    ensures Convert(Options(true, true), [CR, LF, 120]) == [LF, 120]
  {
    var s: Bytes := [CR, CR, LF, 120];
    var u: Bytes := [CR, LF, 120];
    assert s[1..] == u && u[2..] == [120];
    assert ToUnix(u) == [LF, 120];
    assert ToUnix(s) == u;
    TrimmedIsFixed(u);
    assert Trimmed([LF, 120]);
    TrimmedIsFixed([LF, 120]);
  }
}
