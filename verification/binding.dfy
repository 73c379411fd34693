/** Command templates and the `@` placeholder: flattening a manifest entry
    into arguments, splicing them in place of `@`, dropping an unused `@`,
    and the check that a template holds at most one `@`. */
module Binding {
  import opened Seqs
  import opened Json

  /** The placeholder segment of a command template. */
  const AtSign: string := "@"

  /** How many segments of `cmd` are the placeholder. */
  function AtCount(cmd: seq<string>): nat
  {
    multiset(cmd)[AtSign]
  }

  /** `parse_cmdline_args_json`: each flag of a manifest entry, in the
      entry's own order, followed by its value as JSON text. */
  function ParseArgs(args: seq<(string, Json)>): (r: seq<string>)
    ensures |r| == 2 * |args|
  {
    if |args| == 0 then []
    else ParseArgs(args[..|args| - 1]) + [args[|args| - 1].0, Dumps(args[|args| - 1].1)]
  }

  /** Entry `i` of the object supplies segments `2i` (its flag) and `2i + 1`
      (its value as JSON text). */
  lemma {:induction false} ParseArgsPositions(args: seq<(string, Json)>)
    ensures forall i :: 0 <= i < |args| ==>
      ParseArgs(args)[2 * i] == args[i].0 && ParseArgs(args)[2 * i + 1] == Dumps(args[i].1)
  {
    if |args| > 0 {
      var n := |args| - 1;
      var front := args[..n];
      ParseArgsPositions(front);
      var r, rf := ParseArgs(args), ParseArgs(front);
      assert r == rf + [args[n].0, Dumps(args[n].1)];
      forall i | 0 <= i < |args|
        ensures r[2 * i] == args[i].0 && r[2 * i + 1] == Dumps(args[i].1)
      {
        if i < n {
          assert r[2 * i] == rf[2 * i] && r[2 * i + 1] == rf[2 * i + 1];
          assert front[i] == args[i];
        }
      }
    }
  }

  /** One more entry adds its flag and value at the end. */
  lemma ParseArgsSnoc(ps: seq<(string, Json)>, e: (string, Json))
    ensures ParseArgs(ps + [e]) == ParseArgs(ps) + [e.0, Dumps(e.1)]
  {
    assert (ps + [e])[..|ps|] == ps;
  }

  /** Flattening respects the order of entries: the arguments of an earlier
      flag come before those of a later one. */
  lemma {:induction false} ParseArgsConcat(a: seq<(string, Json)>, b: seq<(string, Json)>)
    ensures ParseArgs(a + b) == ParseArgs(a) + ParseArgs(b)
    decreases |b|
  {
    if |b| == 0 {
      assert a + b == a;
    } else {
      var n := |b| - 1;
      var front, e := b[..n], b[n];
      ParseArgsConcat(a, front);
      assert b == front + [e] && a + b == (a + front) + [e];
      ParseArgsSnoc(a + front, e);
      ParseArgsSnoc(front, e);
      var pa, pf, piece := ParseArgs(a), ParseArgs(front), [e.0, Dumps(e.1)];
      assert (pa + pf) + piece == pa + (pf + piece);
    }
  }

  /** `replace_at_sign_with_cmdline_args`: every `@` segment replaced by the
      whole of `args`, every other segment copied. */
  function ReplaceAtSign(cmd: seq<string>, args: seq<string>): (r: seq<string>)
    ensures AtCount(cmd) == 0 ==> r == cmd
    ensures AtSign !in args ==> AtCount(r) == 0
  {
    if |cmd| == 0 then []
    else
      var last := cmd[|cmd| - 1];
      assert cmd == cmd[..|cmd| - 1] + [last];
      ReplaceAtSign(cmd[..|cmd| - 1], args) + (if last == AtSign then args else [last])
  }

  /** Replacement works segment by segment, so it distributes over `+`. */
  lemma {:induction false} ReplaceAtSignConcat(a: seq<string>, b: seq<string>, args: seq<string>)
    ensures ReplaceAtSign(a + b, args) == ReplaceAtSign(a, args) + ReplaceAtSign(b, args)
    decreases |b|
  {
    if |b| == 0 {
      assert a + b == a;
    } else {
      var n := |b| - 1;
      var last := b[n];
      var piece := if last == AtSign then args else [last];
      ReplaceAtSignConcat(a, b[..n], args);
      assert (a + b)[..|a + b| - 1] == a + b[..n];
      assert (a + b)[|a + b| - 1] == last;
      assert ReplaceAtSign(a + b, args) == ReplaceAtSign(a + b[..n], args) + piece;
      assert ReplaceAtSign(b, args) == ReplaceAtSign(b[..n], args) + piece;
    }
  }

  /** With exactly one `@`, the arguments land exactly where it stood and
      every other segment keeps its place. */
  lemma ReplaceSingleAtSign(pre: seq<string>, post: seq<string>, args: seq<string>)
    requires AtSign !in pre && AtSign !in post
    ensures ReplaceAtSign(pre + [AtSign] + post, args) == pre + args + post
  {
    ReplaceAtSignConcat(pre + [AtSign], post, args);
    ReplaceAtSignConcat(pre, [AtSign], args);
    assert [AtSign][..0] == [];
  }

  /** `clear_at_sign_from_cmd` on one command: `list.remove('@')`, with the
      `ValueError` of a command without `@` ignored. */
  function ClearAtSign(cmd: seq<string>): (r: seq<string>)
    ensures AtCount(cmd) == 0 ==> r == cmd
    ensures AtCount(cmd) > 0 ==> |r| == |cmd| - 1 && AtCount(r) == AtCount(cmd) - 1
    ensures AtCount(cmd) > 0 ==> exists k :: 0 <= k < |cmd| && cmd[k] == AtSign && AtSign !in cmd[..k] && r == cmd[..k] + cmd[k + 1..]
  {
    RemoveFirst(cmd, AtSign)
  }

  /** On a validated template, clearing the placeholder is binding it to no
      arguments. */
  lemma ClearIsEmptyBinding(cmd: seq<string>)
    requires AtCount(cmd) <= 1
    ensures ClearAtSign(cmd) == ReplaceAtSign(cmd, [])
  {
    var k := FirstIndexOf(cmd, AtSign);
    if k >= 0 {
      ClearIsEmptyBindingAt(cmd, k);
    }
  }

  /** `ClearIsEmptyBinding` for a command whose one `@` stands at `k`. */
  lemma ClearIsEmptyBindingAt(cmd: seq<string>, k: int)
    requires AtCount(cmd) <= 1 && 0 <= k < |cmd| && cmd[k] == AtSign
    ensures ClearAtSign(cmd) == ReplaceAtSign(cmd, [])
  {
    var pre, post := cmd[..k], cmd[k + 1..];
    SplitAround(cmd, k);
    AtCountAround(pre, post);
    ClearSingleAtSign(pre, post);
    ReplaceSingleAtSign(pre, post, []);
  }

  /** The `@` segments around one `@`. */
  lemma AtCountAround(pre: seq<string>, post: seq<string>)
    ensures AtCount(pre + [AtSign] + post) == AtCount(pre) + 1 + AtCount(post)
    ensures AtCount(pre) == 0 <==> AtSign !in pre
    ensures AtCount(post) == 0 <==> AtSign !in post
  {
    assert multiset(pre + [AtSign] + post) == multiset(pre) + multiset{AtSign} + multiset(post);
  }

  /** On a validated template, clearing leaves no `@`, so clearing again
      changes nothing. */
  lemma ClearAtSignIdempotent(cmd: seq<string>)
    requires AtCount(cmd) <= 1
    ensures AtCount(ClearAtSign(cmd)) == 0
    ensures ClearAtSign(ClearAtSign(cmd)) == ClearAtSign(cmd)
  {
  }

  /** Clearing removes the first `@` only. */
  lemma ClearTwoAtSigns(p: string)
    requires p != AtSign
    ensures ClearAtSign([p, AtSign, AtSign]) == [p, AtSign]
    ensures ClearAtSign([p, AtSign]) == [p]
  {
    FirstIndexOfAt([p, AtSign, AtSign], 1, AtSign);
    FirstIndexOfAt([p, AtSign], 1, AtSign);
  }

  /** With exactly one `@`, clearing removes just that segment. */
  lemma ClearSingleAtSign(pre: seq<string>, post: seq<string>)
    requires AtSign !in pre && AtSign !in post
    ensures ClearAtSign(pre + [AtSign] + post) == pre + post
  {
    var cmd := pre + [AtSign] + post;
    assert cmd[..|pre|] == pre && cmd[|pre| + 1..] == post;
    FirstIndexOfAt(cmd, |pre|, AtSign);
  }

  /** Manifest entries flatten in their own order, not alphabetically. */
  lemma ParseArgsKeepsOrder()
    ensures ParseArgs([("b", JInt(2)), ("a", JInt(1))]) == ["b", "2", "a", "1"]
  {
    var ba := [("b", JInt(2)), ("a", JInt(1))];
    assert ba[..1] == [("b", JInt(2))];
    assert ParseArgs(ba[..1]) == ["b", "2"];
  }

  /** A plain string value keeps its quotes, and the arguments land where
      `@` stood: `prog @` with `{flag: "w"}` runs `prog flag "w"`. */
  lemma BindStringValue(prog: string, flag: string, w: string)
    requires prog != AtSign
    requires forall i :: 0 <= i < |w| ==> ' ' <= w[i] <= '~' && w[i] != '"' && w[i] != '\\'
    ensures ReplaceAtSign([prog, AtSign], ParseArgs([(flag, JString(w))])) == [prog, flag, "\"" + w + "\""]
  {
    QuotePlain(w);
    var entry := [(flag, JString(w))];
    var args := ParseArgs(entry);
    assert args == [flag, Dumps(JString(w))] by {
      assert entry[..0] == [];
    }
    BindSingle([prog], args);
    assert [prog] + [AtSign] == [prog, AtSign];
  }

  lemma BindSingle(pre: seq<string>, args: seq<string>)
    requires AtSign !in pre
    ensures ReplaceAtSign(pre + [AtSign], args) == pre + args
  {
    ReplaceSingleAtSign(pre, [], args);
    assert pre + [AtSign] + [] == pre + [AtSign];
    assert pre + args + [] == pre + args;
  }

  /** The placeholder check of `validate_cmdline_args`: scan the segments and
      fail on the second `@`. */
  method CheckPlaceholders(cmd: seq<string>) returns (ok: bool)
    ensures ok <==> AtCount(cmd) <= 1
  {
    var seen := false;
    var i := 0;
    while i < |cmd|
      invariant 0 <= i <= |cmd|
      invariant AtCount(cmd[..i]) <= 1
      invariant seen <==> AtCount(cmd[..i]) == 1
    {
      assert cmd[..i + 1] == cmd[..i] + [cmd[i]];
      if cmd[i] == AtSign {
        if seen {
          assert cmd == cmd[..i + 1] + cmd[i + 1..];
          return false;
        }
        seen := true;
      }
      i := i + 1;
    }
    assert cmd[..i] == cmd;
    return true;
  }
}
