/** The text-splice path of the subscription rewriter (src/add-takeuntil/index.ts,
    `wrapWithTakeUntil`, `appendOperator`, `closeParen`): it attaches an operator to
    a receiver's source text by splicing it into the argument list of the last
    `.pipe(` call, found by a balanced-parenthesis scan. */
module Splice {
  import opened Text

  /** The marker of a pipe-style call: the text that opens its argument list. */
  const PipeOpen: string := ".pipe("

  /** The marker of a site that already has a cancellation operator. */
  const ManagedMarker: string := "takeUntil("

  /** The operator text `takeUntil(this.<subj>)`. */
  function TakeUntilCall(subj: string): string {
    ManagedMarker + "this." + subj + ")"
  }

  /** How one character moves the parenthesis depth. */
  function Delta(c: char): int {
    if c == '(' then 1 else if c == ')' then -1 else 0
  }

  /** Opening minus closing parentheses in `s[i..j]`. */
  function DepthIn(s: string, i: nat, j: nat): int
    requires i <= j <= |s|
    decreases j - i
  {
    if j == i then 0 else DepthIn(s, i, j - 1) + Delta(s[j - 1])
  }

  /** Every `)` in `s` closes a `(` before it, and every `(` is closed. */
  ghost predicate Balanced(s: string) {
    && DepthIn(s, 0, |s|) == 0
    && forall k {:trigger DepthIn(s, 0, k)} :: 0 <= k < |s| && s[k] == ')' ==> DepthIn(s, 0, k) > 0
  }

  /** `p` is the first `)` at or after `i` reached at depth 0, counting from `i`. */
  ghost predicate IsFirstClose(str: string, i: nat, p: int) {
    && i <= p < |str|
    && str[p] == ')'
    && DepthIn(str, i, p) == 0
    && forall q {:trigger DepthIn(str, i, q)} :: i <= q < p && str[q] == ')' ==> DepthIn(str, i, q) > 0
  }

  /** The depth of a stretch of text depends only on its characters. */
  lemma {:induction false} DepthShift(a: string, ia: nat, b: string, ib: nat, n: nat)
    requires ia + n <= |a| && ib + n <= |b|
    requires a[ia..ia + n] == b[ib..ib + n]
    ensures DepthIn(a, ia, ia + n) == DepthIn(b, ib, ib + n)
  {
    if n > 0 {
      assert a[ia..ia + n - 1] == a[ia..ia + n][..n - 1];
      assert b[ib..ib + n - 1] == b[ib..ib + n][..n - 1];
      DepthShift(a, ia, b, ib, n - 1);
      assert a[ia + n - 1] == a[ia..ia + n][n - 1];
      assert b[ib + n - 1] == b[ib..ib + n][n - 1];
    }
  }

  /** The loop of `closeParen` from position `p` on, `d` being the depth so far. */
  function CloseScan(str: string, i: nat, p: nat, d: int): (r: int)
    requires i <= p <= |str|
    requires d == DepthIn(str, i, p) && d >= 0
    requires forall q {:trigger DepthIn(str, i, q)} :: i <= q < p && str[q] == ')' ==> DepthIn(str, i, q) > 0
    ensures IsFirstClose(str, i, r) || (r == |str| - 1 && forall p' :: !IsFirstClose(str, i, p'))
    decreases |str| - p
  {
    if p == |str| then |str| - 1
    else if str[p] == '(' then CloseScan(str, i, p + 1, d + 1)
    else if str[p] == ')' then (if d == 0 then p else CloseScan(str, i, p + 1, d - 1))
    else CloseScan(str, i, p + 1, d)
  }

  /** `closeParen(str, i)`: the first `)` at depth 0 from `i`, or `|str| - 1` when
      the scan runs off the end (including when `i` is past the end). */
  function CloseParen(str: string, i: nat): (r: int)
    ensures IsFirstClose(str, i, r) || (r == |str| - 1 && forall p :: !IsFirstClose(str, i, p))
  {
    if i > |str| then |str| - 1 else CloseScan(str, i, i, 0)
  }

  lemma FirstCloseUnique(str: string, i: nat, p: int, p': int)
    requires IsFirstClose(str, i, p) && IsFirstClose(str, i, p')
    ensures p == p'
  {
  }

  /** What a matched scan delimits is a balanced argument list. */
  lemma FirstCloseBalanced(str: string, i: nat, p: int)
    requires IsFirstClose(str, i, p)
    ensures Balanced(str[i..p])
  {
    var s := str[i..p];
    DepthShift(s, 0, str, i, |s|);
    forall k | 0 <= k < |s| && s[k] == ')'
      ensures DepthIn(s, 0, k) > 0
    {
      assert s[0..k] == str[i..i + k];
      DepthShift(s, 0, str, i, k);
      assert str[i + k] == ')';
    }
  }

  /** Conversely, a balanced text followed by `)` is closed exactly by that `)`. */
  lemma BalancedCloses(pre: string, j: string, post: string)
    requires Balanced(j)
    ensures IsFirstClose(pre + j + ")" + post, |pre|, |pre| + |j|)
  {
    var str := pre + j + ")" + post;
    var i := |pre|;
    assert j[0..|j|] == str[i..i + |j|];
    DepthShift(j, 0, str, i, |j|);
    forall q | i <= q < i + |j| && str[q] == ')'
      ensures DepthIn(str, i, q) > 0
    {
      assert j[0..q - i] == str[i..q];
      DepthShift(j, 0, str, i, q - i);
      assert j[q - i] == ')';
    }
  }

  /** Where the argument list of the last `.pipe(` begins. */
  function PipeArgsStart(obs: string): int {
    LastIndexOf(obs, PipeOpen) + |PipeOpen|
  }

  /** The splice itself: keep `obs[..start]`, then the trimmed text up to `close`,
      a separator when that text is not blank, `op`, and `obs[close..]`. */
  function SpliceOperator(obs: string, start: nat, close: nat, op: string): (r: string)
    requires start <= |obs| && close <= |obs|
    ensures start <= |r| && r[..start] == obs[..start]
    ensures EndsWith(r, op + obs[close..])
    ensures Contains(r, op)
  {
    var content := Trim(if start <= close then obs[start..close] else []);
    var sep := if content != [] then ", " else "";
    SpliceShape(obs[..start], content, sep, op, obs[close..]);
    obs[..start] + content + sep + op + obs[close..]
  }

  /** The shape of a splice, independent of how its pieces were found. */
  lemma SpliceShape(head: string, content: string, sep: string, op: string, tail: string)
    ensures var r := head + content + sep + op + tail;
      && |head| <= |r| && r[..|head|] == head
      && EndsWith(r, op + tail)
      && Contains(r, op)
  {
    var r := head + content + sep + op + tail;
    ContainsSelf(head + content + sep, op, tail);
    assert r == (head + content + sep) + (op + tail);
    EndsWithConcat(head + content + sep, op + tail);
  }

  /** `appendOperator(obs, op)`: make `op` the last argument of the last `.pipe(`
      call in `obs`, or wrap `obs` in a new `.pipe(op)` when there is none. */
  function AppendOperator(obs: string, op: string): (r: string)
    ensures !Contains(obs, PipeOpen) ==> r == obs + PipeOpen + op + ")"
    ensures Contains(r, op)
  {
    var lastIdx := LastIndexOf(obs, PipeOpen);
    if lastIdx == -1 then
      ContainsSelf(obs + PipeOpen, op, ")");
      obs + PipeOpen + op + ")"
    else
      var start := lastIdx + |PipeOpen|;
      var close := CloseParen(obs, start);
      SpliceOperator(obs, start, close, op)
  }

  /** Whatever the scan finds, the text through the last `.pipe(` and the text from
      the point the scan stopped at are kept, with `op` just before the latter. */
  lemma AppendOperatorKeepsEnds(obs: string, op: string)
    requires Contains(obs, PipeOpen)
    ensures var start := PipeArgsStart(obs);
      var close := CloseParen(obs, start);
      var r := AppendOperator(obs, op);
      && 0 <= close <= |obs|
      && start <= |r| && r[..start] == obs[..start]
      && EndsWith(r, op + obs[close..])
  {
  }

  /** `wrapWithTakeUntil(obs, subj)`: attach `takeUntil(this.<subj>)` to `obs`. Its
      two branches agree with `appendOperator`, and the result always carries the
      marker of a managed site. */
  function WrapWithTakeUntil(obs: string, subj: string): (r: string)
    ensures r == AppendOperator(obs, TakeUntilCall(subj))
    ensures Contains(r, TakeUntilCall(subj))
    ensures Contains(r, ManagedMarker)
  {
    var op := TakeUntilCall(subj);
    var r := if Contains(obs, PipeOpen) then AppendOperator(obs, op) else obs + PipeOpen + op + ")";
    ContainsSelf(obs + PipeOpen, op, ")");
    ManagedInOperator(r, subj);
    r
  }

  /** Whatever contains the operator text contains the managed marker. */
  lemma ManagedInOperator(s: string, subj: string)
    requires Contains(s, TakeUntilCall(subj))
    ensures Contains(s, ManagedMarker)
  {
    var op := TakeUntilCall(subj);
    var i :| 0 <= i <= |s| - |op| && OccursAt(s, op, i);
    assert s[i..i + |ManagedMarker|] == s[i..i + |op|][..|ManagedMarker|];
    assert OccursAt(s, ManagedMarker, i);
  }

  /** A `.pipe(` followed by text free of `.pipe(` is the last one: no later
      occurrence can start inside it, since only its first character is a dot. */
  lemma LastPipeIsHere(pre: string, rest: string)
    requires !Contains(rest, PipeOpen)
    ensures LastIndexOf(pre + PipeOpen + rest, PipeOpen) == |pre|
  {
    var s := pre + PipeOpen + rest;
    assert OccursAt(s, PipeOpen, |pre|);
    forall j | j > |pre|
      ensures !OccursAt(s, PipeOpen, j)
    {
      if j < |pre| + |PipeOpen| {
        assert s[j] == PipeOpen[j - |pre|];
        assert s[j] != '.';
        if j + |PipeOpen| <= |s| {
          assert s[j..j + |PipeOpen|][0] == s[j];
        }
      } else if j + |PipeOpen| <= |s| {
        var k := j - |pre| - |PipeOpen|;
        assert rest[k..k + |PipeOpen|] == s[j..j + |PipeOpen|];
        assert !OccursAt(rest, PipeOpen, k);
      }
    }
  }

  /** A balanced argument list followed by `)` is closed by that `)`. */
  lemma CloseParenAfterBalanced(pre: string, args: string, post: string)
    requires Balanced(args)
    ensures CloseParen(pre + args + ")" + post, |pre|) == |pre| + |args|
  {
    var str := pre + args + ")" + post;
    BalancedCloses(pre, args, post);
    FirstCloseUnique(str, |pre|, CloseParen(str, |pre|), |pre| + |args|);
  }

  /** Where the scan of `appendOperator` lands on a receiver `pre.pipe(args)post`. */
  lemma SpliceLocation(pre: string, args: string, post: string)
    requires Balanced(args)
    requires !Contains(args + ")" + post, PipeOpen)
    ensures var obs := pre + PipeOpen + args + ")" + post;
      && LastIndexOf(obs, PipeOpen) == |pre|
      && CloseParen(obs, |pre| + |PipeOpen|) == |pre| + |PipeOpen| + |args|
  {
    var obs := pre + PipeOpen + args + ")" + post;
    assert obs == pre + PipeOpen + (args + ")" + post);
    LastPipeIsHere(pre, args + ")" + post);
    assert obs == (pre + PipeOpen) + args + ")" + post;
    CloseParenAfterBalanced(pre + PipeOpen, args, post);
  }

  /** `appendOperator` once the argument list of the last `.pipe(` is known to start
      at `start` and the scan to stop at `close`: the splice on exactly those pieces. */
  lemma AppendOperatorAt(obs: string, op: string, start: nat, close: nat)
    requires LastIndexOf(obs, PipeOpen) >= 0 && LastIndexOf(obs, PipeOpen) + |PipeOpen| == start
    requires CloseParen(obs, start) == close && start <= close <= |obs|
    ensures var content := Trim(obs[start..close]);
      AppendOperator(obs, op)
      == obs[..start] + content + (if content == [] then "" else ", ") + op + obs[close..]
  {
    SpliceOperatorUnfold(obs, start, close, op);
  }

  lemma SpliceOperatorUnfold(obs: string, start: nat, close: nat, op: string)
    requires start <= close <= |obs|
    ensures var content := Trim(obs[start..close]);
      SpliceOperator(obs, start, close, op)
      == obs[..start] + content + (if content == [] then "" else ", ") + op + obs[close..]
  {
  }

  /** The scan of `appendOperator` on a receiver whose last `.pipe(` ends at `start`
      and whose argument list `obs[start..close]` is balanced and closed by `)`. */
  lemma PipeSiteAt(obs: string, start: nat, close: nat)
    requires |PipeOpen| <= start <= close < |obs|
    requires OccursAt(obs, PipeOpen, start - |PipeOpen|) && obs[close] == ')'
    requires Balanced(obs[start..close])
    requires !Contains(obs[start..], PipeOpen)
    ensures LastIndexOf(obs, PipeOpen) + |PipeOpen| == start
    ensures CloseParen(obs, start) == close
  {
    var pre, args, post := obs[..start - |PipeOpen|], obs[start..close], obs[close + 1..];
    assert obs == pre + PipeOpen + args + ")" + post;
    assert obs[start..] == args + ")" + post;
    SpliceLocation(pre, args, post);
  }

  /** The splice on a receiver `pre.pipe(args)post`, with `args` = `obs[start..close]`:
      the prefix through `.pipe(` and the suffix from the closing `)` are kept, the
      arguments are kept up to surrounding white space, and `op` is added after them,
      separated by `", "` exactly when there were arguments. Nested parentheses inside
      the arguments do not move the closing point, and neither does a `.pipe(` before
      the last one. */
  lemma AppendOperatorSplice(obs: string, op: string, start: nat, close: nat)
    requires |PipeOpen| <= start <= close < |obs|
    requires OccursAt(obs, PipeOpen, start - |PipeOpen|) && obs[close] == ')'
    requires Balanced(obs[start..close])
    requires !Contains(obs[start..], PipeOpen)
    ensures var content := Trim(obs[start..close]);
      AppendOperator(obs, op)
      == obs[..start] + content + (if content == [] then "" else ", ") + op + obs[close..]
  {
    PipeSiteAt(obs, start, close);
    AppendOperatorAt(obs, op, start, close);
  }

  /** The same splice stated on the pieces of a receiver `pre.pipe(args)post`. */
  lemma AppendOperatorOnPieces(pre: string, args: string, post: string, op: string)
    requires Balanced(args)
    requires !Contains(args + ")" + post, PipeOpen)
    ensures var content := Trim(args);
      AppendOperator(pre + PipeOpen + args + ")" + post, op)
      == pre + PipeOpen + content + (if content == [] then "" else ", ") + op + ")" + post
  {
    var obs := pre + PipeOpen + args + ")" + post;
    var start := |pre| + |PipeOpen|;
    var close := start + |args|;
    assert obs[..start] == pre + PipeOpen;
    assert obs[start..close] == args;
    assert obs[close..] == ")" + post;
    assert obs[start..] == args + ")" + post;
    assert OccursAt(obs, PipeOpen, |pre|);
    AppendOperatorSplice(obs, op, start, close);
  }

  /** For an argument list as the printer joins it, `op` becomes one more trailing
      argument. */
  lemma AppendOperatorAddsLastArgument(pre: string, args: seq<string>, post: string, op: string)
    requires Balanced(Join(args, ", "))
    requires Trim(Join(args, ", ")) == Join(args, ", ")
    requires forall k :: 0 <= k < |args| ==> args[k] != []
    requires !Contains(Join(args, ", ") + ")" + post, PipeOpen)
    ensures AppendOperator(pre + PipeOpen + Join(args, ", ") + ")" + post, op)
      == pre + PipeOpen + Join(args + [op], ", ") + ")" + post
  {
    var j := Join(args, ", ");
    var sep: string := if j == [] then "" else ", ";
    AppendOperatorOnPieces(pre, j, post, op);
    JoinAppend(args, op, ", ");
    ConcatRegroup(pre + PipeOpen, j, sep, op);
  }

  lemma ConcatRegroup(x: string, a: string, b: string, c: string)
    ensures x + a + b + c == x + (a + b + c)
  {
  }
}
