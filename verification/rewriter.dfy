/** `patchSubscribeCalls` and `addTakeUntilToObservableAST` of
    src/add-takeuntil/index.ts: give every `.subscribe` call whose receiver does not
    already mention `takeUntil(` the operator `takeUntil(this.<subj>)`, through the
    syntax tree when that works and through the text splice otherwise. Whether a
    tree edit throws is not decided by the model: a fault oracle says so per call. */
module Rewriter {
  import opened Base
  import opened Text
  import opened Splice
  import opened Syntax
  import opened Imports

  /** What goes wrong at a site: nothing, the tree edit throws (the text splice is
      used instead), or the text splice's replacement throws too. */
  datatype Fault = NoFault | TreeEditFails | FallbackFails

  /** A call whose receiver already mentions `takeUntil(`. */
  predicate Managed(c: Call) {
    c.MethodCall? && Contains(ExprText(c.receiver), ManagedMarker)
  }

  /** A `.subscribe` call that gets the operator under the given fault. */
  predicate Rewrites(c: Call, f: Fault) {
    IsSubscribe(c) && !Managed(c) && f != FallbackFails
  }

  /** Every `.subscribe` call among `calls` is managed. */
  predicate AllManaged(calls: seq<Call>) {
    forall c :: c in calls && IsSubscribe(c) ==> Managed(c)
  }

  /** Pipe calls that end in the operator text are managed. */
  lemma PipeEndingInOperator(source: string, args: seq<string>, subj: string)
    requires args != [] && args[|args| - 1] == TakeUntilCall(subj)
    ensures Contains(ExprText(PipeCall(source, args)), ManagedMarker)
  {
    JoinHasPart(args, ", ", |args| - 1);
    ContainsInMiddle(source + PipeOpen, Join(args, ", "), ")", TakeUntilCall(subj));
    ManagedInOperator(ExprText(PipeCall(source, args)), subj);
  }

  /** The tree path: a pipe call gets the operator as one more argument; any other
      receiver becomes the source of a new pipe call holding just the operator. */
  function TreeEdit(e: Expr, subj: string): (r: Expr)
    ensures r.PipeCall? && r.args != [] && r.args[|r.args| - 1] == TakeUntilCall(subj)
    ensures e.PipeCall? ==> r.source == e.source && r.args[..|r.args| - 1] == e.args
    ensures e.Other? ==> r.source == e.text && |r.args| == 1
    ensures Contains(ExprText(r), ManagedMarker)
  {
    var r := match e
      case PipeCall(source, args) => PipeCall(source, args + [TakeUntilCall(subj)])
      case Other(text) => PipeCall(text, [TakeUntilCall(subj)]);
    assert r.args[..|r.args| - 1] == if e.PipeCall? then e.args else [];
    PipeEndingInOperator(r.source, r.args, subj);
    r
  }

  /** The text path: the receiver's text with the operator spliced in. */
  function Fallback(e: Expr, subj: string): (r: Expr)
    ensures r.Other? && Contains(r.text, TakeUntilCall(subj))
    ensures Contains(ExprText(r), ManagedMarker)
    ensures !Contains(ExprText(e), PipeOpen) ==> ExprText(r) == ExprText(e) + PipeOpen + TakeUntilCall(subj) + ")"
  {
    Other(WrapWithTakeUntil(ExprText(e), subj))
  }

  /** Where both paths apply cleanly they print the same text: a pipe call whose
      arguments are balanced, free of `.pipe(` and printed without surrounding
      blanks, or a receiver that has no `.pipe(` at all. */
  lemma TreeEditAgreesWithFallback(e: Expr, subj: string)
    requires e.PipeCall? ==>
      && Balanced(Join(e.args, ", "))
      && Trim(Join(e.args, ", ")) == Join(e.args, ", ")
      && (forall k :: 0 <= k < |e.args| ==> e.args[k] != [])
      && !Contains(Join(e.args, ", ") + ")", PipeOpen)
    requires e.Other? ==> !Contains(e.text, PipeOpen)
    ensures ExprText(TreeEdit(e, subj)) == ExprText(Fallback(e, subj))
  {
    var op := TakeUntilCall(subj);
    match e
    case PipeCall(source, args) =>
      assert Join(args, ", ") + ")" + "" == Join(args, ", ") + ")";
      AppendOperatorAddsLastArgument(source, args, "", op);
      assert ExprText(e) == source + PipeOpen + Join(args, ", ") + ")" + "";
      assert ExprText(TreeEdit(e, subj)) == source + PipeOpen + Join(args + [op], ", ") + ")" + "";
    case Other(text) =>
      assert Join([op], ", ") == op;
  }

  /** The paths part ways on a pipe call nested in the last argument, as in
      `a.pipe(s(b.pipe(m)))`: the tree edit adds the operator to the outer call,
      giving `a.pipe(s(b.pipe(m)), OP)`, while the text splice finds the last
      `.pipe(`, the inner one, giving `a.pipe(s(b.pipe(m, OP)))`. */
  lemma NestedPipeDisagreement(source: string, f: string, m: string, g: string, subj: string)
    requires Balanced(m) && Trim(m) == m && m != []
    requires !Contains(m + ")" + g + ")", PipeOpen)
    ensures var e := PipeCall(source, [f + PipeOpen + m + ")" + g]);
      var op := TakeUntilCall(subj);
      && ExprText(TreeEdit(e, subj)) == source + PipeOpen + (f + PipeOpen + m + ")" + g + ", " + op) + ")"
      && ExprText(Fallback(e, subj)) == (source + PipeOpen + f) + PipeOpen + m + ", " + op + ")" + (g + ")")
      && ExprText(TreeEdit(e, subj)) != ExprText(Fallback(e, subj))
  {
    var arg := f + PipeOpen + m + ")" + g;
    var e := PipeCall(source, [arg]);
    var op := TakeUntilCall(subj);
    var pre := source + PipeOpen + f;
    assert Join([arg], ", ") == arg;
    assert ExprText(e) == pre + PipeOpen + m + ")" + (g + ")");
    assert m + ")" + (g + ")") == m + ")" + g + ")";
    AppendOperatorOnPieces(pre, m, g + ")", op);
    assert TreeEdit(e, subj) == PipeCall(source, [arg] + [op]);
    JoinSnoc([arg], op, ", ");
    var tree := ExprText(TreeEdit(e, subj));
    var text := ExprText(Fallback(e, subj));
    var k := |pre| + |PipeOpen| + |m|;
    assert tree[k] == arg[k - |source| - |PipeOpen|] == ')';
    assert text[k] == ',';
  }

  /** They part ways too on a receiver whose last `.pipe(` call is followed by more
      text, as in `this.a.pipe(map(f)).filter(g)`: the tree edit wraps the whole
      receiver in a new pipe call, giving `this.a.pipe(map(f)).filter(g).pipe(OP)`,
      while the text splice joins the earlier call, giving
      `this.a.pipe(map(f), OP).filter(g)`. */
  lemma EarlierPipeDisagreement(pre: string, args: string, post: string, subj: string)
    requires Balanced(args) && Trim(args) == args && args != [] && post != []
    requires !Contains(args + ")" + post, PipeOpen)
    ensures var text := pre + PipeOpen + args + ")" + post;
      var op := TakeUntilCall(subj);
      && ExprText(TreeEdit(Other(text), subj)) == text + PipeOpen + op + ")"
      && ExprText(Fallback(Other(text), subj)) == pre + PipeOpen + args + ", " + op + ")" + post
      && ExprText(TreeEdit(Other(text), subj)) != ExprText(Fallback(Other(text), subj))
  {
    var text := pre + PipeOpen + args + ")" + post;
    var op := TakeUntilCall(subj);
    assert Join([op], ", ") == op;
    AppendOperatorOnPieces(pre, args, post, op);
    var tree := ExprText(TreeEdit(Other(text), subj));
    var spliced := ExprText(Fallback(Other(text), subj));
    var k := |pre| + |PipeOpen| + |args|;
    assert tree[k] == text[k] == ')';
    assert spliced[k] == ',';
  }

  /** The call a rewrite adds to the class: `takeUntil(this.<subj>)`. */
  function OperatorCall(subj: string): Call {
    FunctionCall("takeUntil", [PropertyAccess("this", subj)])
  }

  /** What one call becomes: a call that is not rewritten stays as it is; a
      rewritten `.subscribe` call gets a managed receiver and is followed by the
      operator call it now contains. */
  function PatchCall(c: Call, f: Fault, subj: string): (r: seq<Call>)
    ensures !Rewrites(c, f) ==> r == [c]
    ensures Rewrites(c, f) ==>
      && |r| == 2 && r[1] == OperatorCall(subj)
      && IsSubscribe(r[0]) && Managed(r[0])
      && r[0] == c.(receiver := r[0].receiver)
      && (f == NoFault ==> r[0].receiver == TreeEdit(c.receiver, subj))
      && (f == TreeEditFails ==>
            ExprText(r[0].receiver) == WrapWithTakeUntil(ExprText(c.receiver), subj))
  {
    if !Rewrites(c, f) then [c]
    else
      var recv := if f == NoFault then TreeEdit(c.receiver, subj) else Fallback(c.receiver, subj);
      [c.(receiver := recv), OperatorCall(subj)]
  }

  /** The import the operator needs. */
  const OperatorName: string := "takeUntil"
  const OperatorModule: string := "rxjs/operators"

  datatype PatchState = PatchState(calls: seq<Call>, imports: seq<ImportDecl>, changed: bool)

  /** The loop over the sites in document order, importing the operator after each
      successful rewrite. */
  function PatchSites(calls: seq<Call>, imports: seq<ImportDecl>, fault: Call -> Fault, subj: string)
    : (r: PatchState)
    ensures r.changed <==> exists c :: c in calls && Rewrites(c, fault(c))
    ensures r.changed ==> |r.calls| > |calls|
    ensures !r.changed ==> r.calls == calls
    ensures r.imports == if r.changed then AddImport(imports, OperatorName, OperatorModule) else imports
    decreases |calls|
  {
    if calls == [] then PatchState([], imports, false)
    else
      var c := calls[0];
      var f := fault(c);
      var head := PatchCall(c, f, subj);
      var imports1 := if Rewrites(c, f) then AddImport(imports, OperatorName, OperatorModule) else imports;
      var rest := PatchSites(calls[1..], imports1, fault, subj);
      AddImportIdempotent(imports, OperatorName, OperatorModule);
      FirstAndRest(calls);
      PatchState(head + rest.calls, rest.imports, Rewrites(c, f) || rest.changed)
  }

  /** A call of a non-empty run is its first call or a call of the rest. */
  lemma FirstAndRest(calls: seq<Call>)
    requires calls != []
    ensures forall d :: d in calls <==> d == calls[0] || d in calls[1..]
  {
    assert calls == [calls[0]] + calls[1..];
  }

  /** The call list the loop produces, apart from the imports. */
  function PatchCalls(calls: seq<Call>, fault: Call -> Fault, subj: string): seq<Call>
    decreases |calls|
  {
    if calls == [] then []
    else PatchCall(calls[0], fault(calls[0]), subj) + PatchCalls(calls[1..], fault, subj)
  }

  /** A run in which no site is rewritten comes through unchanged. */
  lemma {:induction false} PatchCallsUntouched(calls: seq<Call>, fault: Call -> Fault, subj: string)
    ensures (forall c :: c in calls ==> !Rewrites(c, fault(c))) ==> PatchCalls(calls, fault, subj) == calls
    decreases |calls|
  {
    if calls != [] {
      PatchCallsUntouched(calls[1..], fault, subj);
      if forall c :: c in calls ==> !Rewrites(c, fault(c)) {
        assert calls[0] in calls;
        assert calls == [calls[0]] + calls[1..];
      }
    }
  }

  /** The calls after the loop do not depend on the imports it threads. */
  lemma {:induction false} PatchSitesCalls(calls: seq<Call>, imports: seq<ImportDecl>,
                                           fault: Call -> Fault, subj: string)
    ensures PatchSites(calls, imports, fault, subj).calls == PatchCalls(calls, fault, subj)
    decreases |calls|
  {
    if calls != [] {
      var c := calls[0];
      var imports1 := if Rewrites(c, fault(c)) then AddImport(imports, OperatorName, OperatorModule) else imports;
      PatchSitesCalls(calls[1..], imports1, fault, subj);
    }
  }

  /** Sites are patched one by one: the calls for a run of sites are those for its
      first part followed by those for the rest. */
  lemma {:induction false} PatchCallsSplit(a: seq<Call>, b: seq<Call>, fault: Call -> Fault, subj: string)
    ensures PatchCalls(a + b, fault, subj) == PatchCalls(a, fault, subj) + PatchCalls(b, fault, subj)
    decreases |a|
  {
    if a == [] {
      assert a + b == b;
    } else {
      var head := PatchCall(a[0], fault(a[0]), subj);
      assert (a + b)[0] == a[0];
      assert (a + b)[1..] == a[1..] + b;
      PatchCallsSplit(a[1..], b, fault, subj);
      CallsRegroup(head, PatchCalls(a[1..], fault, subj), PatchCalls(b, fault, subj));
    }
  }

  lemma CallsRegroup(x: seq<Call>, y: seq<Call>, z: seq<Call>)
    ensures x + (y + z) == (x + y) + z
  {
  }

  /** A `.subscribe` call left without the operator after patching is one of the
      original calls, at which both edits threw. */
  lemma {:induction false} PatchCallsUnmanaged(calls: seq<Call>, fault: Call -> Fault, subj: string)
    ensures forall c :: c in PatchCalls(calls, fault, subj) && IsSubscribe(c) && !Managed(c) ==>
      c in calls && fault(c) == FallbackFails
    decreases |calls|
  {
    if calls != [] {
      PatchCallsUnmanaged(calls[1..], fault, subj);
      var head := PatchCall(calls[0], fault(calls[0]), subj);
      forall c | c in PatchCalls(calls, fault, subj) && IsSubscribe(c) && !Managed(c)
        ensures c in calls && fault(c) == FallbackFails
      {
        if c in head {
          assert c == calls[0];
        } else {
          assert c in PatchCalls(calls[1..], fault, subj);
        }
      }
    }
  }

  /** At no unmanaged `.subscribe` call of the class do both edits throw. */
  predicate NoDoubleFault(cls: Class, fault: Call -> Fault) {
    forall c :: c in cls.calls && IsSubscribe(c) && !Managed(c) ==> fault(c) != FallbackFails
  }

  /** The class and imports after `patchSubscribeCalls`, and its result. */
  datatype Patched = Patched(cls: Class, imports: seq<ImportDecl>, changed: bool)

  /** `patchSubscribeCalls`. A site whose receiver mentions `takeUntil(` is left
      alone; every other `.subscribe` call is rewritten unless both edits throw. */
  function Patch(imports: seq<ImportDecl>, cls: Class, subj: string, fault: Call -> Fault): (r: Patched)
    ensures r.cls == cls.(calls := r.cls.calls)
    ensures r.changed <==> exists c :: c in cls.calls && Rewrites(c, fault(c))
    ensures r.changed <==> r.cls != cls
    ensures r.imports == if r.changed then AddImport(imports, OperatorName, OperatorModule) else imports
    ensures NoDoubleFault(cls, fault) ==> AllManaged(r.cls.calls)
  {
    var s := PatchSites(cls.calls, imports, fault, subj);
    PatchSitesCalls(cls.calls, imports, fault, subj);
    PatchCallsUnmanaged(cls.calls, fault, subj);
    Patched(cls.(calls := s.calls), s.imports, s.changed)
  }

  /** Patching a class replaces its calls by the patched call list and nothing else. */
  lemma PatchIsPatchCalls(imports: seq<ImportDecl>, cls: Class, subj: string, fault: Call -> Fault)
    ensures Patch(imports, cls, subj, fault).cls == cls.(calls := PatchCalls(cls.calls, fault, subj))
  {
    PatchSitesCalls(cls.calls, imports, fault, subj);
  }

  /** Once every site is managed, patching again changes nothing, whatever fails. */
  lemma PatchManagedIsNoOp(imports: seq<ImportDecl>, cls: Class, subj: string, fault: Call -> Fault)
    requires AllManaged(cls.calls)
    ensures Patch(imports, cls, subj, fault) == Patched(cls, imports, false)
  {
  }

  /** A second pass over a patched class changes nothing, unless both edits failed
      at some unmanaged site the first time. */
  lemma PatchTwice(imports: seq<ImportDecl>, cls: Class, subj: string, fault: Call -> Fault, fault2: Call -> Fault)
    requires NoDoubleFault(cls, fault)
    ensures var once := Patch(imports, cls, subj, fault);
      Patch(once.imports, once.cls, subj, fault2) == Patched(once.cls, once.imports, false)
  {
    var once := Patch(imports, cls, subj, fault);
    PatchManagedIsNoOp(once.imports, once.cls, subj, fault2);
  }

  /** `this.data$.subscribe()` becomes `this.data$.pipe(takeUntil(this.destroy$)).subscribe()`. */
  lemma TreeWrapExample()
    ensures ExprText(TreeEdit(Other("this.data$"), "destroy$"))
      == "this.data$" + ".pipe(" + "takeUntil(this.destroy$)" + ")"
  {
    var op := TakeUntilCall("destroy$");
    assert op == "takeUntil(this.destroy$)";
    assert TreeEdit(Other("this.data$"), "destroy$") == PipeCall("this.data$", [op]);
    assert Join([op], ", ") == op;
  }

  /** `this.a.pipe(map(f)).subscribe()` gets the operator as a second argument. */
  lemma TreeAppendExample()
    ensures ExprText(TreeEdit(PipeCall("this.a", ["map(f)"]), "destroy$"))
      == "this.a" + ".pipe(" + "map(f)" + ", " + "takeUntil(this.destroy$)" + ")"
  {
    var op := TakeUntilCall("destroy$");
    assert op == "takeUntil(this.destroy$)";
    assert TreeEdit(PipeCall("this.a", ["map(f)"]), "destroy$") == PipeCall("this.a", ["map(f)", op]);
    assert Join(["map(f)", op], ", ") == "map(f)" + ", " + op;
  }
}
