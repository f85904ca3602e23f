/** Choosing the teardown signal of a class (src/add-takeuntil/index.ts,
    `detectExistingTakeUntilSubjects`, `locateExistingDestroySubject`,
    `ensureDestroySubject`): reuse a subject the class already relies on, in three
    tiers of decreasing trust, or synthesize `destroy$` when the class subscribes
    to something and none is found. */
module Resolver {
  import opened Base
  import opened Text
  import opened Naming
  import opened Syntax
  import opened Imports

  /* ---------------------------------------------------------------------- */
  /*                  Tier 1: subjects already given to takeUntil             */
  /* ---------------------------------------------------------------------- */

  /** The subject a call hands to the operator: for `takeUntil(<x>.<name>, …)` with
      a destroy-like `<name>`, that name. */
  function UntilArg(c: Call): (r: Option<string>)
    ensures r.Some? ==> IsDestroySubjectName(r.value)
  {
    if c.FunctionCall? && c.callee == "takeUntil" && |c.args| > 0
       && c.args[0].PropertyAccess? && IsDestroySubjectName(c.args[0].name)
    then Some(c.args[0].name)
    else None
  }

  /** The names the calls hand to `takeUntil`, in document order, repeats kept. */
  function Candidates(calls: seq<Call>): seq<string>
  {
    if calls == [] then []
    else
      match UntilArg(calls[0])
      case Some(n) => [n] + Candidates(calls[1..])
      case None => Candidates(calls[1..])
  }

  /** The candidates are exactly the names the calls hand over. */
  lemma {:induction false} CandidatesMembers(calls: seq<Call>)
    ensures forall n :: n in Candidates(calls) <==> exists i :: 0 <= i < |calls| && UntilArg(calls[i]) == Some(n)
    ensures Candidates(calls) != [] <==> exists i :: 0 <= i < |calls| && UntilArg(calls[i]).Some?
  {
    if calls != [] {
      CandidatesMembers(calls[1..]);
      assert forall i :: 0 < i < |calls| ==> calls[i] == calls[1..][i - 1];
      if UntilArg(calls[0]).Some? {
        assert Candidates(calls)[0] == UntilArg(calls[0]).value;
      }
    }
  }

  /** The first candidate comes from the earliest call that hands one over. */
  lemma {:induction false} CandidatesFirst(calls: seq<Call>, i: nat)
    requires i < |calls| && UntilArg(calls[i]).Some?
    requires forall j :: 0 <= j < i ==> UntilArg(calls[j]).None?
    ensures Candidates(calls) != [] && Candidates(calls)[0] == UntilArg(calls[i]).value
  {
    if i == 0 {
      assert Candidates(calls) == [UntilArg(calls[0]).value] + Candidates(calls[1..]);
    } else {
      assert UntilArg(calls[0]).None?;
      assert Candidates(calls) == Candidates(calls[1..]);
      var tail := calls[1..];
      assert tail[i - 1] == calls[i];
      assert forall j :: 0 <= j < i - 1 ==> tail[j] == calls[j + 1];
      CandidatesFirst(tail, i - 1);
    }
  }

  /** Candidates are collected call by call, in order. */
  lemma {:induction false} CandidatesConcat(a: seq<Call>, b: seq<Call>)
    ensures Candidates(a + b) == Candidates(a) + Candidates(b)
  {
    if a == [] {
      assert a + b == b;
    } else {
      assert (a + b)[0] == a[0];
      assert (a + b)[1..] == a[1..] + b;
      CandidatesConcat(a[1..], b);
    }
  }

  /** `[...new Set(xs)]`: each value once, at the place of its first occurrence. */
  function Dedup(xs: seq<string>): (r: seq<string>)
    ensures forall x :: x in r <==> x in xs
    ensures forall i, j :: 0 <= i < j < |r| ==> r[i] != r[j]
    ensures xs != [] ==> r != [] && r[0] == xs[0]
  {
    if xs == [] then []
    else
      var init := Dedup(xs[..|xs| - 1]);
      assert xs == xs[..|xs| - 1] + [xs[|xs| - 1]];
      if xs[|xs| - 1] in init then init else init + [xs[|xs| - 1]]
  }

  /** Values that are already distinct come through in place. */
  lemma {:induction false} DedupOfDistinct(xs: seq<string>)
    requires forall i, j :: 0 <= i < j < |xs| ==> xs[i] != xs[j]
    ensures Dedup(xs) == xs
  {
    if xs != [] {
      var init := xs[..|xs| - 1];
      DedupOfDistinct(init);
      assert xs[|xs| - 1] !in init;
      assert init + [xs[|xs| - 1]] == xs;
    }
  }

  /** `detectExistingTakeUntilSubjects`. */
  function UntilSubjects(cls: Class): (r: seq<string>)
    ensures forall n :: n in r ==> IsDestroySubjectName(n)
    ensures forall i, j :: 0 <= i < j < |r| ==> r[i] != r[j]
    ensures forall n :: n in r <==> exists i :: 0 <= i < |cls.calls| && UntilArg(cls.calls[i]) == Some(n)
  {
    CandidatesMembers(cls.calls);
    Dedup(Candidates(cls.calls))
  }

  /* ---------------------------------------------------------------------- */
  /*                 Tier 2: properties that look like the signal             */
  /* ---------------------------------------------------------------------- */

  /** A property holding a Subject under a destroy-like name. */
  predicate IsDestroyProperty(p: Property) {
    IsSubjectProperty(p.typeText, p.initText) && IsDestroySubjectName(p.name)
  }

  /** The first destroy-like property at or after `k`. */
  function FirstDestroyProperty(props: seq<Property>, k: nat): (r: Option<nat>)
    ensures r.Some? ==> k <= r.value < |props| && IsDestroyProperty(props[r.value])
    ensures r.Some? ==> forall j :: k <= j < r.value ==> !IsDestroyProperty(props[j])
    ensures r.None? ==> forall j :: k <= j < |props| ==> !IsDestroyProperty(props[j])
    decreases |props| - k
  {
    if k >= |props| then None
    else if IsDestroyProperty(props[k]) then Some(k)
    else FirstDestroyProperty(props, k + 1)
  }

  /* ---------------------------------------------------------------------- */
  /*                  Tier 3: subjects finished in ngOnDestroy                */
  /* ---------------------------------------------------------------------- */

  /** The exec loop over the hook's body text; it finds the first destroy-like
      capture in position order. */
  function TeardownSubject(hook: Option<seq<string>>): (r: Option<string>)
    ensures hook.None? ==> r.None?
    ensures hook.Some? ==> r == FirstDestroyMention(BodyText(hook.value), 0)
    ensures r.Some? ==> IsDestroySubjectName(r.value)
  {
    match hook
    case None => None
    case Some(stmts) =>
      ExecScanFindsFirst(BodyText(stmts), 0);
      ExecScan(BodyText(stmts), 0)
  }

  /* ---------------------------------------------------------------------- */
  /*                               The resolver                               */
  /* ---------------------------------------------------------------------- */

  /** Which tier found the subject. */
  datatype Origin = FromOperator | FromProperty | FromTeardown

  datatype Found = Found(name: string, origin: Origin)

  /** `locateExistingDestroySubject`: the tiers in order, the first that yields a
      name wins. */
  function Locate(cls: Class): (r: Option<Found>)
    ensures r.Some? ==> IsDestroySubjectName(r.value.name)
    ensures (exists i :: 0 <= i < |cls.calls| && UntilArg(cls.calls[i]).Some?)
      <==> r.Some? && r.value.origin == FromOperator
    ensures r.Some? && r.value.origin == FromOperator ==>
      exists i :: 0 <= i < |cls.calls| && UntilArg(cls.calls[i]) == Some(r.value.name)
        && forall j :: 0 <= j < i ==> UntilArg(cls.calls[j]).None?
    ensures r.Some? && r.value.origin == FromProperty ==>
      exists i :: 0 <= i < |cls.props| && cls.props[i].name == r.value.name && IsDestroyProperty(cls.props[i])
        && forall j :: 0 <= j < i ==> !IsDestroyProperty(cls.props[j])
    ensures (r.Some? && r.value.origin == FromTeardown) || r.None? ==>
      (forall j :: 0 <= j < |cls.props| ==> !IsDestroyProperty(cls.props[j]))
    ensures r.Some? && r.value.origin == FromTeardown ==>
      cls.hook.Some? && FirstDestroyMention(BodyText(cls.hook.value), 0) == Some(r.value.name)
    ensures r.None? ==>
      cls.hook.None? || FirstDestroyMention(BodyText(cls.hook.value), 0).None?
  {
    var subjects := UntilSubjects(cls);
    if subjects != [] then
      FirstCandidateCall(cls.calls);
      Some(Found(subjects[0], FromOperator))
    else match FirstDestroyProperty(cls.props, 0)
      case Some(i) => Some(Found(cls.props[i].name, FromProperty))
      case None =>
        match TeardownSubject(cls.hook)
        case Some(n) => Some(Found(n, FromTeardown))
        case None => None
  }

  /** A subject handed to the operator anywhere in the class wins, and the first
      such subject is the one found. */
  lemma LocateFirstCandidate(cls: Class)
    ensures Candidates(cls.calls) != [] ==> Locate(cls) == Some(Found(Candidates(cls.calls)[0], FromOperator))
    ensures Candidates(cls.calls) == [] ==> UntilSubjects(cls) == []
  {
  }

  /** The earliest call handing over a subject supplies the first candidate. */
  lemma FirstCandidateCall(calls: seq<Call>)
    requires Candidates(calls) != []
    ensures exists i :: 0 <= i < |calls| && UntilArg(calls[i]) == Some(Candidates(calls)[0])
                        && forall j :: 0 <= j < i ==> UntilArg(calls[j]).None?
  {
    var i :| 0 <= i < |calls| && UntilArg(calls[i]).Some?;
    var first := FirstUntil(calls, 0, i);
    CandidatesFirst(calls, first);
  }

  /** Some call hands over a subject, so there is an earliest one. */
  lemma {:induction false} FirstUntil(calls: seq<Call>, k: nat, i: nat) returns (first: nat)
    requires k <= i < |calls| && UntilArg(calls[i]).Some?
    requires forall j :: 0 <= j < k ==> UntilArg(calls[j]).None?
    ensures first < |calls| && UntilArg(calls[first]).Some?
    ensures forall j :: 0 <= j < first ==> UntilArg(calls[j]).None?
    decreases i - k
  {
    if UntilArg(calls[k]).Some? {
      first := k;
    } else {
      first := FirstUntil(calls, k + 1, i);
    }
  }

  /* ---------------------------------------------------------------------- */
  /*                        Ensuring a subject exists                         */
  /* ---------------------------------------------------------------------- */

  /** The name and shape of the subject the rewriter creates. */
  const DestroyName: string := "destroy$"
  const DestroyProperty: Property := Property(DestroyName, "Subject<void>", "new Subject<void>()", true)

  /** The synthesized property is one the second tier recognizes. */
  lemma DestroyPropertyQualifies()
    ensures IsDestroyProperty(DestroyProperty)
  {
    SynthesizedIsSubject();
    DestroyNameDollar("destroy");
    assert "destroy" + "$" == DestroyName;
  }

  /** What `ensureDestroySubject` leaves behind: the chosen name, if any, and the
      class and imports after it. */
  datatype Ensured = Ensured(subject: Option<string>, cls: Class, imports: seq<ImportDecl>)

  /** `ensureDestroySubject`: nothing for a class without `.subscribe` calls;
      otherwise the located subject, or a new `private destroy$: Subject<void>`
      inserted as the first property together with an import of `Subject`. */
  function Ensure(imports: seq<ImportDecl>, cls: Class): (r: Ensured)
    ensures r.subject.None? <==> !HasSubscribeCalls(cls)
    ensures r.subject.Some? ==> IsDestroySubjectName(r.subject.value)
    ensures r.subject.Some? && Locate(cls).Some? ==> r.subject.value == Locate(cls).value.name
    ensures r.subject.None? || Locate(cls).Some? ==> r.cls == cls && r.imports == imports
    ensures r.subject.Some? && Locate(cls).None? ==>
      && r.subject.value == DestroyName
      && r.cls == cls.(props := [DestroyProperty] + cls.props)
      && r.imports == AddImport(imports, "Subject", "rxjs")
  {
    if !HasSubscribeCalls(cls) then Ensured(None, cls, imports)
    else match Locate(cls)
      case Some(found) => Ensured(Some(found.name), cls, imports)
      case None =>
        DestroyPropertyQualifies();
        Ensured(Some(DestroyName), cls.(props := [DestroyProperty] + cls.props),
                AddImport(imports, "Subject", "rxjs"))
  }

  /** Once a subject is ensured, ensuring again reuses it and changes nothing. */
  lemma EnsureIdempotent(imports: seq<ImportDecl>, cls: Class)
    ensures var once := Ensure(imports, cls);
      Ensure(once.imports, once.cls) == once
  {
    var once := Ensure(imports, cls);
    if once.subject.Some? && Locate(cls).None? {
      var c := once.cls;
      DestroyPropertyQualifies();
      assert c.props[0] == DestroyProperty;
      assert c.calls == cls.calls;
      assert Locate(c).Some?;
    }
  }

  /* ---------------------------------------------------------------------- */
  /*                                 Examples                                 */
  /* ---------------------------------------------------------------------- */

  /** A class holding `private teardown$: Subject<void> = new Subject<void>()` with
      no operator in place reuses it. */
  lemma ReusesTeardownProperty(cls: Class)
    requires forall i :: 0 <= i < |cls.calls| ==> UntilArg(cls.calls[i]).None?
    ensures Locate(cls.(props := [Property("teardown$", "Subject<void>", "new Subject<void>()", true)]))
      == Some(Found("teardown$", FromProperty))
  {
    var c := cls.(props := [Property("teardown$", "Subject<void>", "new Subject<void>()", true)]);
    SynthesizedIsSubject();
    DestroyNameDollar("teardown");
    assert "teardown" + "$" == "teardown$";
    assert IsDestroyProperty(c.props[0]);
  }

  /** A class whose only clue is its hook `this.signal.next(); this.signal.complete();`
      reuses `signal`. */
  lemma ReusesTeardownHook(cls: Class)
    requires forall i :: 0 <= i < |cls.calls| ==> UntilArg(cls.calls[i]).None?
    ensures Locate(cls.(props := [], hook := Some(["this.signal.next();", "this.signal.complete();"])))
      == Some(Found("signal", FromTeardown))
  {
    var stmts := ["this.signal.next();", "this.signal.complete();"];
    assert stmts[1..] == ["this.signal.complete();"];
    assert Join(stmts[1..], "\n") == "this.signal.complete();";
    assert BodyText(stmts) == SignalHookBody;
    HookScanExample();
  }
}
