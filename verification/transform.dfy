/** `transform` of src/add-takeuntil/index.ts: for every Angular class of a file,
    ensure a teardown subject, synchronize `ngOnDestroy` and patch the
    subscriptions, threading the file's imports from class to class; the file
    counts as changed when some synchronization or patch reported a change. */
module Transform {
  import opened Base
  import opened Text
  import opened Naming
  import opened Syntax
  import opened Imports
  import opened Resolver
  import opened Lifecycle
  import opened Rewriter

  /** A class and the file's imports after one class has been processed, and
      whether anything was reported. */
  datatype ClassResult = ClassResult(cls: Class, imports: seq<ImportDecl>, changed: bool)

  /** The subject the class ends up with, when it subscribes to anything. */
  function SubjectOf(imports: seq<ImportDecl>, cls: Class): Option<string> {
    Ensure(imports, cls).subject
  }

  /** The body of the `forEach` in `transform`: a class without subscriptions is
      skipped; otherwise both the synchronization and the patch run, and either
      one reporting a change makes the class count as changed. */
  function ProcessClass(imports: seq<ImportDecl>, cls: Class, fault: Call -> Fault): (r: ClassResult)
    ensures !HasSubscribeCalls(cls) ==> r == ClassResult(cls, imports, false)
    ensures HasSubscribeCalls(cls) ==> Finalized(r.cls, SubjectOf(imports, cls).value)
    ensures NoDoubleFault(cls, fault) ==> AllManaged(r.cls.calls)
    ensures r.cls.name == cls.name && r.cls.decorators == cls.decorators
    ensures r.changed <==>
      && HasSubscribeCalls(cls)
      && (|| !Finalized(Ensure(imports, cls).cls, SubjectOf(imports, cls).value)
          || exists c :: c in cls.calls && Rewrites(c, fault(c)))
    ensures HasSubscribeCalls(cls) && Locate(cls).None? ==> Imported(r.imports, "Subject", "rxjs")
    ensures HasSubscribeCalls(cls) && !ImplementsOnDestroy(cls) ==> Imported(r.imports, "OnDestroy", "@angular/core")
    ensures (exists c :: c in cls.calls && Rewrites(c, fault(c))) ==> Imported(r.imports, OperatorName, OperatorModule)
    ensures UniqueSpecifiers(imports) ==> UniqueSpecifiers(r.imports)
    ensures KeepsImports(imports, r.imports)
    ensures forall n, s :: Imported(r.imports, n, s) ==> Imported(imports, n, s) || Introduces(cls, fault, n, s)
  {
    var e := Ensure(imports, cls);
    match e.subject
    case None =>
      RewritesSubscribe(cls, fault);
      ClassResult(cls, imports, false)
    case Some(subj) =>
      PipelineImports(imports, cls, subj, fault);
      PipelineOnlyIntroduces(imports, cls, subj, fault);
      var s := Sync(e.imports, e.cls, subj);
      var p := Patch(s.imports, s.cls, subj, fault);
      ClassResult(p.cls, p.imports, s.changed || p.changed)
  }

  /** Ensuring the subject reads only the class: the imports it is handed change
      neither the subject nor the class it returns. */
  lemma EnsureIgnoresImports(i1: seq<ImportDecl>, i2: seq<ImportDecl>, cls: Class)
    ensures Ensure(i1, cls).subject == Ensure(i2, cls).subject
    ensures Ensure(i1, cls).cls == Ensure(i2, cls).cls
  {
  }

  /** Synchronizing the hook reads only the class. */
  lemma SyncIgnoresImports(i1: seq<ImportDecl>, i2: seq<ImportDecl>, cls: Class, subj: string)
    ensures Sync(i1, cls, subj).cls == Sync(i2, cls, subj).cls
    ensures Sync(i1, cls, subj).changed == Sync(i2, cls, subj).changed
  {
  }

  /** What happens to a class, and whether it is reported, does not depend on the
      imports the file has gathered so far: they only receive new names. */
  lemma ProcessClassIgnoresImports(i1: seq<ImportDecl>, i2: seq<ImportDecl>, cls: Class, fault: Call -> Fault)
    ensures ProcessClass(i1, cls, fault).cls == ProcessClass(i2, cls, fault).cls
    ensures ProcessClass(i1, cls, fault).changed == ProcessClass(i2, cls, fault).changed
  {
    EnsureIgnoresImports(i1, i2, cls);
    if HasSubscribeCalls(cls) {
      var e1 := Ensure(i1, cls);
      var e2 := Ensure(i2, cls);
      var subj := e1.subject.value;
      SyncIgnoresImports(e1.imports, e2.imports, e1.cls, subj);
      ProcessedCalls(i1, cls, fault);
      ProcessedCalls(i2, cls, fault);
    }
  }

  /* ---------------------------------------------------------------------- */
  /*            A processed class resolves to the same subject again          */
  /* ---------------------------------------------------------------------- */

  /** Patching only adds calls that hand `subj` to the operator, so the first
      candidate afterwards is `subj` or the first candidate before; and a patch
      that rewrote something leaves a candidate behind. */
  lemma {:induction false} PatchedCandidates(calls: seq<Call>, fault: Call -> Fault, subj: string)
    requires IsDestroySubjectName(subj)
    ensures var out := Candidates(PatchCalls(calls, fault, subj));
      && (out != [] ==> out[0] == subj || (Candidates(calls) != [] && out[0] == Candidates(calls)[0]))
      && ((exists c :: c in calls && Rewrites(c, fault(c))) ==> out != [])
    decreases |calls|
  {
    if calls != [] {
      var c := calls[0];
      var head := PatchCall(c, fault(c), subj);
      var rest := PatchCalls(calls[1..], fault, subj);
      assert PatchCalls(calls, fault, subj) == head + rest;
      CandidatesConcat(head, rest);
      assert calls == [c] + calls[1..];
      CandidatesConcat([c], calls[1..]);
      PatchedCandidates(calls[1..], fault, subj);
      if Rewrites(c, fault(c)) {
        RewrittenCandidates(c, fault(c), subj);
      } else {
        assert head == [c];
        if exists d :: d in calls && Rewrites(d, fault(d)) {
          var d :| d in calls && Rewrites(d, fault(d));
          assert d in calls[1..];
        }
      }
    }
  }

  /** A rewritten call contributes exactly `subj` as a candidate. */
  lemma RewrittenCandidates(c: Call, f: Fault, subj: string)
    requires IsDestroySubjectName(subj) && Rewrites(c, f)
    ensures Candidates(PatchCall(c, f, subj)) == [subj]
  {
    var head := PatchCall(c, f, subj);
    assert UntilArg(head[0]).None?;
    assert UntilArg(head[1]) == Some(subj);
    assert head == [head[0]] + [head[1]];
    CandidatesConcat([head[0]], [head[1]]);
  }

  /** Lines appended to a hook that already names a subject keep that subject first. */
  lemma HookAppendKeepsMention(before: seq<string>, added: seq<string>)
    ensures FirstDestroyMention(BodyText(before), 0).Some? ==>
      FirstDestroyMention(BodyText(before + added), 0) == FirstDestroyMention(BodyText(before), 0)
  {
    if added == [] {
      assert before + added == before;
    } else if before != [] {
      JoinConcat(before, added, "\n");
      FirstMentionAppend(BodyText(before), BodyText(added), 0);
    }
  }

  /** With no subject handed to the operator, the resolver finds the same subject
      in a class whose properties and hook were only extended as processing
      extends them. */
  lemma SameSubjectWithoutOperator(cls: Class, out: Class, subj: string)
    requires Candidates(cls.calls) == [] && Candidates(out.calls) == []
    requires Locate(cls).None? ==> out.props == [DestroyProperty] + cls.props && subj == DestroyName
    requires Locate(cls).Some? ==> out.props == cls.props && subj == Locate(cls).value.name
    requires cls.hook.Some? ==> out.hook.Some? && Extends(cls.hook.value, out.hook.value)
    ensures Locate(out).Some? && Locate(out).value.name == subj
  {
    LocateFirstCandidate(cls);
    LocateFirstCandidate(out);
    match Locate(cls)
    case None =>
      SynthesizedPropertyFirst(out.props);
    case Some(found) =>
      if found.origin == FromTeardown {
        TeardownKept(cls.hook.value, out.hook.value);
      }
  }

  /** The synthesized property, put first, is the first signal-like property. */
  lemma SynthesizedPropertyFirst(props: seq<Property>)
    requires props != [] && props[0] == DestroyProperty
    ensures FirstDestroyProperty(props, 0) == Some(0)
  {
    DestroyPropertyQualifies();
  }

  /** A hook that was only extended still names the same subject first. */
  lemma TeardownKept(before: seq<string>, after: seq<string>)
    requires Extends(before, after)
    ensures FirstDestroyMention(BodyText(before), 0).Some? ==>
      TeardownSubject(Some(after)) == FirstDestroyMention(BodyText(before), 0)
  {
    assert after == before + after[|before|..];
    HookAppendKeepsMention(before, after[|before|..]);
  }

  /** After a class has been processed, the resolver finds the subject it was
      processed with. */
  lemma LocateAfterProcess(imports: seq<ImportDecl>, cls: Class, fault: Call -> Fault)
    requires HasSubscribeCalls(cls)
    ensures var out := ProcessClass(imports, cls, fault).cls;
      Locate(out).Some? && Locate(out).value.name == SubjectOf(imports, cls).value
  {
    var e := Ensure(imports, cls);
    var subj := e.subject.value;
    var s := Sync(e.imports, e.cls, subj);
    var out := ProcessClass(imports, cls, fault).cls;
    ProcessedCalls(imports, cls, fault);
    PatchedCandidates(cls.calls, fault, subj);
    LocateFirstCandidate(cls);
    LocateFirstCandidate(out);
    if Candidates(out.calls) == [] {
      PatchCallsUntouched(cls.calls, fault, subj);
      SameSubjectWithoutOperator(cls, out, subj);
    }
  }

  /** A processed class is the synchronized class with its calls patched. */
  lemma ProcessedCalls(imports: seq<ImportDecl>, cls: Class, fault: Call -> Fault)
    requires HasSubscribeCalls(cls)
    ensures var subj := SubjectOf(imports, cls).value;
      var e := Ensure(imports, cls);
      ProcessClass(imports, cls, fault).cls
        == Sync(e.imports, e.cls, subj).cls.(calls := PatchCalls(cls.calls, fault, subj))
  {
    var subj := SubjectOf(imports, cls).value;
    var e := Ensure(imports, cls);
    var s := Sync(e.imports, e.cls, subj);
    PatchIsPatchCalls(s.imports, s.cls, subj, fault);
  }

  /** A class that subscribes to something still does after processing. */
  lemma ProcessedSubscribes(imports: seq<ImportDecl>, cls: Class, fault: Call -> Fault)
    requires HasSubscribeCalls(cls)
    ensures HasSubscribeCalls(ProcessClass(imports, cls, fault).cls)
  {
    ProcessedCalls(imports, cls, fault);
    var i :| 0 <= i < |cls.calls| && IsSubscribe(cls.calls[i]);
    SubscribeSurvives(cls.calls, fault, SubjectOf(imports, cls).value, i);
  }

  /** Processing a processed class again changes nothing and reports nothing,
      whatever the imports of the file are by then, provided the first run did
      not leave a site unpatched because both edits threw. */
  lemma ProcessClassIdempotent(imports: seq<ImportDecl>, cls: Class, fault: Call -> Fault,
                               imports2: seq<ImportDecl>, fault2: Call -> Fault)
    requires NoDoubleFault(cls, fault)
    ensures var once := ProcessClass(imports, cls, fault).cls;
      ProcessClass(imports2, once, fault2) == ClassResult(once, imports2, false)
  {
    var once := ProcessClass(imports, cls, fault).cls;
    if HasSubscribeCalls(cls) {
      var subj := SubjectOf(imports, cls).value;
      ProcessedSubscribes(imports, cls, fault);
      LocateAfterProcess(imports, cls, fault);
      assert Ensure(imports2, once) == Ensured(Some(subj), once, imports2);
      assert Sync(imports2, once, subj) == Synced(once, imports2, false);
      PatchManagedIsNoOp(imports2, once, subj, fault2);
    }
  }

  /** Every `.subscribe` call survives patching, rewritten or not. */
  lemma {:induction false} SubscribeSurvives(calls: seq<Call>, fault: Call -> Fault, subj: string, i: nat)
    requires i < |calls| && IsSubscribe(calls[i])
    ensures var out := PatchCalls(calls, fault, subj);
      exists k :: 0 <= k < |out| && IsSubscribe(out[k])
    decreases |calls|
  {
    var head := PatchCall(calls[0], fault(calls[0]), subj);
    var rest := PatchCalls(calls[1..], fault, subj);
    assert PatchCalls(calls, fault, subj) == head + rest;
    if i == 0 {
      assert (head + rest)[0] == head[0];
    } else {
      SubscribeSurvives(calls[1..], fault, subj, i - 1);
      var k :| 0 <= k < |rest| && IsSubscribe(rest[k]);
      assert (head + rest)[|head| + k] == rest[k];
    }
  }

  /* ---------------------------------------------------------------------- */
  /*                                 A file                                   */
  /* ---------------------------------------------------------------------- */

  /** The classes and imports of a file after the loop, and `transform`'s result. */
  datatype FileResult = FileResult(file: SourceFile, changed: bool)

  /** The loop over the classes in declaration order; the Angular ones are
      processed, the others are left as they are. */
  function ProcessClasses(classes: seq<Class>, imports: seq<ImportDecl>, fault: Call -> Fault)
    : (r: FileResult)
    ensures |r.file.classes| == |classes|
    ensures forall i :: 0 <= i < |classes| ==>
      && r.file.classes[i].name == classes[i].name
      && r.file.classes[i].decorators == classes[i].decorators
      && (!IsNgClass(classes[i]) ==> r.file.classes[i] == classes[i])
    decreases |classes|
  {
    if classes == [] then FileResult(SourceFile(imports, []), false)
    else
      var c := classes[0];
      var here := if IsNgClass(c) then ProcessClass(imports, c, fault) else ClassResult(c, imports, false);
      var rest := ProcessClasses(classes[1..], here.imports, fault);
      FileResult(SourceFile(rest.file.imports, [here.cls] + rest.file.classes), here.changed || rest.changed)
  }

  /** The loop processes every Angular class as if it came first: the imports
      gathered from earlier classes do not affect it. */
  lemma {:induction false} ProcessClassesProcesses(classes: seq<Class>, imports: seq<ImportDecl>,
                                                   fault: Call -> Fault)
    ensures forall i :: 0 <= i < |classes| && IsNgClass(classes[i]) ==>
      ProcessClasses(classes, imports, fault).file.classes[i] == ProcessClass(imports, classes[i], fault).cls
    decreases |classes|
  {
    if classes != [] {
      var c := classes[0];
      var here := if IsNgClass(c) then ProcessClass(imports, c, fault) else ClassResult(c, imports, false);
      var out := ProcessClasses(classes, imports, fault).file.classes;
      var tail := ProcessClasses(classes[1..], here.imports, fault).file.classes;
      assert out == [here.cls] + tail;
      ProcessClassesProcesses(classes[1..], here.imports, fault);
      forall i | 1 <= i < |classes| && IsNgClass(classes[i])
        ensures out[i] == ProcessClass(imports, classes[i], fault).cls
      {
        ConsAt(classes, here.cls, tail, i);
        ProcessClassIgnoresImports(here.imports, imports, classes[i], fault);
      }
    }
  }

  /** Index bookkeeping for one step of the loop. */
  lemma ConsAt(classes: seq<Class>, head: Class, tail: seq<Class>, i: nat)
    requires 1 <= i < |classes| && |tail| == |classes| - 1
    ensures ([head] + tail)[i] == tail[i - 1] && classes[i] == classes[1..][i - 1]
  {
  }

  /** The loop reports a change exactly when processing some Angular class does. */
  lemma ProcessClassesReports(classes: seq<Class>, imports: seq<ImportDecl>, fault: Call -> Fault)
    ensures ProcessClasses(classes, imports, fault).changed <==>
      exists c :: c in classes && IsNgClass(c) && ProcessClass(imports, c, fault).changed
  {
    LoopReports(classes, imports, fault);
    SomeReportExists(classes, imports, fault);
  }

  /** Some Angular class of the list reports a change when processed against
      `imports`. */
  predicate SomeReport(classes: seq<Class>, imports: seq<ImportDecl>, fault: Call -> Fault)
    decreases |classes|
  {
    && classes != []
    && (|| (IsNgClass(classes[0]) && ProcessClass(imports, classes[0], fault).changed)
        || SomeReport(classes[1..], imports, fault))
  }

  /** The loop's flag is `SomeReport`. */
  lemma {:induction false} LoopReports(classes: seq<Class>, imports: seq<ImportDecl>, fault: Call -> Fault)
    ensures ProcessClasses(classes, imports, fault).changed == SomeReport(classes, imports, fault)
    decreases |classes|
  {
    if classes != [] {
      var c := classes[0];
      var here := if IsNgClass(c) then ProcessClass(imports, c, fault) else ClassResult(c, imports, false);
      LoopReports(classes[1..], here.imports, fault);
      SomeReportIgnoresImports(classes[1..], here.imports, imports, fault);
    }
  }

  /** `SomeReport` does not depend on the imports. */
  lemma {:induction false} SomeReportIgnoresImports(classes: seq<Class>, i1: seq<ImportDecl>, i2: seq<ImportDecl>,
                                                    fault: Call -> Fault)
    ensures SomeReport(classes, i1, fault) == SomeReport(classes, i2, fault)
    decreases |classes|
  {
    if classes != [] {
      ProcessClassIgnoresImports(i1, i2, classes[0], fault);
      SomeReportIgnoresImports(classes[1..], i1, i2, fault);
    }
  }

  /** `SomeReport` holds exactly when some Angular class reports a change. */
  lemma {:induction false} SomeReportExists(classes: seq<Class>, imports: seq<ImportDecl>, fault: Call -> Fault)
    ensures SomeReport(classes, imports, fault) <==>
      exists c :: c in classes && IsNgClass(c) && ProcessClass(imports, c, fault).changed
    decreases |classes|
  {
    if classes != [] {
      SomeReportExists(classes[1..], imports, fault);
      ClassesFirstAndRest(classes);
    }
  }

  /** A class of a non-empty list is its first class or a class of the rest. */
  lemma ClassesFirstAndRest(classes: seq<Class>)
    requires classes != []
    ensures forall c :: c in classes <==> c == classes[0] || c in classes[1..]
  {
    assert classes == [classes[0]] + classes[1..];
  }

  /** `transform(sf)`. */
  function TransformFile(f: SourceFile, fault: Call -> Fault): (r: FileResult)
    ensures |r.file.classes| == |f.classes|
    ensures forall i :: 0 <= i < |f.classes| && !IsNgClass(f.classes[i]) ==> r.file.classes[i] == f.classes[i]
    ensures |FindNgClasses(r.file.classes)| == |FindNgClasses(f.classes)|
    ensures forall i :: 0 <= i < |f.classes| && IsNgClass(f.classes[i]) ==>
      r.file.classes[i] == ProcessClass(f.imports, f.classes[i], fault).cls
    ensures r.changed <==> exists c :: c in f.classes && IsNgClass(c) && ProcessClass(f.imports, c, fault).changed
    ensures forall c, n, s :: c in f.classes && IsNgClass(c) && Introduces(c, fault, n, s) ==> Imported(r.file.imports, n, s)
    ensures UniqueSpecifiers(f.imports) ==> UniqueSpecifiers(r.file.imports)
    ensures KeepsImports(f.imports, r.file.imports)
    ensures forall n, s :: Imported(r.file.imports, n, s) ==>
      Imported(f.imports, n, s) || exists c :: c in f.classes && IsNgClass(c) && Introduces(c, fault, n, s)
  {
    var r := ProcessClasses(f.classes, f.imports, fault);
    NgClassesKept(f.classes, r.file.classes);
    ProcessClassesProcesses(f.classes, f.imports, fault);
    ProcessClassesReports(f.classes, f.imports, fault);
    ProcessClassesIntroduces(f.classes, f.imports, fault);
    ProcessClassesKeepsUnique(f.classes, f.imports, fault);
    ProcessClassesKeepsImports(f.classes, f.imports, fault);
    ProcessClassesOnlyIntroduces(f.classes, f.imports, fault);
    r
  }

  /** Processing keeps each class's decorators, so the same classes are Angular. */
  lemma {:induction false} NgClassesKept(a: seq<Class>, b: seq<Class>)
    requires |a| == |b| && forall i :: 0 <= i < |a| ==> a[i].decorators == b[i].decorators
    ensures |FindNgClasses(a)| == |FindNgClasses(b)|
  {
    if a != [] {
      assert IsNgClass(a[0]) == IsNgClass(b[0]);
      NgClassesKept(a[1..], b[1..]);
    }
  }

  /** A file in which no class subscribes to anything is left untouched. */
  lemma {:induction false} NoSubscriptionsNoChange(classes: seq<Class>, imports: seq<ImportDecl>, fault: Call -> Fault)
    requires forall i :: 0 <= i < |classes| ==> !HasSubscribeCalls(classes[i])
    ensures ProcessClasses(classes, imports, fault) == FileResult(SourceFile(imports, classes), false)
  {
    if classes != [] {
      assert !HasSubscribeCalls(classes[0]);
      assert forall i :: 0 <= i < |classes| - 1 ==> classes[1..][i] == classes[i + 1];
      NoSubscriptionsNoChange(classes[1..], imports, fault);
      assert classes == [classes[0]] + classes[1..];
    }
  }

  /** No Angular class lost a site to a double failure. */
  predicate NoDoubleFaultIn(classes: seq<Class>, fault: Call -> Fault) {
    forall i :: 0 <= i < |classes| && IsNgClass(classes[i]) ==> NoDoubleFault(classes[i], fault)
  }

  /** Running the loop over its own output changes nothing and reports nothing. */
  lemma {:induction false} ProcessClassesIdempotent(classes: seq<Class>, imports: seq<ImportDecl>,
                                                    fault: Call -> Fault, imports2: seq<ImportDecl>,
                                                    fault2: Call -> Fault)
    requires NoDoubleFaultIn(classes, fault)
    ensures var once := ProcessClasses(classes, imports, fault).file.classes;
      ProcessClasses(once, imports2, fault2) == FileResult(SourceFile(imports2, once), false)
    decreases |classes|
  {
    if classes != [] {
      var c := classes[0];
      var here := if IsNgClass(c) then ProcessClass(imports, c, fault) else ClassResult(c, imports, false);
      var rest := ProcessClasses(classes[1..], here.imports, fault);
      var once := ProcessClasses(classes, imports, fault).file.classes;
      assert once == [here.cls] + rest.file.classes;
      assert once[0] == here.cls && once[1..] == rest.file.classes;
      assert IsNgClass(here.cls) == IsNgClass(c);
      if IsNgClass(c) {
        ProcessClassIdempotent(imports, c, fault, imports2, fault2);
      }
      assert forall i :: 0 <= i < |classes| - 1 ==> classes[1..][i] == classes[i + 1];
      ProcessClassesIdempotent(classes[1..], here.imports, fault, imports2, fault2);
    }
  }

  /** Running the transformation on its own output changes nothing and reports
      nothing, whatever fails on the second run, provided the first run did not
      leave a site unpatched because both edits threw. */
  lemma TransformIdempotent(f: SourceFile, fault: Call -> Fault, fault2: Call -> Fault)
    requires NoDoubleFaultIn(f.classes, fault)
    ensures var once := TransformFile(f, fault).file;
      TransformFile(once, fault2) == FileResult(once, false)
  {
    var once := TransformFile(f, fault).file;
    ProcessClassesIdempotent(f.classes, f.imports, fault, once.imports, fault2);
  }

  /** No import the file had is lost. */
  ghost predicate KeepsImports(before: seq<ImportDecl>, after: seq<ImportDecl>) {
    forall n, s :: Imported(before, n, s) ==> Imported(after, n, s)
  }

  /** Adding an import keeps the others. */
  lemma AddImportKeeps(imports: seq<ImportDecl>, name: string, specifier: string)
    ensures KeepsImports(imports, AddImport(imports, name, specifier))
  {
    forall n, s | Imported(imports, n, s)
      ensures Imported(AddImport(imports, name, specifier), n, s)
    {
      AddImportKeepsImported(imports, name, specifier, n, s);
    }
  }

  /** Processing one class only adds imports. */
  lemma ProcessClassKeepsImports(imports: seq<ImportDecl>, cls: Class, fault: Call -> Fault)
    ensures KeepsImports(imports, ProcessClass(imports, cls, fault).imports)
  {
    var e := Ensure(imports, cls);
    if e.subject.Some? {
      var subj := e.subject.value;
      var s := Sync(e.imports, e.cls, subj);
      var p := Patch(s.imports, s.cls, subj, fault);
      AddImportKeeps(imports, "Subject", "rxjs");
      AddImportKeeps(e.imports, "OnDestroy", "@angular/core");
      AddImportKeeps(s.imports, OperatorName, OperatorModule);
      assert KeepsImports(imports, e.imports);
      assert KeepsImports(e.imports, s.imports);
      assert KeepsImports(s.imports, p.imports);
    }
  }

  /** A class with a site to rewrite subscribes to something. */
  lemma RewritesSubscribe(cls: Class, fault: Call -> Fault)
    ensures (exists c :: c in cls.calls && Rewrites(c, fault(c))) ==> HasSubscribeCalls(cls)
  {
    if c :| c in cls.calls && Rewrites(c, fault(c)) {
      var i :| 0 <= i < |cls.calls| && cls.calls[i] == c;
      assert IsSubscribe(cls.calls[i]);
    }
  }

  /** Ensuring the subject imports `Subject` when it creates one, touches only the
      properties, and keeps one declaration per module. */
  lemma EnsureImports(imports: seq<ImportDecl>, cls: Class)
    ensures var e := Ensure(imports, cls);
      && (HasSubscribeCalls(cls) && Locate(cls).None? ==> Imported(e.imports, "Subject", "rxjs"))
      && KeepsImports(imports, e.imports)
      && (forall n, s :: Imported(e.imports, n, s) ==>
            Imported(imports, n, s) || (HasSubscribeCalls(cls) && Locate(cls).None? && n == "Subject" && s == "rxjs"))
      && (UniqueSpecifiers(imports) ==> UniqueSpecifiers(e.imports))
      && e.cls.implements == cls.implements && e.cls.calls == cls.calls
  {
    AddImportKeeps(imports, "Subject", "rxjs");
    AddImportOnlyAdds(imports, "Subject", "rxjs");
    if UniqueSpecifiers(imports) {
      AddImportKeepsUnique(imports, "Subject", "rxjs");
    }
  }

  /** Synchronizing imports `OnDestroy` when the class did not implement it, keeps
      the calls, and keeps one declaration per module. */
  lemma SyncImports(imports: seq<ImportDecl>, cls: Class, subj: string)
    ensures var s := Sync(imports, cls, subj);
      && (!ImplementsOnDestroy(cls) ==> Imported(s.imports, "OnDestroy", "@angular/core"))
      && KeepsImports(imports, s.imports)
      && (forall n, sp :: Imported(s.imports, n, sp) ==>
            Imported(imports, n, sp) || (!ImplementsOnDestroy(cls) && n == "OnDestroy" && sp == "@angular/core"))
      && (UniqueSpecifiers(imports) ==> UniqueSpecifiers(s.imports))
      && s.cls.calls == cls.calls
  {
    AddImportKeeps(imports, "OnDestroy", "@angular/core");
    AddImportOnlyAdds(imports, "OnDestroy", "@angular/core");
    if UniqueSpecifiers(imports) {
      AddImportKeepsUnique(imports, "OnDestroy", "@angular/core");
    }
  }

  /** Patching imports the operator when it rewrites a site, and keeps one
      declaration per module. */
  lemma PatchImports(imports: seq<ImportDecl>, cls: Class, subj: string, fault: Call -> Fault)
    ensures var p := Patch(imports, cls, subj, fault);
      && ((exists c :: c in cls.calls && Rewrites(c, fault(c))) ==> Imported(p.imports, OperatorName, OperatorModule))
      && KeepsImports(imports, p.imports)
      && (forall n, s :: Imported(p.imports, n, s) ==>
            || Imported(imports, n, s)
            || ((exists c :: c in cls.calls && Rewrites(c, fault(c))) && n == OperatorName && s == OperatorModule))
      && (UniqueSpecifiers(imports) ==> UniqueSpecifiers(p.imports))
  {
    AddImportKeeps(imports, OperatorName, OperatorModule);
    AddImportOnlyAdds(imports, OperatorName, OperatorModule);
    if UniqueSpecifiers(imports) {
      AddImportKeepsUnique(imports, OperatorName, OperatorModule);
    }
  }

  /** The imports the three steps leave for a subscribing class. */
  lemma PipelineImports(imports: seq<ImportDecl>, cls: Class, subj: string, fault: Call -> Fault)
    requires Ensure(imports, cls).subject == Some(subj)
    ensures var e := Ensure(imports, cls);
      var s := Sync(e.imports, e.cls, subj);
      var p := Patch(s.imports, s.cls, subj, fault);
      && (Locate(cls).None? ==> Imported(p.imports, "Subject", "rxjs"))
      && (!ImplementsOnDestroy(cls) ==> Imported(p.imports, "OnDestroy", "@angular/core"))
      && ((exists c :: c in cls.calls && Rewrites(c, fault(c))) ==> Imported(p.imports, OperatorName, OperatorModule))
      && (UniqueSpecifiers(imports) ==> UniqueSpecifiers(p.imports))
  {
    var e := Ensure(imports, cls);
    var s := Sync(e.imports, e.cls, subj);
    EnsureImports(imports, cls);
    assert ImplementsOnDestroy(e.cls) == ImplementsOnDestroy(cls);
    SyncImports(e.imports, e.cls, subj);
    PatchImports(s.imports, s.cls, subj, fault);
  }

  /** For a subscribing class, the three steps keep every import and add only
      what processing the class introduces. */
  lemma PipelineOnlyIntroduces(imports: seq<ImportDecl>, cls: Class, subj: string, fault: Call -> Fault)
    requires Ensure(imports, cls).subject == Some(subj)
    ensures var e := Ensure(imports, cls);
      var s := Sync(e.imports, e.cls, subj);
      var p := Patch(s.imports, s.cls, subj, fault);
      && KeepsImports(imports, p.imports)
      && (forall n, sp :: Imported(p.imports, n, sp) ==> Imported(imports, n, sp) || Introduces(cls, fault, n, sp))
  {
    var e := Ensure(imports, cls);
    var s := Sync(e.imports, e.cls, subj);
    var p := Patch(s.imports, s.cls, subj, fault);
    EnsureOnlyIntroduces(imports, cls, fault);
    SyncOnlyIntroduces(imports, cls, subj, fault);
    PatchOnlyIntroduces(imports, cls, subj, fault);
    ChainIntroduces(imports, e.imports, s.imports, p.imports, cls, fault);
  }

  /** Ensuring the subject keeps every import and adds only what `cls` introduces. */
  lemma EnsureOnlyIntroduces(imports: seq<ImportDecl>, cls: Class, fault: Call -> Fault)
    ensures var e := Ensure(imports, cls);
      && KeepsImports(imports, e.imports)
      && forall n, sp :: Imported(e.imports, n, sp) ==> Imported(imports, n, sp) || Introduces(cls, fault, n, sp)
  {
    EnsureImports(imports, cls);
  }

  /** Synchronizing the ensured class keeps every import and adds only what `cls`
      introduces. */
  lemma SyncOnlyIntroduces(imports: seq<ImportDecl>, cls: Class, subj: string, fault: Call -> Fault)
    requires Ensure(imports, cls).subject == Some(subj)
    ensures var e := Ensure(imports, cls);
      var s := Sync(e.imports, e.cls, subj);
      && KeepsImports(e.imports, s.imports)
      && forall n, sp :: Imported(s.imports, n, sp) ==> Imported(e.imports, n, sp) || Introduces(cls, fault, n, sp)
  {
    var e := Ensure(imports, cls);
    EnsureImports(imports, cls);
    SyncImports(e.imports, e.cls, subj);
    assert ImplementsOnDestroy(e.cls) == ImplementsOnDestroy(cls);
  }

  /** Patching the synchronized class keeps every import and adds only what `cls`
      introduces. */
  lemma PatchOnlyIntroduces(imports: seq<ImportDecl>, cls: Class, subj: string, fault: Call -> Fault)
    requires Ensure(imports, cls).subject == Some(subj)
    ensures var e := Ensure(imports, cls);
      var s := Sync(e.imports, e.cls, subj);
      var p := Patch(s.imports, s.cls, subj, fault);
      && KeepsImports(s.imports, p.imports)
      && forall n, sp :: Imported(p.imports, n, sp) ==> Imported(s.imports, n, sp) || Introduces(cls, fault, n, sp)
  {
    var e := Ensure(imports, cls);
    var s := Sync(e.imports, e.cls, subj);
    EnsureImports(imports, cls);
    SyncImports(e.imports, e.cls, subj);
    PatchImports(s.imports, s.cls, subj, fault);
    assert s.cls.calls == cls.calls;
  }

  /** Three steps that each add only what `cls` introduces add only that together. */
  lemma ChainIntroduces(i0: seq<ImportDecl>, i1: seq<ImportDecl>, i2: seq<ImportDecl>, i3: seq<ImportDecl>,
                        cls: Class, fault: Call -> Fault)
    requires forall n, s :: Imported(i1, n, s) ==> Imported(i0, n, s) || Introduces(cls, fault, n, s)
    requires forall n, s :: Imported(i2, n, s) ==> Imported(i1, n, s) || Introduces(cls, fault, n, s)
    requires forall n, s :: Imported(i3, n, s) ==> Imported(i2, n, s) || Introduces(cls, fault, n, s)
    ensures forall n, s :: Imported(i3, n, s) ==> Imported(i0, n, s) || Introduces(cls, fault, n, s)
  {
  }

  /** The imports processing `cls` introduces: `Subject` when the subject is
      created, `OnDestroy` when the class did not implement it, the operator when
      a site is rewritten. Processing adds these and no others. */
  predicate Introduces(cls: Class, fault: Call -> Fault, name: string, specifier: string) {
    || (HasSubscribeCalls(cls) && Locate(cls).None? && name == "Subject" && specifier == "rxjs")
    || (HasSubscribeCalls(cls) && !ImplementsOnDestroy(cls) && name == "OnDestroy" && specifier == "@angular/core")
    || (name == OperatorName && specifier == OperatorModule && exists c :: c in cls.calls && Rewrites(c, fault(c)))
  }

  /** After the loop, the file imports everything some Angular class's processing
      introduces. */
  lemma {:induction false} ProcessClassesIntroduces(classes: seq<Class>, imports: seq<ImportDecl>, fault: Call -> Fault)
    ensures forall c, n, s :: c in classes && IsNgClass(c) && Introduces(c, fault, n, s) ==>
      Imported(ProcessClasses(classes, imports, fault).file.imports, n, s)
    decreases |classes|
  {
    if classes != [] {
      var c0 := classes[0];
      var here := if IsNgClass(c0) then ProcessClass(imports, c0, fault) else ClassResult(c0, imports, false);
      var out := ProcessClasses(classes, imports, fault).file.imports;
      assert out == ProcessClasses(classes[1..], here.imports, fault).file.imports;
      ProcessClassesIntroduces(classes[1..], here.imports, fault);
      ProcessClassesKeepsImports(classes[1..], here.imports, fault);
      assert KeepsImports(here.imports, out);
      if IsNgClass(c0) {
        assert forall n, s :: Introduces(c0, fault, n, s) ==> Imported(here.imports, n, s);
      }
      ClassesFirstAndRest(classes);
    }
  }

  /** After the loop, the file imports nothing beyond what it imported before and
      what some Angular class's processing introduces. */
  lemma {:induction false} ProcessClassesOnlyIntroduces(classes: seq<Class>, imports: seq<ImportDecl>,
                                                        fault: Call -> Fault)
    ensures forall n, s :: Imported(ProcessClasses(classes, imports, fault).file.imports, n, s) ==>
      || Imported(imports, n, s)
      || exists c :: c in classes && IsNgClass(c) && Introduces(c, fault, n, s)
    decreases |classes|
  {
    if classes != [] {
      var c0 := classes[0];
      var here := if IsNgClass(c0) then ProcessClass(imports, c0, fault) else ClassResult(c0, imports, false);
      var out := ProcessClasses(classes, imports, fault).file.imports;
      assert out == ProcessClasses(classes[1..], here.imports, fault).file.imports;
      ProcessClassesOnlyIntroduces(classes[1..], here.imports, fault);
      ClassesFirstAndRest(classes);
      forall n, s | Imported(out, n, s) && !Imported(imports, n, s)
        ensures exists c :: c in classes && IsNgClass(c) && Introduces(c, fault, n, s)
      {
        if Imported(here.imports, n, s) {
          assert IsNgClass(c0) && Introduces(c0, fault, n, s);
        }
      }
    }
  }

  /** The loop keeps a file at one declaration per module. */
  lemma {:induction false} ProcessClassesKeepsUnique(classes: seq<Class>, imports: seq<ImportDecl>, fault: Call -> Fault)
    ensures UniqueSpecifiers(imports) ==> UniqueSpecifiers(ProcessClasses(classes, imports, fault).file.imports)
    decreases |classes|
  {
    if classes != [] {
      var c0 := classes[0];
      var here := if IsNgClass(c0) then ProcessClass(imports, c0, fault) else ClassResult(c0, imports, false);
      ProcessClassesKeepsUnique(classes[1..], here.imports, fault);
    }
  }

  /** Processing a file's classes never drops one of its imports. */
  lemma {:induction false} ProcessClassesKeepsImports(classes: seq<Class>, imports: seq<ImportDecl>,
                                                      fault: Call -> Fault)
    ensures KeepsImports(imports, ProcessClasses(classes, imports, fault).file.imports)
    decreases |classes|
  {
    if classes != [] {
      var c := classes[0];
      var here := if IsNgClass(c) then ProcessClass(imports, c, fault) else ClassResult(c, imports, false);
      if IsNgClass(c) {
        ProcessClassKeepsImports(imports, c, fault);
      }
      ProcessClassesKeepsImports(classes[1..], here.imports, fault);
    }
  }
}
