/** `syncNgOnDestroy` of src/add-takeuntil/index.ts: make the class implement
    `OnDestroy` and make its `ngOnDestroy` emit and complete the teardown subject,
    adding only what is missing. */
module Lifecycle {
  import opened Base
  import opened Text
  import opened Syntax
  import opened Imports

  /** The statement that fires the signal. */
  function NextStatement(subj: string): string {
    "this." + subj + ".next();"
  }

  /** The statement that completes the signal. */
  function CompleteStatement(subj: string): string {
    "this." + subj + ".complete();"
  }

  /** What counts as the body already firing the signal. */
  function NextText(subj: string): string {
    subj + ".next()"
  }

  /** What counts as the body already completing the signal. */
  function CompleteText(subj: string): string {
    subj + ".complete()"
  }

  /** Some `implements` clause mentions `OnDestroy`. */
  predicate ImplementsOnDestroy(cls: Class) {
    exists i :: 0 <= i < |cls.implements| && Contains(cls.implements[i], "OnDestroy")
  }

  /** The class implements `OnDestroy` and has an `ngOnDestroy` whose body fires
      and completes `subj`. */
  predicate Finalized(cls: Class, subj: string) {
    && ImplementsOnDestroy(cls)
    && cls.hook.Some?
    && Contains(BodyText(cls.hook.value), NextText(subj))
    && Contains(BodyText(cls.hook.value), CompleteText(subj))
  }

  /** The class and imports after `syncNgOnDestroy`, and its result. */
  datatype Synced = Synced(cls: Class, imports: seq<ImportDecl>, changed: bool)

  /** `sb` is `sa` with statements added at the end. */
  predicate Extends(sa: seq<string>, sb: seq<string>) {
    |sa| <= |sb| && sb[..|sa|] == sa
  }

  /** The statements appended to an existing body: those the body lacks, the
      firing before the completing. */
  function Missing(body: string, subj: string): (r: seq<string>)
    ensures NextStatement(subj) in r <==> !Contains(body, NextText(subj))
    ensures CompleteStatement(subj) in r <==> !Contains(body, CompleteText(subj))
    ensures forall k :: 0 <= k < |r| ==> r[k] == NextStatement(subj) || r[k] == CompleteStatement(subj)
    ensures |r| == 2 ==> r == [NextStatement(subj), CompleteStatement(subj)]
  {
    assert NextStatement(subj) != CompleteStatement(subj) by {
      assert NextStatement(subj)[|subj| + 6] == 'n';
      assert CompleteStatement(subj)[|subj| + 6] == 'c';
    }
    (if Contains(body, NextText(subj)) then [] else [NextStatement(subj)])
    + (if Contains(body, CompleteText(subj)) then [] else [CompleteStatement(subj)])
  }

  /** `syncNgOnDestroy`: add `OnDestroy` to the `implements` clause (and import it)
      when no clause mentions it; create `ngOnDestroy` with both statements when
      there is none, or else append to it the statements its original body lacks. */
  function Sync(imports: seq<ImportDecl>, cls: Class, subj: string): (r: Synced)
    ensures Finalized(r.cls, subj)
    ensures r.changed <==> !Finalized(cls, subj)
    ensures r.changed <==> r.cls != cls
    ensures !r.changed ==> r.imports == imports
    ensures r.cls == cls.(implements := r.cls.implements, hook := r.cls.hook)
    ensures ImplementsOnDestroy(cls) ==> r.cls.implements == cls.implements && r.imports == imports
    ensures !ImplementsOnDestroy(cls) ==>
      r.cls.implements == cls.implements + ["OnDestroy"]
      && r.imports == AddImport(imports, "OnDestroy", "@angular/core")
    ensures cls.hook.None? ==> r.cls.hook == Some([NextStatement(subj), CompleteStatement(subj)])
    ensures cls.hook.Some? ==>
      var before := cls.hook.value;
      Extends(before, r.cls.hook.value) && r.cls.hook.value[|before|..] == Missing(BodyText(before), subj)
  {
    var (cls1, imports1) :=
      if ImplementsOnDestroy(cls) then (cls, imports)
      else
        assert Contains((cls.implements + ["OnDestroy"])[|cls.implements|], "OnDestroy") by {
          ContainsSelf([], "OnDestroy", []);
          assert [] + "OnDestroy" + [] == "OnDestroy";
        }
        (cls.(implements := cls.implements + ["OnDestroy"]), AddImport(imports, "OnDestroy", "@angular/core"));
    match cls.hook
    case None =>
      var stmts := [NextStatement(subj), CompleteStatement(subj)];
      HasBothStatements(stmts, subj);
      Synced(cls1.(hook := Some(stmts)), imports1, true)
    case Some(before) =>
      var body := BodyText(before);
      var added := Missing(body, subj);
      var after := before + added;
      AppendedBody(before, added, subj);
      assert added != [] ==> added[0] in added && |after| > |before|;
      assert added == [] <==> Contains(body, NextText(subj)) && Contains(body, CompleteText(subj));
      assert added == [] ==> after == before;
      assert !ImplementsOnDestroy(cls) ==> cls1.implements != cls.implements;
      Synced(cls1.(hook := Some(after)), imports1, !ImplementsOnDestroy(cls) || added != [])
  }

  /** A statement list holding both statements fires and completes the subject. */
  lemma HasBothStatements(stmts: seq<string>, subj: string)
    requires NextStatement(subj) in stmts && CompleteStatement(subj) in stmts
    ensures Contains(BodyText(stmts), NextText(subj))
    ensures Contains(BodyText(stmts), CompleteText(subj))
  {
    StatementHasText(stmts, subj, NextStatement(subj), NextText(subj), ";");
    StatementHasText(stmts, subj, CompleteStatement(subj), CompleteText(subj), ";");
  }

  /** A listed statement `this.<text>;` puts `<text>` in the body. */
  lemma StatementHasText(stmts: seq<string>, subj: string, stmt: string, text: string, tail: string)
    requires stmt in stmts && stmt == "this." + text + tail
    ensures Contains(BodyText(stmts), text)
  {
    var i :| 0 <= i < |stmts| && stmts[i] == stmt;
    JoinHasPart(stmts, "\n", i);
    ContainsSelf("this.", text, tail);
    ContainsWithin(BodyText(stmts), stmt, text);
  }

  /** Containment is transitive. */
  lemma ContainsWithin(s: string, t: string, u: string)
    requires Contains(s, t) && Contains(t, u)
    ensures Contains(s, u)
  {
    var i :| 0 <= i <= |s| - |t| && OccursAt(s, t, i);
    var j :| 0 <= j <= |t| - |u| && OccursAt(t, u, j);
    forall k | 0 <= k < |u|
      ensures s[i + j + k] == u[k]
    {
      assert s[i + j + k] == s[i..i + |t|][j + k] == t[j + k];
      assert t[j + k] == t[j..j + |u|][k];
    }
    assert s[i + j..i + j + |u|] == u;
    assert OccursAt(s, u, i + j);
  }

  /** Appending the missing statements leaves a body that fires and completes. */
  lemma AppendedBody(before: seq<string>, added: seq<string>, subj: string)
    requires added == Missing(BodyText(before), subj)
    ensures Contains(BodyText(before + added), NextText(subj))
    ensures Contains(BodyText(before + added), CompleteText(subj))
  {
    var body := BodyText(before);
    if added == [] {
      assert before + added == before;
    } else {
      if before == [] {
        assert before + added == added;
      } else {
        JoinConcat(before, added, "\n");
      }
      var all := before + added;
      if Contains(body, NextText(subj)) {
        KeptText(before, added, NextText(subj));
      } else {
        assert NextStatement(subj) in all;
        StatementHasText(all, subj, NextStatement(subj), NextText(subj), ";");
      }
      if Contains(body, CompleteText(subj)) {
        KeptText(before, added, CompleteText(subj));
      } else {
        assert CompleteStatement(subj) in all;
        StatementHasText(all, subj, CompleteStatement(subj), CompleteText(subj), ";");
      }
    }
  }

  /** Text in the original body is still in the body after appending statements. */
  lemma KeptText(before: seq<string>, added: seq<string>, text: string)
    requires Contains(BodyText(before), text)
    ensures Contains(BodyText(before + added), text)
  {
    if before != [] && added != [] {
      JoinConcat(before, added, "\n");
      ContainsExtend(BodyText(before), "\n" + BodyText(added), text);
      assert BodyText(before) + ("\n" + BodyText(added)) == BodyText(before + added);
    } else if before == [] {
      assert Contains([], text);
      assert text == [];
      assert OccursAt(BodyText(before + added), text, 0);
    } else {
      assert before + added == before;
    }
  }

  /** A second synchronization finds nothing to do. */
  lemma SyncIdempotent(imports: seq<ImportDecl>, cls: Class, subj: string)
    ensures var once := Sync(imports, cls, subj);
      Sync(once.imports, once.cls, subj) == Synced(once.cls, once.imports, false)
  {
  }
}
