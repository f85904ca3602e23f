/** `addImport(sf, name, from)` of src/add-takeuntil/index.ts: make a named import
    available, reusing the first declaration that imports from the module. */
module Imports {
  import opened Base
  import opened Syntax

  /** The first declaration at or after `k` that imports from `specifier`. */
  function FirstDeclFrom(imports: seq<ImportDecl>, specifier: string, k: nat): (r: Option<nat>)
    ensures r.Some? ==> k <= r.value < |imports| && imports[r.value].specifier == specifier
    ensures r.Some? ==> forall j :: k <= j < r.value ==> imports[j].specifier != specifier
    ensures r.None? ==> forall j :: k <= j < |imports| ==> imports[j].specifier != specifier
    decreases |imports| - k
  {
    if k >= |imports| then None
    else if imports[k].specifier == specifier then Some(k)
    else FirstDeclFrom(imports, specifier, k + 1)
  }

  /** `getImportDeclarations().find(...)`: the first declaration importing from
      `specifier`. */
  function FirstDecl(imports: seq<ImportDecl>, specifier: string): (r: Option<nat>)
    ensures r.Some? ==> r.value < |imports| && imports[r.value].specifier == specifier
    ensures r.Some? ==> forall j :: 0 <= j < r.value ==> imports[j].specifier != specifier
    ensures r.None? <==> forall j :: 0 <= j < |imports| ==> imports[j].specifier != specifier
  {
    FirstDeclFrom(imports, specifier, 0)
  }

  /** Some declaration importing from `specifier` names `name`. */
  predicate Imported(imports: seq<ImportDecl>, name: string, specifier: string) {
    exists i :: 0 <= i < |imports| && imports[i].specifier == specifier && name in imports[i].names
  }

  /** No two declarations import from the same module. */
  predicate UniqueSpecifiers(imports: seq<ImportDecl>) {
    forall i, j :: 0 <= i < j < |imports| ==> imports[i].specifier != imports[j].specifier
  }

  /** `addImport`: the first declaration from `specifier` gains `name` unless it
      already has it; with no such declaration, a new one importing just `name` is
      appended. */
  function AddImport(imports: seq<ImportDecl>, name: string, specifier: string): (r: seq<ImportDecl>)
    ensures Imported(r, name, specifier)
    ensures FirstDecl(imports, specifier).Some? ==>
      var i := FirstDecl(imports, specifier).value;
      && |r| == |imports|
      && name in r[i].names
      && forall j :: 0 <= j < |imports| && j != i ==> r[j] == imports[j]
    ensures FirstDecl(imports, specifier).None? ==>
      r == imports + [ImportDecl(specifier, [name])]
    ensures |imports| <= |r| && forall j :: 0 <= j < |imports| ==>
      r[j].specifier == imports[j].specifier && (forall n :: n in imports[j].names ==> n in r[j].names)
    ensures forall j, n :: 0 <= j < |r| && n in r[j].names ==> n == name || (j < |imports| && n in imports[j].names)
    ensures FirstDecl(imports, specifier).Some? && name in imports[FirstDecl(imports, specifier).value].names
      ==> r == imports
    ensures FirstDecl(imports, specifier).Some? && name !in imports[FirstDecl(imports, specifier).value].names
      ==> var i := FirstDecl(imports, specifier).value;
        r[i] == imports[i].(names := imports[i].names + [name])
  {
    match FirstDecl(imports, specifier)
    case None =>
      var r := imports + [ImportDecl(specifier, [name])];
      assert r[|imports|].specifier == specifier && name in r[|imports|].names;
      r
    case Some(i) =>
      if name in imports[i].names then imports
      else
        var r := imports[i := ImportDecl(specifier, imports[i].names + [name])];
        assert r[i].specifier == specifier && name in r[i].names;
        r
  }

  /** The name lands in the first declaration from the module, which stays first. */
  lemma AddImportFirstDecl(imports: seq<ImportDecl>, name: string, specifier: string)
    ensures var r := AddImport(imports, name, specifier);
      && FirstDecl(r, specifier).Some?
      && name in r[FirstDecl(r, specifier).value].names
      && FirstDecl(r, specifier).value == match FirstDecl(imports, specifier)
           case Some(i) => i
           case None => |imports|
  {
    var r := AddImport(imports, name, specifier);
    var i := match FirstDecl(imports, specifier) case Some(i) => i case None => |imports|;
    assert r[i].specifier == specifier;
  }

  /** Asking for the same import twice changes nothing the second time. */
  lemma AddImportIdempotent(imports: seq<ImportDecl>, name: string, specifier: string)
    ensures var once := AddImport(imports, name, specifier);
      AddImport(once, name, specifier) == once
  {
  }

  /** Imports already present stay present. */
  lemma AddImportKeepsImported(imports: seq<ImportDecl>, name: string, specifier: string, n: string, s: string)
    requires Imported(imports, n, s)
    ensures Imported(AddImport(imports, name, specifier), n, s)
  {
    var r := AddImport(imports, name, specifier);
    var i :| 0 <= i < |imports| && imports[i].specifier == s && n in imports[i].names;
    assert r[i].specifier == s && n in r[i].names;
  }

  /** Adding an import adds that import and nothing else. */
  lemma AddImportOnlyAdds(imports: seq<ImportDecl>, name: string, specifier: string)
    ensures forall n, s :: Imported(AddImport(imports, name, specifier), n, s) ==>
      Imported(imports, n, s) || (n == name && s == specifier)
  {
    var r := AddImport(imports, name, specifier);
    forall n, s | Imported(r, n, s)
      ensures Imported(imports, n, s) || (n == name && s == specifier)
    {
      var j :| 0 <= j < |r| && r[j].specifier == s && n in r[j].names;
      if j < |imports| && n in imports[j].names {
        assert imports[j].specifier == s;
      }
    }
  }

  /** No declaration lists a name twice. */
  predicate DistinctNames(imports: seq<ImportDecl>) {
    forall j, a, b :: 0 <= j < |imports| && 0 <= a < b < |imports[j].names| ==>
      imports[j].names[a] != imports[j].names[b]
  }

  /** Adding an import never makes a declaration list a name twice. */
  lemma AddImportKeepsDistinctNames(imports: seq<ImportDecl>, name: string, specifier: string)
    requires DistinctNames(imports)
    ensures DistinctNames(AddImport(imports, name, specifier))
  {
    var r := AddImport(imports, name, specifier);
    forall j, a, b | 0 <= j < |r| && 0 <= a < b < |r[j].names|
      ensures r[j].names[a] != r[j].names[b]
    {
      if j < |imports| && r[j] != imports[j] {
        var i := FirstDecl(imports, specifier).value;
        assert j == i && r[j].names == imports[j].names + [name];
        if b == |imports[j].names| {
          assert r[j].names[a] == imports[j].names[a];
        }
      }
    }
  }

  /** A file with at most one declaration per module keeps that shape. */
  lemma AddImportKeepsUnique(imports: seq<ImportDecl>, name: string, specifier: string)
    requires UniqueSpecifiers(imports)
    ensures UniqueSpecifiers(AddImport(imports, name, specifier))
  {
  }

  /** A name is never listed twice in the declaration it is added to. */
  lemma AddImportNoDuplicateName(imports: seq<ImportDecl>, name: string, specifier: string)
    requires FirstDecl(imports, specifier).Some?
    ensures var i := FirstDecl(imports, specifier).value;
      multiset(AddImport(imports, name, specifier)[i].names)[name]
      == if name in imports[i].names then multiset(imports[i].names)[name] else 1
  {
    var i := FirstDecl(imports, specifier).value;
    if name !in imports[i].names {
      assert name !in multiset(imports[i].names);
    }
  }
}
