/** The slice of a TypeScript source file the subscription rewriter looks at
    (src/add-takeuntil/index.ts): classes with their decorators, `implements`
    clause, properties, `ngOnDestroy` statements and call expressions, and the
    file's named imports. */
module Syntax {
  import opened Base
  import opened Text
  import Splice

  /** An argument of a call: a property access `<target>.<name>`, or anything else. */
  datatype Arg = PropertyAccess(target: string, name: string) | OtherArg(text: string)

  /** The receiver of a `.subscribe` call: a `<source>.pipe(<args>)` call, or any
      other expression, kept as its text. */
  datatype Expr = PipeCall(source: string, args: seq<string>) | Other(text: string)

  /** A call expression: its callee is a property access (`<receiver>.<member>(…)`),
      a bare identifier (`<callee>(…)`), or something else. */
  datatype Call =
    | MethodCall(receiver: Expr, member: string, args: seq<Arg>)
    | FunctionCall(callee: string, args: seq<Arg>)
    | OtherCall(text: string)

  /** A property declaration: its name, the text of its type annotation and of its
      initializer (empty when absent), and whether it is `private`. */
  datatype Property = Property(name: string, typeText: string, initText: string, isPrivate: bool)

  /** A class: decorator names, the texts of its `implements` clauses, its
      properties in declaration order, the statements of `ngOnDestroy` when the
      class has that method, and every call expression inside the class in
      document order. */
  datatype Class = Class(
    name: string,
    decorators: seq<string>,
    implements: seq<string>,
    props: seq<Property>,
    hook: Option<seq<string>>,
    calls: seq<Call>)

  /** An import declaration with its module specifier and named imports. */
  datatype ImportDecl = ImportDecl(specifier: string, names: seq<string>)

  /** A source file: its import declarations and its top-level classes. */
  datatype SourceFile = SourceFile(imports: seq<ImportDecl>, classes: seq<Class>)

  /** The printed text of a receiver; a pipe call's arguments are separated by `, `. */
  function ExprText(e: Expr): string {
    match e
    case PipeCall(source, args) => source + Splice.PipeOpen + Join(args, ", ") + ")"
    case Other(text) => text
  }

  /** The text of a method body: its statements, one per line. */
  function BodyText(stmts: seq<string>): string {
    Join(stmts, "\n")
  }

  /** `isSubscribe`: the callee is a property access whose name is `subscribe`. */
  predicate IsSubscribe(c: Call) {
    c.MethodCall? && c.member == "subscribe"
  }

  /** `hasSubscribeCalls`: some call inside the class is a `.subscribe` call. */
  predicate HasSubscribeCalls(cls: Class) {
    exists i :: 0 <= i < |cls.calls| && IsSubscribe(cls.calls[i])
  }

  /** The decorators that mark an Angular class. */
  const NgDecorators: seq<string> := ["Component", "Directive", "Pipe", "Injectable"]

  /** Some decorator of the class is one of the Angular ones. */
  predicate IsNgClass(cls: Class) {
    exists d :: d in cls.decorators && d in NgDecorators
  }

  /** `findNgClasses`: the Angular classes of a file, in declaration order. */
  function FindNgClasses(classes: seq<Class>): (r: seq<Class>)
    ensures forall c :: c in r <==> c in classes && IsNgClass(c)
    ensures |r| <= |classes|
  {
    if classes == [] then []
    else (if IsNgClass(classes[0]) then [classes[0]] else []) + FindNgClasses(classes[1..])
  }

  /** The filter keeps the order of the file: the Angular classes of two stretches
      of classes come out one stretch after the other. */
  lemma {:induction false} FindNgClassesConcat(a: seq<Class>, b: seq<Class>)
    ensures FindNgClasses(a + b) == FindNgClasses(a) + FindNgClasses(b)
  {
    if a == [] {
      assert a + b == b;
    } else {
      assert (a + b)[0] == a[0];
      assert (a + b)[1..] == a[1..] + b;
      FindNgClassesConcat(a[1..], b);
    }
  }

  /** A class whose only decorator is `@Component` is selected; one decorated only
      by a non-Angular decorator is not. */
  lemma FindNgClassesExample(cls: Class)
    ensures FindNgClasses([cls.(decorators := ["Component"])]) == [cls.(decorators := ["Component"])]
    ensures FindNgClasses([cls.(decorators := ["Custom"])]) == []
  {
    var c := cls.(decorators := ["Custom"]);
    assert !IsNgClass(c) by {
      assert forall d :: d in c.decorators ==> d == "Custom";
      assert "Custom" !in NgDecorators by {
        assert "Custom"[1] != "Component"[1];
        assert "Custom"[0] != "Directive"[0];
        assert "Custom"[0] != "Pipe"[0];
        assert "Custom"[0] != "Injectable"[0];
      }
    }
    assert "Component" in NgDecorators;
  }
}
