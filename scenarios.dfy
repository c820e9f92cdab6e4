/** Concrete actions, written as syntax trees with their semantic model, and what
    the rule reports for their `CreateResponse` calls: the outcomes the analyzer's
    tests expect, and the inputs on which the analyzer as written throws. Each
    tree is rooted at the action's method declaration; the enclosing class and
    namespace play no part in the rule. */
module AnalyzerScenarios {
  import opened Wrappers
  import opened Text
  import opened Syntax
  import opened Diagnostics
  import opened ResponseTypeAnalyzer

  const Int32 := TypeRef("Int32", "int")
  const Double := TypeRef("Double", "double")
  const String := TypeRef("String", "string")

  /** `ToString()` of the `ResponseType` attribute's constructor. */
  const ResponseTypeConstructor := MethodSymbol(ResponseTypeAttributeName + "(System.Type)", [], false, Public)

  /** A `Request.CreateResponse(...)` overload with the given type arguments. */
  function CreateResponseCall(typeArguments: seq<TypeRef>): Symbol
  {
    MethodSymbol(CreateResponsePrefix + "(...)", typeArguments, true, Public)
  }

  /** The action `GetAsync`, with its accessibility and static flag. */
  function GetAsync(access: Accessibility, isStatic: bool): Node
  {
    Node(MethodDeclaration, None, "GetAsync", Some(MethodSymbol("GetAsync(Guid)", [], isStatic, access)))
  }

  /** One `CreateResponse` identifier per call, all in the body at node `body`. */
  function Calls(body: nat, calls: seq<Symbol>): (r: seq<Node>)
    ensures |r| == |calls|
    ensures forall i :: 0 <= i < |calls| ==> r[i] == Node(IdentifierName, Some(body), "CreateResponse", Some(calls[i]))
  {
    if |calls| == 0 then []
    else [Node(IdentifierName, Some(body), "CreateResponse", Some(calls[0]))] + Calls(body, calls[1..])
  }

  // ---------------------------------------------------------------------------
  // A public instance action with one attribute.

  /** `[ResponseType(typeof(<declared>))]` on the public instance action `GetAsync`
      (node 0), whose body (node 7) holds one `Request.CreateResponse(...)` per
      element of `calls` (nodes 8 on). The attribute is node 2, its constructor
      `ctor`; its argument is a typeof expression when `typeofArgument`, and
      something else, such as `null`, otherwise. */
  function Annotated(ctor: Option<Symbol>, typeofArgument: bool, declared: TypeRef, calls: seq<Symbol>): Tree
  {
    Tree([
      GetAsync(Public, false),
      Node(AttributeList, Some(0), "", None),
      Node(Attribute, Some(1), "ResponseType", ctor),
      Node(AttributeArgumentList, Some(2), "", None),
      Node(AttributeArgument, Some(3), "", None),
      Node(if typeofArgument then TypeOfExpression else OtherSyntax, Some(4), "", None),
      Node(OtherSyntax, Some(5), declared.display, Some(TypeSymbol(declared))),
      Node(OtherSyntax, Some(0), "", None)
    ] + Calls(7, calls))
  }

  /** The parent of each node of `Annotated`. */
  function AnnotatedParent(c: nat): Option<nat>
  {
    if c == 0 then None else if c <= 6 then Some(c - 1) else if c == 7 then Some(0) else Some(7)
  }

  lemma AnnotatedParents(ctor: Option<Symbol>, typeofArgument: bool, declared: TypeRef, calls: seq<Symbol>)
    ensures |Annotated(ctor, typeofArgument, declared, calls).nodes| == 8 + |calls|
    ensures forall c: nat :: c < |Annotated(ctor, typeofArgument, declared, calls).nodes| ==>
      Annotated(ctor, typeofArgument, declared, calls).nodes[c].parent == AnnotatedParent(c)
  {
  }

  lemma AnnotatedShape(ctor: Option<Symbol>, typeofArgument: bool, declared: TypeRef, calls: seq<Symbol>)
    ensures Annotated(ctor, typeofArgument, declared, calls).Valid()
    ensures Children(Annotated(ctor, typeofArgument, declared, calls), 0) == [1, 7]
    ensures Children(Annotated(ctor, typeofArgument, declared, calls), 1) == [2]
  {
    var t := Annotated(ctor, typeofArgument, declared, calls);
    AnnotatedParents(ctor, typeofArgument, declared, calls);
    ChildrenExactly(t, 0, [1, 7]);
    ChildrenExactly(t, 1, [2]);
  }

  /** The argument structure of the attribute: one child per level. */
  lemma AnnotatedArgumentShape(ctor: Option<Symbol>, typeofArgument: bool, declared: TypeRef, calls: seq<Symbol>)
    ensures Children(Annotated(ctor, typeofArgument, declared, calls), 2) == [3]
    ensures Children(Annotated(ctor, typeofArgument, declared, calls), 3) == [4]
    ensures Children(Annotated(ctor, typeofArgument, declared, calls), 4) == [5]
    ensures Children(Annotated(ctor, typeofArgument, declared, calls), 5) == [6]
  {
    var t := Annotated(ctor, typeofArgument, declared, calls);
    AnnotatedParents(ctor, typeofArgument, declared, calls);
    ChildrenExactly(t, 2, [3]);
    ChildrenExactly(t, 3, [4]);
    ChildrenExactly(t, 4, [5]);
    ChildrenExactly(t, 5, [6]);
  }

  /** The path from the attribute to its declared type. */
  lemma AnnotatedDeclaredType(ctor: Option<Symbol>, typeofArgument: bool, declared: TypeRef, calls: seq<Symbol>)
    ensures TypeOfExpressionOf(Annotated(ctor, typeofArgument, declared, calls), 2) ==
      if typeofArgument then Some(5) else None
    ensures GetResponseTypeType(Annotated(ctor, typeofArgument, declared, calls), 2) ==
      if typeofArgument then Some(declared) else None
  {
    var t := Annotated(ctor, typeofArgument, declared, calls);
    AnnotatedArgumentShape(ctor, typeofArgument, declared, calls);
    assert t.nodes[3].kind == AttributeArgumentList;
    assert t.nodes[4].kind == AttributeArgument;
    assert t.nodes[5].kind == (if typeofArgument then TypeOfExpression else OtherSyntax);
    assert t.nodes[6].symbol == Some(TypeSymbol(declared));
    assert GoDown(t, Some(2), AttributeArgumentList) == Some(3);
    assert GoDown(t, Some(3), AttributeArgument) == Some(4);
    if typeofArgument {
      assert GoDown(t, Some(4), TypeOfExpression) == Some(5);
      assert FirstResolvedType(t, [6]) == Some(declared);
    } else {
      assert GoDown(t, Some(4), TypeOfExpression) == None;
    }
  }

  /** The candidates on `GetAsync`: its one attribute, whose name matches. */
  lemma AnnotatedCandidates(ctor: Option<Symbol>, typeofArgument: bool, declared: TypeRef, calls: seq<Symbol>)
    ensures AttributeCandidates(Annotated(ctor, typeofArgument, declared, calls),
                                Children(Annotated(ctor, typeofArgument, declared, calls), 0),
                                ("ResponseTypeAttribute", "ResponseType")) == [2]
  {
    var t := Annotated(ctor, typeofArgument, declared, calls);
    AnnotatedShape(ctor, typeofArgument, declared, calls);
    EndsWithAppend("", "ResponseType");
    assert ListCandidate(t, 1, ("ResponseTypeAttribute", "ResponseType")) == Some(2);
    assert ListCandidate(t, 7, ("ResponseTypeAttribute", "ResponseType")) == None;
    assert [1, 7][1..] == [7];
    assert [7][1..] == [];
    assert AttributeCandidates(t, [7], ("ResponseTypeAttribute", "ResponseType")) == [];
  }

  /** With the `ResponseType` constructor resolved, the one attribute of `GetAsync`
      is recognised. */
  lemma AnnotatedMatches(typeofArgument: bool, declared: TypeRef, calls: seq<Symbol>)
    ensures GetAttributes(Annotated(Some(ResponseTypeConstructor), typeofArgument, declared, calls), 0,
                          ResponseTypeAttributeName) == [AttributeMatch(2, ResponseTypeConstructor.display)]
  {
    var t := Annotated(Some(ResponseTypeConstructor), typeofArgument, declared, calls);
    assert t.nodes[2].symbol == Some(ResponseTypeConstructor);
    ResponseTypeShortNames();
    AnnotatedCandidates(Some(ResponseTypeConstructor), typeofArgument, declared, calls);
    StartsWithAppend(ResponseTypeAttributeName, "(System.Type)");
    var cs := AttributeCandidates(t, Children(t, 0), ShortNames(ResponseTypeAttributeName));
    assert cs == [2];
    assert ConstructorMatches(t, 2, ResponseTypeAttributeName);
    assert [2][1..] == [];
    assert KeepConstructorMatches(t, [], ResponseTypeAttributeName) == [];
    assert KeepConstructorMatches(t, cs, ResponseTypeAttributeName) == [AttributeMatch(2, ResponseTypeConstructor.display)] + [];
  }

  /** Call `k` resolves to `CreateResponse` with type arguments `[actual]` inside the
      public instance action `GetAsync`. */
  lemma AnnotatedCallResolves(ctor: Option<Symbol>, typeofArgument: bool, declared: TypeRef, calls: seq<Symbol>, k: nat, actual: TypeRef)
    requires k < |calls| && calls[k] == CreateResponseCall([actual])
    ensures Annotated(ctor, typeofArgument, declared, calls).Valid()
    ensures 8 + k < |Annotated(ctor, typeofArgument, declared, calls).nodes|
    ensures CallTypeArguments(Annotated(ctor, typeofArgument, declared, calls), 8 + k) == Some([actual])
    ensures ActionMethod(Annotated(ctor, typeofArgument, declared, calls), 8 + k) == Some(0)
  {
    var t := Annotated(ctor, typeofArgument, declared, calls);
    AnnotatedShape(ctor, typeofArgument, declared, calls);
    assert t.nodes[0] == GetAsync(Public, false);
    StartsWithAppend(CreateResponsePrefix, "(...)");
    assert t.nodes[8 + k] == Node(IdentifierName, Some(7), "CreateResponse", Some(calls[k]));
    assert NearestMethod(t, 7) == Some(0);
  }

  /** So the call is checked against `GetAsync`'s attributes. */
  lemma AnnotatedAction(ctor: Option<Symbol>, typeofArgument: bool, declared: TypeRef, calls: seq<Symbol>, k: nat, actual: TypeRef)
    requires k < |calls| && calls[k] == CreateResponseCall([actual])
    ensures Annotated(ctor, typeofArgument, declared, calls).Valid()
    ensures 8 + k < |Annotated(ctor, typeofArgument, declared, calls).nodes|
    ensures Analyze(Annotated(ctor, typeofArgument, declared, calls), 8 + k) ==
      CheckAction(Annotated(ctor, typeofArgument, declared, calls), 8 + k, actual, 0)
  {
    AnnotatedCallResolves(ctor, typeofArgument, declared, calls, k, actual);
  }

  /** And so it is in the source as written. */
  lemma AnnotatedActionAsWritten(ctor: Option<Symbol>, typeofArgument: bool, declared: TypeRef, calls: seq<Symbol>, k: nat, actual: TypeRef)
    requires k < |calls| && calls[k] == CreateResponseCall([actual])
    ensures Annotated(ctor, typeofArgument, declared, calls).Valid()
    ensures 8 + k < |Annotated(ctor, typeofArgument, declared, calls).nodes|
    ensures AnalyzeAsWritten(Annotated(ctor, typeofArgument, declared, calls), 8 + k) ==
      CheckActionAsWritten(Annotated(ctor, typeofArgument, declared, calls), 8 + k, actual, 0)
  {
    AnnotatedCallResolves(ctor, typeofArgument, declared, calls, k, actual);
  }

  /** What the rule reports for call `k` of `GetAsync` when the `ResponseType`
      constructor resolves: a TypeMismatch at the attribute exactly when the
      argument is a typeof expression whose type differs by name from `actual`. */
  lemma AnnotatedOutcome(typeofArgument: bool, declared: TypeRef, calls: seq<Symbol>, k: nat, actual: TypeRef)
    requires k < |calls| && calls[k] == CreateResponseCall([actual])
    ensures Annotated(Some(ResponseTypeConstructor), typeofArgument, declared, calls).Valid()
    ensures 8 + k < |Annotated(Some(ResponseTypeConstructor), typeofArgument, declared, calls).nodes|
    ensures Analyze(Annotated(Some(ResponseTypeConstructor), typeofArgument, declared, calls), 8 + k) ==
      if typeofArgument && declared.name != actual.name then [TypeMismatchAt(2, declared, actual)] else []
  {
    var t := Annotated(Some(ResponseTypeConstructor), typeofArgument, declared, calls);
    AnnotatedAction(Some(ResponseTypeConstructor), typeofArgument, declared, calls, k, actual);
    AnnotatedMatches(typeofArgument, declared, calls);
    AnnotatedDeclaredType(Some(ResponseTypeConstructor), typeofArgument, declared, calls);
    ResponseTypeShortNames();
    assert CheckAction(t, 8 + k, actual, 0) == CompareDeclared(t, 2, actual);
  }

  /** `BasicFunctionality.cs`, `ProperAnnotationsShouldNotThrowErrors`: `typeof(int)`
      and `CreateResponse(5)` agree. This is also
      `ProperAnnotationsShouldNotThrowErrorsForExplicitTypeName`: `typeof(System.Int32)`
      resolves to the same type symbol as `typeof(int)`, so the two actions are
      the same input to the rule. */
  lemma ProperAnnotation()
    ensures Analyze(Annotated(Some(ResponseTypeConstructor), true, Int32, [CreateResponseCall([Int32])]), 8) == []
  {
    AnnotatedOutcome(true, Int32, [CreateResponseCall([Int32])], 0, Int32);
  }

  /** `WrongAnnotationsShouldThrowError`: `typeof(int)` but `CreateResponse(5.0)`
      reports one TypeMismatch, at the attribute, naming `int` and then `double`. */
  lemma WrongAnnotation()
    ensures Analyze(Annotated(Some(ResponseTypeConstructor), true, Int32, [CreateResponseCall([Double])]), 8) ==
      [TypeMismatchAt(2, Int32, Double)]
  {
    AnnotatedOutcome(true, Int32, [CreateResponseCall([Double])], 0, Double);
  }

  /** `ReportedGenericTypeNamesAreNicelyFormatted`: `typeof(List<int>)` against
      `CreateResponse(5.0)`; the message shows the declared type as `List<int>`. */
  lemma GenericTypeName()
    ensures Analyze(Annotated(Some(ResponseTypeConstructor), true, TypeRef("List", "List<int>"), [CreateResponseCall([Double])]), 8) ==
      [TypeMismatchAt(2, TypeRef("List", "List<int>"), Double)]
  {
    AnnotatedOutcome(true, TypeRef("List", "List<int>"), [CreateResponseCall([Double])], 0, Double);
  }

  /** `MultipleIssuesAreReported`: `typeof(int)` on an action with the calls
      `CreateResponse("allo")` (node 8) and `CreateResponse(5.0)` (node 9). */
  function TwoCalls(): Tree
  {
    Annotated(Some(ResponseTypeConstructor), true, Int32, [CreateResponseCall([String]), CreateResponseCall([Double])])
  }

  /** Each call is checked on its own: the first reports a TypeMismatch naming `string`... */
  lemma MultipleIssuesFirst()
    ensures Analyze(TwoCalls(), 8) == [TypeMismatchAt(2, Int32, String)]
  {
    AnnotatedOutcome(true, Int32, [CreateResponseCall([String]), CreateResponseCall([Double])], 0, String);
  }

  /** ... and the second one naming `double`, both at the one attribute. */
  lemma MultipleIssuesSecond()
    ensures Analyze(TwoCalls(), 9) == [TypeMismatchAt(2, Int32, Double)]
  {
    AnnotatedOutcome(true, Int32, [CreateResponseCall([String]), CreateResponseCall([Double])], 1, Double);
  }

  /** The candidate attribute of `GetAsync`, whose constructor is unresolved. */
  lemma UnresolvedCandidates(typeofArgument: bool, declared: TypeRef, calls: seq<Symbol>)
    ensures AttributeCandidates(Annotated(None, typeofArgument, declared, calls), Children(Annotated(None, typeofArgument, declared, calls), 0),
                                ShortNames(ResponseTypeAttributeName)) == [2]
    ensures Annotated(None, typeofArgument, declared, calls).nodes[2].symbol == None
  {
    ResponseTypeShortNames();
    AnnotatedCandidates(None, typeofArgument, declared, calls);
  }

  /** With the constructor unresolved, the corrected rule recognises no attribute. */
  lemma UnresolvedCheck(typeofArgument: bool, declared: TypeRef, calls: seq<Symbol>, site: nat, actual: TypeRef)
    ensures CheckAction(Annotated(None, typeofArgument, declared, calls), site, actual, 0) == [AttributeMissingAt(site)]
  {
    var t := Annotated(None, typeofArgument, declared, calls);
    UnresolvedCandidates(typeofArgument, declared, calls);
    ResponseTypeShortNames();
    assert !ConstructorMatches(t, 2, ResponseTypeAttributeName);
    assert [2][1..] == [];
    assert KeepConstructorMatches(t, [], ResponseTypeAttributeName) == [];
    assert GetAttributes(t, 0, ResponseTypeAttributeName) == [];
  }

  /** With the constructor unresolved, the source as written throws. */
  lemma UnresolvedCheckAsWritten(typeofArgument: bool, declared: TypeRef, calls: seq<Symbol>, site: nat, actual: TypeRef)
    ensures CheckActionAsWritten(Annotated(None, typeofArgument, declared, calls), site, actual, 0) ==
      Crashed(UnresolvedAttributeConstructor)
  {
    var t := Annotated(None, typeofArgument, declared, calls);
    UnresolvedCandidates(typeofArgument, declared, calls);
    ResponseTypeShortNames();
    var cs := AttributeCandidates(t, Children(t, 0), ShortNames(ResponseTypeAttributeName));
    assert t.nodes[cs[0]].symbol == None;
  }

  /** What the rule reports for call `k` of `GetAsync` when the attribute's
      constructor does not resolve: AttributeMissing at the call, whatever the
      attribute declares. */
  lemma UnresolvedOutcome(typeofArgument: bool, declared: TypeRef, calls: seq<Symbol>, k: nat, actual: TypeRef)
    requires k < |calls| && calls[k] == CreateResponseCall([actual])
    ensures Annotated(None, typeofArgument, declared, calls).Valid()
    ensures 8 + k < |Annotated(None, typeofArgument, declared, calls).nodes|
    ensures Analyze(Annotated(None, typeofArgument, declared, calls), 8 + k) == [AttributeMissingAt(8 + k)]
  {
    AnnotatedAction(None, typeofArgument, declared, calls, k, actual);
    UnresolvedCheck(typeofArgument, declared, calls, 8 + k, actual);
  }

  /** On the same actions the source as written throws. */
  lemma UnresolvedOutcomeAsWritten(typeofArgument: bool, declared: TypeRef, calls: seq<Symbol>, k: nat, actual: TypeRef)
    requires k < |calls| && calls[k] == CreateResponseCall([actual])
    ensures Annotated(None, typeofArgument, declared, calls).Valid()
    ensures 8 + k < |Annotated(None, typeofArgument, declared, calls).nodes|
    ensures AnalyzeAsWritten(Annotated(None, typeofArgument, declared, calls), 8 + k) == Crashed(UnresolvedAttributeConstructor)
  {
    AnnotatedActionAsWritten(None, typeofArgument, declared, calls, k, actual);
    UnresolvedCheckAsWritten(typeofArgument, declared, calls, 8 + k, actual);
  }

  /** `[ResponseType(typeof(int))]` whose constructor does not resolve (its assembly
      is not referenced, say) is no `ResponseType` attribute to the rule, which
      reports AttributeMissing at `CreateResponse(5.0)`. */
  lemma UnresolvedConstructor()
    ensures Analyze(Annotated(None, true, Int32, [CreateResponseCall([Double])]), 8) == [AttributeMissingAt(8)]
  {
    UnresolvedOutcome(true, Int32, [CreateResponseCall([Double])], 0, Double);
  }

  /** On the same action the source as written throws. */
  lemma UnresolvedConstructorAsWritten()
    ensures AnalyzeAsWritten(Annotated(None, true, Int32, [CreateResponseCall([Double])]), 8) ==
      Crashed(UnresolvedAttributeConstructor)
  {
    UnresolvedOutcomeAsWritten(true, Int32, [CreateResponseCall([Double])], 0, Double);
  }

  /** With the constructor resolved, the source as written recognises the attribute
      too, and so reaches the typeof expression. */
  lemma ResolvedCheckAsWritten(typeofArgument: bool, declared: TypeRef, calls: seq<Symbol>, site: nat, actual: TypeRef)
    ensures CheckActionAsWritten(Annotated(Some(ResponseTypeConstructor), typeofArgument, declared, calls), site, actual, 0) ==
      VerdictAsWritten(Annotated(Some(ResponseTypeConstructor), typeofArgument, declared, calls), site, actual,
                       [AttributeMatch(2, ResponseTypeConstructor.display)])
  {
    var t := Annotated(Some(ResponseTypeConstructor), typeofArgument, declared, calls);
    assert t.nodes[2].symbol == Some(ResponseTypeConstructor);
    AnnotatedMatches(typeofArgument, declared, calls);
    ResponseTypeShortNames();
    AnnotatedCandidates(Some(ResponseTypeConstructor), typeofArgument, declared, calls);
    var cs := AttributeCandidates(t, Children(t, 0), ShortNames(ResponseTypeAttributeName));
    assert cs == [2];
    assert KeepConstructorMatchesAsWritten(t, cs, ResponseTypeAttributeName).Success?;
  }

  /** When the attribute's argument is no typeof expression, the source as
      written throws on every call of `GetAsync`. */
  lemma NoTypeOfOutcomeAsWritten(declared: TypeRef, calls: seq<Symbol>, k: nat, actual: TypeRef)
    requires k < |calls| && calls[k] == CreateResponseCall([actual])
    ensures Annotated(Some(ResponseTypeConstructor), false, declared, calls).Valid()
    ensures 8 + k < |Annotated(Some(ResponseTypeConstructor), false, declared, calls).nodes|
    ensures AnalyzeAsWritten(Annotated(Some(ResponseTypeConstructor), false, declared, calls), 8 + k) ==
      Crashed(MissingTypeOfExpression)
  {
    AnnotatedActionAsWritten(Some(ResponseTypeConstructor), false, declared, calls, k, actual);
    ResolvedCheckAsWritten(false, declared, calls, 8 + k, actual);
    AnnotatedDeclaredType(Some(ResponseTypeConstructor), false, declared, calls);
  }

  /** `[ResponseType(null)]`: the argument is no typeof expression, and the source
      as written throws at `CreateResponse(5.0)`. */
  lemma NullResponseTypeAsWritten()
    ensures AnalyzeAsWritten(Annotated(Some(ResponseTypeConstructor), false, Int32, [CreateResponseCall([Double])]), 8) ==
      Crashed(MissingTypeOfExpression)
  {
    NoTypeOfOutcomeAsWritten(Int32, [CreateResponseCall([Double])], 0, Double);
  }

  /** On the same action the rule reports nothing. */
  lemma NullResponseType()
    ensures Analyze(Annotated(Some(ResponseTypeConstructor), false, Int32, [CreateResponseCall([Double])]), 8) == []
  {
    AnnotatedOutcome(false, Int32, [CreateResponseCall([Double])], 0, Double);
  }

  // ---------------------------------------------------------------------------
  // An action without any attribute.

  /** `GetAsync` with no attribute; its body (node 1) holds the calls (nodes 2 on). */
  function NotAnnotated(access: Accessibility, isStatic: bool, calls: seq<Symbol>): Tree
  {
    Tree([
      GetAsync(access, isStatic),
      Node(OtherSyntax, Some(0), "", None)
    ] + Calls(1, calls))
  }

  /** The parent of each node of `NotAnnotated`. */
  function NotAnnotatedParent(c: nat): Option<nat>
  {
    if c == 0 then None else if c == 1 then Some(0) else Some(1)
  }

  lemma NotAnnotatedParents(access: Accessibility, isStatic: bool, calls: seq<Symbol>)
    ensures |NotAnnotated(access, isStatic, calls).nodes| == 2 + |calls|
    ensures forall c: nat :: c < |NotAnnotated(access, isStatic, calls).nodes| ==>
      NotAnnotated(access, isStatic, calls).nodes[c].parent == NotAnnotatedParent(c)
  {
  }

  lemma NotAnnotatedShape(access: Accessibility, isStatic: bool, calls: seq<Symbol>)
    ensures NotAnnotated(access, isStatic, calls).Valid()
    ensures Children(NotAnnotated(access, isStatic, calls), 0) == [1]
  {
    var t := NotAnnotated(access, isStatic, calls);
    NotAnnotatedParents(access, isStatic, calls);
    ChildrenExactly(t, 0, [1]);
  }

  /** Call `k` of the unannotated `GetAsync` resolves to `CreateResponse` with the
      given type arguments, inside `GetAsync`. */
  lemma NotAnnotatedCall(access: Accessibility, isStatic: bool, calls: seq<Symbol>, k: nat, typeArguments: seq<TypeRef>)
    requires k < |calls| && calls[k] == CreateResponseCall(typeArguments)
    ensures NotAnnotated(access, isStatic, calls).Valid()
    ensures 2 + k < |NotAnnotated(access, isStatic, calls).nodes|
    ensures CallTypeArguments(NotAnnotated(access, isStatic, calls), 2 + k) == Some(typeArguments)
    ensures NearestMethod(NotAnnotated(access, isStatic, calls), 2 + k) == Some(0)
    ensures NotAnnotated(access, isStatic, calls).nodes[0] == GetAsync(access, isStatic)
  {
    var t := NotAnnotated(access, isStatic, calls);
    assert t.nodes[0] == GetAsync(access, isStatic);
    NotAnnotatedShape(access, isStatic, calls);
    StartsWithAppend(CreateResponsePrefix, "(...)");
    assert t.nodes[2 + k] == Node(IdentifierName, Some(1), "CreateResponse", Some(calls[k]));
    assert NearestMethod(t, 1) == Some(0);
  }

  /** The unannotated `GetAsync` has no `ResponseType` attribute. */
  lemma NotAnnotatedCheck(access: Accessibility, isStatic: bool, calls: seq<Symbol>, site: nat, actual: TypeRef)
    ensures CheckAction(NotAnnotated(access, isStatic, calls), site, actual, 0) == [AttributeMissingAt(site)]
  {
    var t := NotAnnotated(access, isStatic, calls);
    NotAnnotatedShape(access, isStatic, calls);
    ResponseTypeShortNames();
    var names := ShortNames(ResponseTypeAttributeName);
    assert ListCandidate(t, 1, names) == None;
    assert [1][1..] == [];
    assert AttributeCandidates(t, [], names) == [];
    assert AttributeCandidates(t, Children(t, 0), names) == [];
    assert KeepConstructorMatches(t, [], ResponseTypeAttributeName) == [];
  }

  /** `NoAnnotationShouldThrowError`: AttributeMissing, at the call. */
  lemma NoAnnotation()
    ensures Analyze(NotAnnotated(Public, false, [CreateResponseCall([Double])]), 2) == [AttributeMissingAt(2)]
  {
    var t := NotAnnotated(Public, false, [CreateResponseCall([Double])]);
    NotAnnotatedCall(Public, false, [CreateResponseCall([Double])], 0, [Double]);
    assert ActionMethod(t, 2) == Some(0);
    AnalyzeCheckedCall(t, 2, Double, 0);
    NotAnnotatedCheck(Public, false, [CreateResponseCall([Double])], 2, Double);
  }

  /** A static or non-public `GetAsync` is no action, so none of its calls is checked. */
  lemma NotAnnotatedNonAction(access: Accessibility, isStatic: bool, calls: seq<Symbol>, k: nat, typeArguments: seq<TypeRef>)
    requires k < |calls| && calls[k] == CreateResponseCall(typeArguments)
    requires isStatic || access != Public
    ensures Analyze(NotAnnotated(access, isStatic, calls), 2 + k) == []
  {
    NotAnnotatedCall(access, isStatic, calls, k, typeArguments);
    var t := NotAnnotated(access, isStatic, calls);
    assert t.nodes[0].symbol.value.isStatic || t.nodes[0].symbol.value.access != Public;
  }

  /** `ControllerActionMethodDetection.cs`, `NonPublicMethodsAreNotActionMethods`
      and `StaticMethodsAreNotActionMethods`: no diagnostic although nothing is annotated. */
  lemma NonActionMethods()
    ensures Analyze(NotAnnotated(Protected, false, [CreateResponseCall([Double])]), 2) == []
    ensures Analyze(NotAnnotated(Public, true, [CreateResponseCall([Double])]), 2) == []
  {
    NotAnnotatedNonAction(Protected, false, [CreateResponseCall([Double])], 0, [Double]);
    NotAnnotatedNonAction(Public, true, [CreateResponseCall([Double])], 0, [Double]);
  }

  /** `NongenericVersionsOfCreateResponseShouldBeIgnored`: the rule reports nothing
      for `Request.CreateResponse()`, but the source as written throws on it. */
  lemma NongenericCall()
    ensures Analyze(NotAnnotated(Public, false, [CreateResponseCall([])]), 2) == []
    ensures AnalyzeAsWritten(NotAnnotated(Public, false, [CreateResponseCall([])]), 2) == Crashed(EmptyTypeArguments)
  {
    NotAnnotatedCall(Public, false, [CreateResponseCall([])], 0, []);
  }

  // ---------------------------------------------------------------------------
  // An action with two `ResponseType` attributes.

  /** `GetAsync` carrying `[ResponseType(...)]` twice, in two attribute lists
      (nodes 1 and 3, attributes 2 and 4), with one call (node 6) in its body (node 5). */
  function TwiceAnnotated(actual: TypeRef): Tree
  {
    Tree([
      GetAsync(Public, false),
      Node(AttributeList, Some(0), "", None),
      Node(Attribute, Some(1), "ResponseType", Some(ResponseTypeConstructor)),
      Node(AttributeList, Some(0), "", None),
      Node(Attribute, Some(3), "ResponseType", Some(ResponseTypeConstructor)),
      Node(OtherSyntax, Some(0), "", None),
      Node(IdentifierName, Some(5), "CreateResponse", Some(CreateResponseCall([actual])))
    ])
  }

  /** The parent of each node of `TwiceAnnotated`. */
  function TwiceAnnotatedParent(c: nat): Option<nat>
  {
    if c == 0 then None else if c == 2 || c == 4 || c == 6 then Some(c - 1) else Some(0)
  }

  lemma TwiceAnnotatedParents(actual: TypeRef)
    ensures |TwiceAnnotated(actual).nodes| == 7
    ensures forall c: nat :: c < 7 ==> TwiceAnnotated(actual).nodes[c].parent == TwiceAnnotatedParent(c)
  {
  }

  lemma TwiceAnnotatedShape(actual: TypeRef)
    ensures TwiceAnnotated(actual).Valid()
    ensures Children(TwiceAnnotated(actual), 0) == [1, 3, 5]
    ensures Children(TwiceAnnotated(actual), 1) == [2]
    ensures Children(TwiceAnnotated(actual), 3) == [4]
  {
    var t := TwiceAnnotated(actual);
    TwiceAnnotatedParents(actual);
    ChildrenExactly(t, 0, [1, 3, 5]);
    ChildrenExactly(t, 1, [2]);
    ChildrenExactly(t, 3, [4]);
  }

  /** Both attributes are candidates. */
  lemma TwiceAnnotatedCandidates(actual: TypeRef)
    ensures AttributeCandidates(TwiceAnnotated(actual), Children(TwiceAnnotated(actual), 0),
                                ("ResponseTypeAttribute", "ResponseType")) == [2, 4]
  {
    var t := TwiceAnnotated(actual);
    var names := ("ResponseTypeAttribute", "ResponseType");
    TwiceAnnotatedShape(actual);
    EndsWithAppend("", "ResponseType");
    assert ListCandidate(t, 1, names) == Some(2);
    assert ListCandidate(t, 3, names) == Some(4);
    assert ListCandidate(t, 5, names) == None;
    assert [1, 3, 5][1..] == [3, 5];
    assert [3, 5][1..] == [5];
    assert [5][1..] == [];
    assert AttributeCandidates(t, [5], names) == [];
  }

  /** Both candidates resolve to the `ResponseType` constructor. */
  lemma TwiceAnnotatedKeep(actual: TypeRef)
    ensures KeepConstructorMatches(TwiceAnnotated(actual), [2, 4], ResponseTypeAttributeName) ==
      [AttributeMatch(2, ResponseTypeConstructor.display), AttributeMatch(4, ResponseTypeConstructor.display)]
  {
    var t := TwiceAnnotated(actual);
    var d := ResponseTypeConstructor.display;
    assert t.nodes[2].symbol == Some(ResponseTypeConstructor);
    assert t.nodes[4].symbol == Some(ResponseTypeConstructor);
    StartsWithAppend(ResponseTypeAttributeName, "(System.Type)");
    assert [2, 4][1..] == [4];
    assert [4][1..] == [];
    assert KeepConstructorMatches(t, [4], ResponseTypeAttributeName) == [AttributeMatch(4, d)] + [];
  }

  /** Both attributes are recognised as `ResponseType`. */
  lemma TwiceAnnotatedMatches(actual: TypeRef)
    ensures |GetAttributes(TwiceAnnotated(actual), 0, ResponseTypeAttributeName)| == 2
  {
    var t := TwiceAnnotated(actual);
    ResponseTypeShortNames();
    TwiceAnnotatedCandidates(actual);
    TwiceAnnotatedKeep(actual);
    assert GetAttributes(t, 0, ResponseTypeAttributeName) == KeepConstructorMatches(t, [2, 4], ResponseTypeAttributeName);
  }

  /** The call resolves to `CreateResponse<actual>` inside the public instance action `GetAsync`. */
  lemma TwiceAnnotatedCall(actual: TypeRef)
    ensures TwiceAnnotated(actual).Valid()
    ensures CallTypeArguments(TwiceAnnotated(actual), 6) == Some([actual])
    ensures ActionMethod(TwiceAnnotated(actual), 6) == Some(0)
  {
    var t := TwiceAnnotated(actual);
    assert t.nodes[0] == GetAsync(Public, false);
    assert t.nodes[6].symbol == Some(CreateResponseCall([actual]));
    TwiceAnnotatedParents(actual);
    TwiceAnnotatedShape(actual);
    StartsWithAppend(CreateResponsePrefix, "(...)");
    assert NearestMethod(t, 5) == Some(0);
  }

  /** Two recognised attributes are not exactly one: the rule reports AttributeMissing
      at the call, whatever the attributes declare. */
  lemma TwoAttributes(actual: TypeRef)
    ensures Analyze(TwiceAnnotated(actual), 6) == [AttributeMissingAt(6)]
  {
    TwiceAnnotatedCall(actual);
    TwiceAnnotatedMatches(actual);
    ResponseTypeShortNames();
  }
}
