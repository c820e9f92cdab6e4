/** The `ActionResponseTypeAnalyzer` rule: for one identifier node of a C# file it
    decides whether to report nothing, an AttributeMissing warning at the call
    site, or a TypeMismatch warning at the `ResponseType` attribute.

    `Analyze` is the decision as a function; `AnalyzeCreateResponseCall` is the
    source's sequence of early returns, writing into the host's diagnostic sink.
    `AnalyzeAsWritten` keeps the three places where the source throws instead of
    returning; `Analyze` returns there as the rule's own tests and design expect. */
module ResponseTypeAnalyzer {
  import opened Wrappers
  import opened Text
  import opened Syntax
  import opened Diagnostics

  /** Identifier text that makes a node worth resolving. */
  const CreateResponseName := "CreateResponse"
  /** Prefix of the resolved method's `ToString()` for the API the rule checks. */
  const CreateResponsePrefix := "System.Net.Http.HttpRequestMessage.CreateResponse"
  const AttributeSuffix := "Attribute"
  /** `System.Web.Http.Description.ResponseTypeAttribute`, the full name of the
      attribute that declares an action's response type. */
  const ResponseTypeAttributeName := "System.Web.Http.Description" + ['.'] + ("ResponseType" + AttributeSuffix)

  // ---------------------------------------------------------------------------
  // Steps 1 and 2: is this a call of HttpRequestMessage.CreateResponse?

  /** The type arguments of the resolved method when `site` is an identifier
      `CreateResponse` that resolves to a method whose `ToString()` starts with
      `CreateResponsePrefix`; nothing otherwise. */
  function CallTypeArguments(t: Tree, site: nat): (r: Option<seq<TypeRef>>)
    requires site < |t.nodes|
    ensures r.Some? <==>
      t.nodes[site].kind == IdentifierName && t.nodes[site].text == CreateResponseName &&
      t.nodes[site].symbol.Some? && t.nodes[site].symbol.value.MethodSymbol? &&
      StartsWith(t.nodes[site].symbol.value.display, CreateResponsePrefix)
    ensures r.Some? ==> r.value == t.nodes[site].symbol.value.typeArguments
  {
    var n := t.nodes[site];
    if n.kind != IdentifierName || n.text != CreateResponseName then None
    else match n.symbol
      case Some(MethodSymbol(display, typeArguments, _, _)) =>
        if StartsWith(display, CreateResponsePrefix) then Some(typeArguments) else None
      case _ => None
  }

  // ---------------------------------------------------------------------------
  // Step 4: the enclosing method.

  /** The nearest ancestor-or-self of `n` that is a method declaration. */
  function NearestMethod(t: Tree, n: nat): (r: Option<nat>)
    requires t.Valid() && n < |t.nodes|
    decreases n
    ensures r.Some? ==> r.value <= n && r.value in Ancestors(t, n) && t.nodes[r.value].kind == MethodDeclaration
  {
    if t.nodes[n].kind == MethodDeclaration then Some(n)
    else match t.nodes[n].parent
      case None => None
      case Some(p) => NearestMethod(t, p)
  }

  /** `NearestMethod` finds the first method declaration on the way from `n` to the
      root (see `FirstOfKind`), and nothing exactly when there is none on that way. */
  lemma {:induction false} NearestMethodIsNearest(t: Tree, n: nat)
    requires t.Valid() && n < |t.nodes|
    decreases n
    ensures NearestMethod(t, n) == FirstOfKind(t, Ancestors(t, n), MethodDeclaration)
  {
    var a := Ancestors(t, n);
    if t.nodes[n].kind != MethodDeclaration && t.nodes[n].parent.Some? {
      var p := t.nodes[n].parent.value;
      assert a[1..] == Ancestors(t, p);
      NearestMethodIsNearest(t, p);
    }
  }

  /** `GetCurrentMethod`: walk from the identifier up through its parents until a
      method declaration is met; nothing when the root is passed. */
  method GetCurrentMethod(t: Tree, identifierName: nat) returns (m: Option<nat>)
    requires t.Valid() && identifierName < |t.nodes|
    ensures m == NearestMethod(t, identifierName)
  {
    var sn: nat := identifierName;
    while t.nodes[sn].kind != MethodDeclaration
      invariant sn < |t.nodes|
      invariant NearestMethod(t, sn) == NearestMethod(t, identifierName)
      decreases sn
    {
      match t.nodes[sn].parent {
        case None =>
          return None;
        case Some(p) =>
          sn := p;
      }
    }
    return Some(sn);
  }

  // ---------------------------------------------------------------------------
  // Step 5: only public instance methods are actions.

  /** The enclosing method of `site` when it is a public, non-static method. */
  function ActionMethod(t: Tree, site: nat): (r: Option<nat>)
    requires t.Valid() && site < |t.nodes|
    ensures r.Some? ==> (r == NearestMethod(t, site) &&
      !t.nodes[r.value].symbol.value.isStatic && t.nodes[r.value].symbol.value.access == Public)
    ensures r.None? ==> (NearestMethod(t, site).None? ||
      t.nodes[NearestMethod(t, site).value].symbol.value.isStatic ||
      t.nodes[NearestMethod(t, site).value].symbol.value.access != Public)
  {
    match NearestMethod(t, site)
    case None => None
    case Some(m) =>
      var declared := t.nodes[m].symbol.value;
      if declared.isStatic || declared.access != Public then None else Some(m)
  }

  // ---------------------------------------------------------------------------
  // Step 6: the ResponseType attributes of the method.

  /** The two names an attribute may be written with: the last dot segment of its
      full name, and that segment less its final nine characters. */
  function ShortNames(fullName: string): (r: (string, string))
    requires |LastSegment(fullName, '.')| >= |AttributeSuffix|
    ensures r.0 == LastSegment(fullName, '.') && EndsWith(fullName, r.0) && '.' !in r.0
    ensures |r.1| == |r.0| - |AttributeSuffix| && r.0[..|r.1|] == r.1
  {
    var name := LastSegment(fullName, '.');
    (name, name[..|name| - |AttributeSuffix|])
  }

  /** The source strips the full name `System.Web.Http.Description.ResponseTypeAttribute`
      to `ResponseTypeAttribute` and `ResponseType`. */
  lemma ResponseTypeShortNames()
    ensures |LastSegment(ResponseTypeAttributeName, '.')| >= |AttributeSuffix|
    ensures ShortNames(ResponseTypeAttributeName) == ("ResponseTypeAttribute", "ResponseType")
  {
    var name := "ResponseType" + AttributeSuffix;
    assert '.' !in name;
    LastSegmentAfterSeparator("System.Web.Http.Description", '.', name);
    assert name[..|name| - |AttributeSuffix|] == "ResponseType";
    assert name == "ResponseTypeAttribute";
  }

  /** An attribute's written name ends with the short name or the full last segment. */
  predicate NameMatches(text: string, names: (string, string))
  {
    EndsWith(text, names.1) || EndsWith(text, names.0)
  }

  /** `a` is the first attribute of attribute list `l`. */
  predicate FirstAttributeOf(t: Tree, l: nat, a: nat)
  {
    l < |t.nodes| && t.nodes[l].kind == AttributeList && GoDown(t, Some(l), Attribute) == Some(a)
  }

  /** `a` is the first attribute of one of the attribute lists `lists`, and its
      written name matches one of `names`. */
  predicate IsCandidate(t: Tree, lists: seq<nat>, a: nat, names: (string, string))
  {
    a < |t.nodes| && t.nodes[a].parent.Some? && t.nodes[a].parent.value in lists &&
    FirstAttributeOf(t, t.nodes[a].parent.value, a) && NameMatches(t.nodes[a].text, names)
  }

  /** A candidate of `lists` comes either from its first list or from the others. */
  lemma CandidateOfFirstOrRest(t: Tree, lists: seq<nat>, names: (string, string), a: nat)
    requires |lists| > 0
    ensures IsCandidate(t, lists, a, names) <==>
      IsCandidate(t, lists[1..], a, names) ||
      (lists[0] < |t.nodes| && t.nodes[lists[0]].kind == AttributeList &&
       GoDown(t, Some(lists[0]), Attribute) == Some(a) && NameMatches(t.nodes[a].text, names))
  {
    assert forall x :: x in lists <==> x == lists[0] || x in lists[1..];
  }

  /** The first attribute of attribute list `l`, when its name matches `names`. */
  function ListCandidate(t: Tree, l: nat, names: (string, string)): (r: Option<nat>)
    requires l < |t.nodes|
    ensures r.Some? ==> r.value < |t.nodes| && t.nodes[r.value].kind == Attribute && NameMatches(t.nodes[r.value].text, names)
  {
    if t.nodes[l].kind != AttributeList then None
    else match GoDown(t, Some(l), Attribute)
      case None => None
      case Some(a) => if NameMatches(t.nodes[a].text, names) then Some(a) else None
  }

  /** The first attribute of each attribute list in `lists` whose name matches `names`. */
  function AttributeCandidates(t: Tree, lists: seq<nat>, names: (string, string)): (cs: seq<nat>)
    requires forall i :: 0 <= i < |lists| ==> lists[i] < |t.nodes|
    ensures |cs| <= |lists|
    ensures forall i :: 0 <= i < |cs| ==> cs[i] < |t.nodes| && t.nodes[cs[i]].kind == Attribute && NameMatches(t.nodes[cs[i]].text, names)
  {
    if |lists| == 0 then []
    else
      var first := match ListCandidate(t, lists[0], names) case Some(a) => [a] case None => [];
      first + AttributeCandidates(t, lists[1..], names)
  }

  /** The candidates are exactly the first attributes, with a matching name, of the lists in `lists`. */
  lemma {:induction false} AttributeCandidatesMember(t: Tree, lists: seq<nat>, names: (string, string), a: nat)
    requires forall i :: 0 <= i < |lists| ==> lists[i] < |t.nodes|
    ensures a in AttributeCandidates(t, lists, names) <==> IsCandidate(t, lists, a, names)
  {
    if |lists| > 0 {
      AttributeCandidatesMember(t, lists[1..], names, a);
      CandidateOfFirstOrRest(t, lists, names, a);
    }
  }

  /** No element of `s` occurs twice. */
  predicate Distinct(s: seq<nat>)
  {
    forall i, j :: 0 <= i < j < |s| ==> s[i] != s[j]
  }

  lemma DistinctPrepend(a: nat, s: seq<nat>)
    requires Distinct(s) && a !in s
    ensures Distinct([a] + s)
  {
    var r := [a] + s;
    forall i, j | 0 <= i < j < |r| ensures r[i] != r[j] {
      assert r[j] == s[j - 1];
      if i > 0 {
        assert r[i] == s[i - 1];
      } else {
        assert s[j - 1] in s;
      }
    }
  }

  /** Attribute lists given in source order yield each candidate once. */
  lemma {:induction false} AttributeCandidatesDistinct(t: Tree, lists: seq<nat>, names: (string, string))
    requires forall i :: 0 <= i < |lists| ==> lists[i] < |t.nodes|
    requires forall i, j :: 0 <= i < j < |lists| ==> lists[i] < lists[j]
    ensures Distinct(AttributeCandidates(t, lists, names))
  {
    if |lists| > 0 {
      var rest := AttributeCandidates(t, lists[1..], names);
      AttributeCandidatesDistinct(t, lists[1..], names);
      var cs := AttributeCandidates(t, lists, names);
      match ListCandidate(t, lists[0], names)
      case None =>
        assert cs == rest;
      case Some(a) =>
        assert cs == [a] + rest;
        assert t.nodes[a].parent == Some(lists[0]);
        AttributeCandidatesMember(t, lists[1..], names, a);
        assert lists[0] !in lists[1..] by {
          assert forall x :: x in lists[1..] ==> lists[0] < x;
        }
        DistinctPrepend(a, rest);
    }
  }

  /** An attribute paired with the `ToString()` of the constructor it resolves to (`ctor`). */
  datatype AttributeMatch = AttributeMatch(attribute: nat, ctor: string)

  /** The attributes of a list of matches, in order. */
  function Attributes(ms: seq<AttributeMatch>): (r: seq<nat>)
    ensures |r| == |ms| && forall k :: 0 <= k < |ms| ==> r[k] == ms[k].attribute
  {
    if |ms| == 0 then [] else [ms[0].attribute] + Attributes(ms[1..])
  }

  /** Attribute `a` resolves to a constructor whose `ToString()` starts with `fullName`. */
  predicate ConstructorMatches(t: Tree, a: nat, fullName: string)
  {
    a < |t.nodes| && t.nodes[a].symbol.Some? && t.nodes[a].symbol.value.MethodSymbol? &&
    StartsWith(t.nodes[a].symbol.value.display, fullName)
  }

  /** The candidates whose constructor matches, paired with that constructor's
      `ToString()`; a candidate that resolves to no constructor is dropped (the
      source throws there, see `KeepConstructorMatchesAsWritten`). */
  function KeepConstructorMatches(t: Tree, cs: seq<nat>, fullName: string): (ms: seq<AttributeMatch>)
    ensures forall k :: 0 <= k < |ms| ==>
      ConstructorMatches(t, ms[k].attribute, fullName) &&
      ms[k].ctor == t.nodes[ms[k].attribute].symbol.value.display
  {
    if |cs| == 0 then []
    else
      var a := cs[0];
      var first := if ConstructorMatches(t, a, fullName) then [AttributeMatch(a, t.nodes[a].symbol.value.display)] else [];
      first + KeepConstructorMatches(t, cs[1..], fullName)
  }

  /** The matches are exactly the candidates whose constructor matches. */
  lemma {:induction false} KeepConstructorMatchesMember(t: Tree, cs: seq<nat>, fullName: string, a: nat)
    ensures a in Attributes(KeepConstructorMatches(t, cs, fullName)) <==> a in cs && ConstructorMatches(t, a, fullName)
  {
    if |cs| > 0 {
      KeepConstructorMatchesMember(t, cs[1..], fullName, a);
      var rest := KeepConstructorMatches(t, cs[1..], fullName);
      var ms := KeepConstructorMatches(t, cs, fullName);
      assert cs == [cs[0]] + cs[1..];
      if ConstructorMatches(t, cs[0], fullName) {
        assert Attributes(ms) == [cs[0]] + Attributes(rest);
      } else {
        assert ms == rest;
      }
    }
  }

  /** Distinct candidates yield distinct matches. */
  lemma {:induction false} KeepConstructorMatchesDistinct(t: Tree, cs: seq<nat>, fullName: string)
    requires Distinct(cs)
    ensures Distinct(Attributes(KeepConstructorMatches(t, cs, fullName)))
  {
    if |cs| > 0 {
      assert Distinct(cs[1..]);
      KeepConstructorMatchesDistinct(t, cs[1..], fullName);
      var rest := KeepConstructorMatches(t, cs[1..], fullName);
      var ms := KeepConstructorMatches(t, cs, fullName);
      if ConstructorMatches(t, cs[0], fullName) {
        assert Attributes(ms) == [cs[0]] + Attributes(rest);
        KeepConstructorMatchesMember(t, cs[1..], fullName, cs[0]);
        assert cs[0] !in cs[1..];
        DistinctPrepend(cs[0], Attributes(rest));
      } else {
        assert ms == rest;
      }
    }
  }

  /** `a` is a `ResponseType` attribute of method `m` as the source recognises one:
      the first attribute of one of `m`'s attribute lists, written with a name
      ending in one of the short names, resolving to a constructor of `fullName`. */
  predicate IsResponseTypeAttribute(t: Tree, m: nat, a: nat, fullName: string)
    requires |LastSegment(fullName, '.')| >= |AttributeSuffix|
  {
    a < |t.nodes| && t.nodes[a].parent.Some? && FirstAttributeOf(t, t.nodes[a].parent.value, a) &&
    t.nodes[t.nodes[a].parent.value].parent == Some(m) &&
    NameMatches(t.nodes[a].text, ShortNames(fullName)) && ConstructorMatches(t, a, fullName)
  }

  /** One attribute is among the matches exactly when it is a `ResponseType` attribute of `m`. */
  lemma GetAttributesMember(t: Tree, m: nat, fullName: string, a: nat)
    requires |LastSegment(fullName, '.')| >= |AttributeSuffix|
    ensures a in Attributes(GetAttributes(t, m, fullName)) <==> IsResponseTypeAttribute(t, m, a, fullName)
  {
    var names := ShortNames(fullName);
    var lists := Children(t, m);
    var cs := AttributeCandidates(t, lists, names);
    assert GetAttributes(t, m, fullName) == KeepConstructorMatches(t, cs, fullName);
    KeepConstructorMatchesMember(t, cs, fullName, a);
    AttributeCandidatesMember(t, lists, names, a);
    assert IsCandidate(t, lists, a, names) && ConstructorMatches(t, a, fullName) <==>
      IsResponseTypeAttribute(t, m, a, fullName);
  }

  /** `GetAttributes`: the attributes of method `m` recognised as `fullName`, each once
      (see `GetAttributesMember`). */
  function GetAttributes(t: Tree, m: nat, fullName: string): (ms: seq<AttributeMatch>)
    requires |LastSegment(fullName, '.')| >= |AttributeSuffix|
    ensures Distinct(Attributes(ms))
  {
    var lists := Children(t, m);
    var cs := AttributeCandidates(t, lists, ShortNames(fullName));
    AttributeCandidatesDistinct(t, lists, ShortNames(fullName));
    KeepConstructorMatchesDistinct(t, cs, fullName);
    KeepConstructorMatches(t, cs, fullName)
  }

  /** `a` is the one and only attribute of `m` recognised as `fullName`. */
  ghost predicate UniqueAttribute(t: Tree, m: nat, a: nat, fullName: string)
    requires |LastSegment(fullName, '.')| >= |AttributeSuffix|
  {
    IsResponseTypeAttribute(t, m, a, fullName) &&
    forall b: nat :: IsResponseTypeAttribute(t, m, b, fullName) ==> b == a
  }

  /** The source's exact-count test: one match exactly when one attribute is recognised. */
  lemma SingleMatchIffUnique(t: Tree, m: nat, fullName: string)
    requires |LastSegment(fullName, '.')| >= |AttributeSuffix|
    ensures |GetAttributes(t, m, fullName)| == 1 <==> exists a: nat :: UniqueAttribute(t, m, a, fullName)
  {
    var ms := GetAttributes(t, m, fullName);
    var attrs := Attributes(ms);
    if |ms| == 1 {
      var a := attrs[0];
      GetAttributesMember(t, m, fullName, a);
      forall b: nat | IsResponseTypeAttribute(t, m, b, fullName) ensures b == a {
        GetAttributesMember(t, m, fullName, b);
        assert attrs == [a];
      }
      assert UniqueAttribute(t, m, a, fullName);
    } else if |ms| == 0 {
      forall a: nat ensures !UniqueAttribute(t, m, a, fullName) {
        GetAttributesMember(t, m, fullName, a);
      }
    } else {
      var a, b := attrs[0], attrs[1];
      GetAttributesMember(t, m, fullName, a);
      GetAttributesMember(t, m, fullName, b);
      forall x: nat ensures !UniqueAttribute(t, m, x, fullName) {
        if x == a {
          assert IsResponseTypeAttribute(t, m, b, fullName) && b != x;
        } else {
          assert IsResponseTypeAttribute(t, m, a, fullName) && a != x;
        }
      }
    }
  }

  // ---------------------------------------------------------------------------
  // Step 8: the type named by typeof(...) in the attribute.

  /** `attribute.GoDown(AttributeArgumentList).GoDown(AttributeArgument).GoDown(TypeOfExpression)`. */
  function TypeOfExpressionOf(t: Tree, attribute: nat): (r: Option<nat>)
    ensures r.Some? ==> TypeOfPath(t, attribute, r.value)
  {
    GoDown(t, GoDown(t, GoDown(t, Some(attribute), AttributeArgumentList), AttributeArgument), TypeOfExpression)
  }

  /** `x` is a typeof expression below an argument below an argument list below `attribute`. */
  predicate TypeOfPath(t: Tree, attribute: nat, x: nat)
  {
    x < |t.nodes| && t.nodes[x].kind == TypeOfExpression && t.nodes[x].parent.Some? &&
    var argument := t.nodes[x].parent.value;
    argument < |t.nodes| && t.nodes[argument].kind == AttributeArgument && t.nodes[argument].parent.Some? &&
    var list := t.nodes[argument].parent.value;
    list < |t.nodes| && t.nodes[list].kind == AttributeArgumentList && t.nodes[list].parent == Some(attribute)
  }

  predicate ResolvesToType(t: Tree, n: nat)
    requires n < |t.nodes|
  {
    t.nodes[n].symbol.Some? && t.nodes[n].symbol.value.TypeSymbol?
  }

  /** The type symbol of the first node of `cs` that resolves to a type. */
  function FirstResolvedType(t: Tree, cs: seq<nat>): (r: Option<TypeRef>)
    requires forall i :: 0 <= i < |cs| ==> cs[i] < |t.nodes|
    ensures r.None? <==> forall i :: 0 <= i < |cs| ==> !ResolvesToType(t, cs[i])
    ensures r.Some? ==> exists i :: 0 <= i < |cs| && t.nodes[cs[i]].symbol == Some(TypeSymbol(r.value)) &&
                                     forall j :: 0 <= j < i ==> !ResolvesToType(t, cs[j])
  {
    if |cs| == 0 then None
    else if ResolvesToType(t, cs[0]) then Some(t.nodes[cs[0]].symbol.value.typeRef)
    else
      var r := FirstResolvedType(t, cs[1..]);
      assert forall i :: 1 <= i < |cs| ==> cs[i] == cs[1..][i - 1];
      r
  }

  /** `GetResponseTypeType`: the first type resolved among the children of the
      attribute's typeof expression (see `DeclaredTypeIsFirstResolvedChild`); nothing
      when there is no such expression (the source throws there, see
      `GetResponseTypeTypeAsWritten`). */
  function GetResponseTypeType(t: Tree, attribute: nat): (r: Option<TypeRef>)
    ensures TypeOfExpressionOf(t, attribute).None? ==> r.None?
  {
    match TypeOfExpressionOf(t, attribute)
    case None => None
    case Some(x) => FirstResolvedType(t, Children(t, x))
  }

  /** With a typeof expression `x` in the attribute, the declared type is the type
      symbol of the first child of `x` that resolves to a type, and there is none
      exactly when no child does. */
  lemma DeclaredTypeIsFirstResolvedChild(t: Tree, attribute: nat, x: nat)
    requires TypeOfExpressionOf(t, attribute) == Some(x)
    ensures GetResponseTypeType(t, attribute).None? <==> forall c: nat :: c in Children(t, x) ==> !ResolvesToType(t, c)
    ensures GetResponseTypeType(t, attribute).Some? ==>
      exists i :: 0 <= i < |Children(t, x)| &&
        t.nodes[Children(t, x)[i]].symbol == Some(TypeSymbol(GetResponseTypeType(t, attribute).value)) &&
        forall j :: 0 <= j < i ==> !ResolvesToType(t, Children(t, x)[j])
  {
    var cs := Children(t, x);
    assert forall c: nat :: c in cs ==> exists i :: 0 <= i < |cs| && cs[i] == c;
  }

  // ---------------------------------------------------------------------------
  // The whole decision.

  /** `site` is a call of `CreateResponse` whose first type argument is `actual`,
      inside the public instance method `m`: the calls the rule goes on to check. */
  predicate CheckedCall(t: Tree, site: nat, actual: TypeRef, m: nat)
    requires t.Valid() && site < |t.nodes|
  {
    CallTypeArguments(t, site).Some? && |CallTypeArguments(t, site).value| > 0 &&
    CallTypeArguments(t, site).value[0] == actual && ActionMethod(t, site) == Some(m)
  }

  /** The diagnostics the rule reports for identifier node `site`: none for an
      identifier other than `CreateResponse`, for a call that does not resolve to
      `HttpRequestMessage.CreateResponse`, outside a method, or in a static or
      non-public method; at most one otherwise. */
  function Analyze(t: Tree, site: nat): (r: seq<Diagnostic>)
    requires t.Valid() && site < |t.nodes|
    ensures |r| <= 1
    ensures t.nodes[site].kind != IdentifierName || t.nodes[site].text != CreateResponseName ==> r == []
    ensures (!(t.nodes[site].symbol.Some? && t.nodes[site].symbol.value.MethodSymbol? &&
               StartsWith(t.nodes[site].symbol.value.display, CreateResponsePrefix))) ==> r == []
    ensures NearestMethod(t, site).None? ==> r == []
    ensures (NearestMethod(t, site).Some? &&
             (t.nodes[NearestMethod(t, site).value].symbol.value.isStatic ||
              t.nodes[NearestMethod(t, site).value].symbol.value.access != Public)) ==> r == []
    ensures r != [] ==> exists actual: TypeRef, m: nat :: CheckedCall(t, site, actual, m)
  {
    match CallTypeArguments(t, site)
    case None => []
    case Some(typeArguments) =>
      if |typeArguments| == 0 then []
      else
        match ActionMethod(t, site)
        case None => []
        case Some(m) =>
          assert CheckedCall(t, site, typeArguments[0], m);
          CheckAction(t, site, typeArguments[0], m)
  }

  /** Steps 6 to 9 for the action `m` enclosing call `site`, whose first type
      argument is `actual`. */
  function CheckAction(t: Tree, site: nat, actual: TypeRef, m: nat): (r: seq<Diagnostic>)
    ensures |r| <= 1
  {
    ResponseTypeShortNames();
    Verdict(t, site, actual, GetAttributes(t, m, ResponseTypeAttributeName))
  }

  /** Steps 7 to 9: AttributeMissing at the call unless exactly one attribute was
      recognised; otherwise the comparison with that attribute's declared type. */
  function Verdict(t: Tree, site: nat, actual: TypeRef, matches: seq<AttributeMatch>): (r: seq<Diagnostic>)
    ensures |r| <= 1
    ensures r == [AttributeMissingAt(site)] <==> |matches| != 1
  {
    if |matches| != 1 then [AttributeMissingAt(site)]
    else CompareDeclared(t, matches[0].attribute, actual)
  }

  /** Step 9: a TypeMismatch at the attribute exactly when its declared type
      resolves and differs by metadata name from the actual one. */
  function CompareDeclared(t: Tree, attribute: nat, actual: TypeRef): (r: seq<Diagnostic>)
    ensures r != [] <==> GetResponseTypeType(t, attribute).Some? && GetResponseTypeType(t, attribute).value.name != actual.name
    ensures r != [] ==> r == [TypeMismatchAt(attribute, GetResponseTypeType(t, attribute).value, actual)]
  {
    match GetResponseTypeType(t, attribute)
    case None => []
    case Some(declared) =>
      if declared.name != actual.name then [TypeMismatchAt(attribute, declared, actual)] else []
  }

  /** `a` is the one `ResponseType` attribute of method `m`. */
  ghost predicate UniqueResponseType(t: Tree, m: nat, a: nat)
  {
    ResponseTypeShortNames();
    UniqueAttribute(t, m, a, ResponseTypeAttributeName)
  }

  /** Steps 6 to 9 report AttributeMissing at the call exactly when the action has
      not exactly one `ResponseType` attribute, and otherwise compare that
      attribute's declared type with the actual one. */
  lemma CheckActionDecision(t: Tree, site: nat, actual: TypeRef, m: nat)
    ensures CheckAction(t, site, actual, m) == [AttributeMissingAt(site)] <==> !exists a: nat :: UniqueResponseType(t, m, a)
    ensures forall a: nat :: UniqueResponseType(t, m, a) ==> CheckAction(t, site, actual, m) == CompareDeclared(t, a, actual)
  {
    ResponseTypeShortNames();
    var ms := GetAttributes(t, m, ResponseTypeAttributeName);
    assert CheckAction(t, site, actual, m) == Verdict(t, site, actual, ms);
    SingleMatchIffUnique(t, m, ResponseTypeAttributeName);
    if |ms| != 1 {
      forall a: nat ensures !UniqueResponseType(t, m, a) {
        assert !UniqueAttribute(t, m, a, ResponseTypeAttributeName);
      }
    } else {
      var u := ms[0].attribute;
      assert u in Attributes(ms);
      GetAttributesMember(t, m, ResponseTypeAttributeName, u);
      forall a: nat | UniqueResponseType(t, m, a) ensures a == u {
        assert UniqueAttribute(t, m, a, ResponseTypeAttributeName);
      }
      var w :| UniqueAttribute(t, m, w, ResponseTypeAttributeName);
      assert UniqueResponseType(t, m, w);
    }
  }

  /** For a checked call, the rule reports what the attribute check of its action decides. */
  lemma AnalyzeCheckedCall(t: Tree, site: nat, actual: TypeRef, m: nat)
    requires t.Valid() && site < |t.nodes|
    requires CheckedCall(t, site, actual, m)
    ensures Analyze(t, site) == CheckAction(t, site, actual, m)
  {
  }

  /** What the rule reports for a checked call (see `CheckActionDecision`). */
  lemma AnalyzeDecision(t: Tree, site: nat, actual: TypeRef, m: nat)
    requires t.Valid() && site < |t.nodes|
    requires CheckedCall(t, site, actual, m)
    ensures Analyze(t, site) == [AttributeMissingAt(site)] <==> !exists a: nat :: UniqueResponseType(t, m, a)
    ensures forall a: nat :: UniqueResponseType(t, m, a) ==> Analyze(t, site) == CompareDeclared(t, a, actual)
  {
    AnalyzeCheckedCall(t, site, actual, m);
    CheckActionDecision(t, site, actual, m);
  }

  // ---------------------------------------------------------------------------
  // The decision procedure as written, with its three exceptions.

  /** Where the source throws: `First()` on an empty type-argument list, `ToString()`
      on a null constructor symbol, `ChildNodes()` on a null typeof expression. */
  datatype Fault = EmptyTypeArguments | UnresolvedAttributeConstructor | MissingTypeOfExpression

  /** The outcome of one analysis: the diagnostics reported, or an exception. */
  datatype Outcome = Completed(reported: seq<Diagnostic>) | Crashed(fault: Fault)

  /** Lines 132-135 as written: every candidate's constructor symbol is dereferenced. */
  function KeepConstructorMatchesAsWritten(t: Tree, cs: seq<nat>, fullName: string): (r: Result<seq<AttributeMatch>, Fault>)
    requires forall i :: 0 <= i < |cs| ==> cs[i] < |t.nodes|
    ensures r.Failure? <==> exists i :: 0 <= i < |cs| && !(t.nodes[cs[i]].symbol.Some? && t.nodes[cs[i]].symbol.value.MethodSymbol?)
    ensures r.Failure? ==> r.error == UnresolvedAttributeConstructor
    ensures r.Success? ==> r.value == KeepConstructorMatches(t, cs, fullName)
  {
    if |cs| == 0 then Success([])
    else
      var a := cs[0];
      assert forall i :: 1 <= i < |cs| ==> cs[i] == cs[1..][i - 1];
      match t.nodes[a].symbol
      case Some(MethodSymbol(display, _, _, _)) =>
        (match KeepConstructorMatchesAsWritten(t, cs[1..], fullName)
         case Failure(f) => Failure(f)
         case Success(rest) =>
           Success(if StartsWith(display, fullName) then [AttributeMatch(a, display)] + rest else rest))
      case _ => Failure(UnresolvedAttributeConstructor)
  }

  /** Lines 138-148 as written: a missing typeof expression is dereferenced. */
  function GetResponseTypeTypeAsWritten(t: Tree, attribute: nat): (r: Result<Option<TypeRef>, Fault>)
    ensures r.Failure? <==> TypeOfExpressionOf(t, attribute).None?
    ensures r.Failure? ==> r.error == MissingTypeOfExpression
    ensures r.Success? ==> r.value == GetResponseTypeType(t, attribute)
  {
    match TypeOfExpressionOf(t, attribute)
    case None => Failure(MissingTypeOfExpression)
    case Some(x) => Success(FirstResolvedType(t, Children(t, x)))
  }

  /** `AnalyzeCreateResponseCall` as written. */
  function AnalyzeAsWritten(t: Tree, site: nat): (r: Outcome)
    requires t.Valid() && site < |t.nodes|
    ensures r == Crashed(EmptyTypeArguments) <==> CallTypeArguments(t, site) == Some([])
    ensures r.Crashed? && r.fault != EmptyTypeArguments ==>
      exists actual: TypeRef, m: nat :: CheckedCall(t, site, actual, m)
    ensures r.Completed? ==> |r.reported| <= 1
  {
    match CallTypeArguments(t, site)
    case None => Completed([])
    case Some(typeArguments) =>
      if |typeArguments| == 0 then Crashed(EmptyTypeArguments)
      else
        match ActionMethod(t, site)
        case None => Completed([])
        case Some(m) =>
          assert CheckedCall(t, site, typeArguments[0], m);
          CheckActionAsWritten(t, site, typeArguments[0], m)
  }

  /** Steps 6 to 9 as written. */
  function CheckActionAsWritten(t: Tree, site: nat, actual: TypeRef, m: nat): (r: Outcome)
    ensures r.Crashed? ==> r.fault != EmptyTypeArguments
    ensures r.Completed? ==> |r.reported| <= 1
  {
    ResponseTypeShortNames();
    var cs := AttributeCandidates(t, Children(t, m), ShortNames(ResponseTypeAttributeName));
    match KeepConstructorMatchesAsWritten(t, cs, ResponseTypeAttributeName)
    case Failure(f) => Crashed(f)
    case Success(matches) => VerdictAsWritten(t, site, actual, matches)
  }

  /** Steps 7 to 9 as written. */
  function VerdictAsWritten(t: Tree, site: nat, actual: TypeRef, matches: seq<AttributeMatch>): (r: Outcome)
    ensures |matches| != 1 ==> r == Completed([AttributeMissingAt(site)])
    ensures r.Crashed? <==> |matches| == 1 && TypeOfExpressionOf(t, matches[0].attribute).None?
    ensures r.Crashed? ==> r.fault == MissingTypeOfExpression
    ensures r.Completed? ==> |r.reported| <= 1
  {
    if |matches| != 1 then Completed([AttributeMissingAt(site)])
    else
      var attribute := matches[0].attribute;
      match GetResponseTypeTypeAsWritten(t, attribute)
      case Failure(f) => Crashed(f)
      case Success(None) => Completed([])
      case Success(Some(declared)) =>
        Completed(if declared.name != actual.name then [TypeMismatchAt(attribute, declared, actual)] else [])
  }

  /** The verdict as written throws only on a missing typeof expression, where the
      corrected verdict reports nothing; otherwise the two agree. */
  lemma VerdictAgrees(t: Tree, site: nat, actual: TypeRef, matches: seq<AttributeMatch>)
    ensures VerdictAsWritten(t, site, actual, matches).Completed? ==>
      VerdictAsWritten(t, site, actual, matches).reported == Verdict(t, site, actual, matches)
    ensures VerdictAsWritten(t, site, actual, matches).Crashed? ==>
      VerdictAsWritten(t, site, actual, matches).fault == MissingTypeOfExpression &&
      Verdict(t, site, actual, matches) == []
  {
  }

  /** Steps 6 to 9 as written either throw on an unresolved constructor, or throw on
      a missing typeof expression where the corrected steps report nothing, or agree. */
  lemma CheckActionAgrees(t: Tree, site: nat, actual: TypeRef, m: nat)
    ensures CheckActionAsWritten(t, site, actual, m).Completed? ==>
      CheckActionAsWritten(t, site, actual, m).reported == CheckAction(t, site, actual, m)
    ensures CheckActionAsWritten(t, site, actual, m) == Crashed(MissingTypeOfExpression) ==>
      CheckAction(t, site, actual, m) == []
    ensures CheckActionAsWritten(t, site, actual, m) != Crashed(EmptyTypeArguments)
  {
    ResponseTypeShortNames();
    var cs := AttributeCandidates(t, Children(t, m), ShortNames(ResponseTypeAttributeName));
    var kept := KeepConstructorMatchesAsWritten(t, cs, ResponseTypeAttributeName);
    if kept.Success? {
      assert kept.value == GetAttributes(t, m, ResponseTypeAttributeName);
      VerdictAgrees(t, site, actual, kept.value);
    }
  }

  /** Wherever the source completes, `Analyze` reports what it reports; where it
      throws on a non-generic call or a missing typeof expression, `Analyze` reports nothing. */
  lemma AsWrittenAgreesWhenCompleted(t: Tree, site: nat)
    requires t.Valid() && site < |t.nodes|
    ensures AnalyzeAsWritten(t, site).Completed? ==> AnalyzeAsWritten(t, site).reported == Analyze(t, site)
    ensures AnalyzeAsWritten(t, site) == Crashed(EmptyTypeArguments) ==> Analyze(t, site) == []
    ensures AnalyzeAsWritten(t, site) == Crashed(MissingTypeOfExpression) ==> Analyze(t, site) == []
  {
    match CallTypeArguments(t, site)
    case None =>
    case Some(typeArguments) =>
      if |typeArguments| > 0 {
        match ActionMethod(t, site)
        case None =>
        case Some(m) => CheckActionAgrees(t, site, typeArguments[0], m);
      }
  }

  // ---------------------------------------------------------------------------
  // The host's view: a context whose sink collects reported diagnostics.

  /** `SyntaxNodeAnalysisContext`: the node being visited, the tree it belongs to
      (with its semantic model), and the diagnostics reported so far. */
  class AnalysisContext {
    const tree: Tree
    const node: nat
    var reported: seq<Diagnostic>

    constructor (tree: Tree, node: nat)
      ensures this.tree == tree && this.node == node && reported == []
    {
      this.tree := tree;
      this.node := node;
      reported := [];
    }

    /** `ReportDiagnostic`: append to the sink. */
    method ReportDiagnostic(d: Diagnostic)
      modifies this
      ensures reported == old(reported) + [d]
    {
      reported := reported + [d];
    }
  }

  /** `AnalyzeCreateResponseCall`: the early-return sequence of the source; it
      appends to the sink exactly the diagnostics `Analyze` decides on. */
  method AnalyzeCreateResponseCall(context: AnalysisContext)
    requires context.tree.Valid() && context.node < |context.tree.nodes|
    modifies context
    ensures context.reported == old(context.reported) + Analyze(context.tree, context.node)
  {
    var t, identifierName := context.tree, context.node;
    var n := t.nodes[identifierName];
    if n.kind != IdentifierName || n.text != CreateResponseName {
      return;
    }
    if !(n.symbol.Some? && n.symbol.value.MethodSymbol?) || !StartsWith(n.symbol.value.display, CreateResponsePrefix) {
      return;
    }
    var typeArguments := n.symbol.value.typeArguments;
    if |typeArguments| == 0 {
      return;
    }
    var actualResponseType := typeArguments[0];

    var currentMethod := GetCurrentMethod(t, identifierName);
    if currentMethod.None? {
      return;
    }
    var currentMethodSymbol := t.nodes[currentMethod.value].symbol.value;
    if currentMethodSymbol.isStatic || currentMethodSymbol.access != Public {
      return;
    }

    AnalyzeCheckedCall(t, identifierName, actualResponseType, currentMethod.value);

    ResponseTypeShortNames();
    var attributesInSemantics := GetAttributes(t, currentMethod.value, ResponseTypeAttributeName);
    if |attributesInSemantics| != 1 {
      context.ReportDiagnostic(AttributeMissingAt(identifierName));
      return;
    }
    var theAttribute := attributesInSemantics[0];

    var declaredType := GetResponseTypeType(t, theAttribute.attribute);
    if declaredType.None? {
      return;
    }
    if declaredType.value.name != actualResponseType.name {
      context.ReportDiagnostic(TypeMismatchAt(theAttribute.attribute, declaredType.value, actualResponseType));
    }
  }
}
