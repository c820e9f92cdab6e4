# ActionResponseTypeAnalyzer, modelled in Dafny

`ActionResponseTypeAnalyzer` is a Roslyn diagnostic analyzer for ASP.NET Web API
controllers. It visits every identifier node of a C# file. When the identifier is
a call of `HttpRequestMessage.CreateResponse<T>(...)` inside a public instance
method (an *action*), it looks for the action's
`[System.Web.Http.Description.ResponseType(typeof(X))]` attribute. It then
reports one of three outcomes:

- no diagnostic;
- an *AttributeMissing* warning at the call, when the action does not carry
  exactly one such attribute;
- a *TypeMismatch* warning at the attribute, when `X` and `T` differ by metadata
  name. The warning quotes both display strings.

What the model contains:

- `wrappers.dfy`: the `Option` and `Result` types.
- `text.dfy`: the string operations the analyzer relies on.
  - Ordinal `StartsWith` and `EndsWith`.
  - `Split('.').Last()`.
  - The `{0}`/`{1}` substitution of `String.Format`, with the lemmas that fill
    both message templates.
- `syntax.dfy`: the syntax tree and semantic model as plain data.
  - A tree is an arena of nodes. Each node names its parent by index, and a
    parent comes before its children.
  - Each node has a kind, the text the analyzer reads, and the symbol the
    semantic model resolves it to.
  - `Children` is `ChildNodes()` in source order. `GoDown` is
    `RoslynExtensions.GoDown`.
- `diagnostics.dfy`: the two diagnostic kinds, their message templates, and the
  messages they produce.
- `analyzer.dfy`: the rule itself.
  - `Analyze` is the per-call decision as a function, built step by step from the
    helpers for the enclosing method, the attribute match, the typeof extraction
    and the verdict.
  - `GetCurrentMethod` is the source's parent-walking loop.
  - `AnalyzeCreateResponseCall` is the source's sequence of early returns,
    appending to the sink of an `AnalysisContext`.
  - `AnalyzeAsWritten` keeps the three places where the source throws on the
    inputs the model admits (see `Syntax.Tree.Valid` under "Left out" for a fourth).
- `scenarios.dfy`: concrete actions, as trees, for the analyzer's test cases and
  for the inputs that make the source throw, with what the rule reports for each.

Where the descriptive documentation of the rule and the code differ, the model
follows the code:

- AttributeMissing is also reported when more than one attribute matches.
- TypeMismatch is located at the attribute node, not at the typeof expression.
- Types are compared by metadata `Name` only.
- The `ExceptionalResponseType` exemption is not implemented by the analyzer, so
  it is not modelled.

## Model

Source paths are relative to the repository root. `DiagnosticAnalyzer.cs` is
`ActionResponseTypeAnalyzer/DiagnosticAnalyzer.cs`.

| member | source | states |
|---|---|---|
| Text.LastSegment | ActionResponseTypeAnalyzer/DiagnosticAnalyzer.cs:122 | `Split('.').Last()` is a suffix of the name, holds no separator, and is either the whole name or is preceded by a separator |
| Text.Format | ActionResponseTypeAnalyzer/DiagnosticAnalyzer.cs:95-99 | `String.Format` of a descriptor's template: text without an opening brace is copied unchanged |
| Text.FormatPlaceholder | ActionResponseTypeAnalyzer/DiagnosticAnalyzer.cs:95-99 | a placeholder `{d}` naming an argument is replaced by that argument, and formatting goes on after it |
| Text.FormatLiteralPrefix | ActionResponseTypeAnalyzer/DiagnosticAnalyzer.cs:95-99 | brace-free text before the rest of a template is copied unchanged in front of the formatted rest |
| Text.LastSegmentAfterSeparator | ActionResponseTypeAnalyzer/DiagnosticAnalyzer.cs:122 | whatever precedes the last separator, the last segment is exactly the text after it |
| Diagnostics.TypeMismatchMessage | ActionResponseTypeAnalyzer/DiagnosticAnalyzer.cs:18 | formatting the TypeMismatch template quotes the declared and then the actual display string in the fixed sentence |
| Diagnostics.AttributeMissingMessage | ActionResponseTypeAnalyzer/DiagnosticAnalyzer.cs:26 | the AttributeMissing template has no placeholder, so its message is the template verbatim |
| Diagnostics.TypeMismatchAt | ActionResponseTypeAnalyzer/DiagnosticAnalyzer.cs:95-99 | a TypeMismatch warning located at the attribute, whose message names the declared type's display string and then the actual one's |
| Diagnostics.AttributeMissingAt | ActionResponseTypeAnalyzer/DiagnosticAnalyzer.cs:80 | an AttributeMissing warning located at the call, whose message is the fixed sentence |
| Syntax.Children | ActionResponseTypeAnalyzer/DiagnosticAnalyzer.cs:155 | `ChildNodes()`: exactly the nodes whose parent is the given node, in increasing (source) order |
| Syntax.GoDown | ActionResponseTypeAnalyzer/DiagnosticAnalyzer.cs:153-156 | going down from nothing gives nothing; a result is a child of the given node with the requested kind |
| Syntax.GoDownIsFirstChild | ActionResponseTypeAnalyzer/DiagnosticAnalyzer.cs:153-156 | the result is nothing exactly when no child has the kind, and otherwise no earlier child has it |
| ResponseTypeAnalyzer.CallTypeArguments | ActionResponseTypeAnalyzer/DiagnosticAnalyzer.cs:43-61 | a call's type arguments are taken exactly when the node is an identifier `CreateResponse` resolving to a method whose `ToString()` starts with `System.Net.Http.HttpRequestMessage.CreateResponse`, and are then that method's type arguments |
| ResponseTypeAnalyzer.NearestMethod | ActionResponseTypeAnalyzer/DiagnosticAnalyzer.cs:103-118 | a found node is a method declaration on the path from the start node to the root |
| ResponseTypeAnalyzer.NearestMethodIsNearest | ActionResponseTypeAnalyzer/DiagnosticAnalyzer.cs:103-118 | the enclosing method is the first method declaration on the path from the identifier to the root; there is none exactly when the path has none |
| ResponseTypeAnalyzer.GetCurrentMethod | ActionResponseTypeAnalyzer/DiagnosticAnalyzer.cs:103-118 | the loop over `sn = sn.Parent` ends, with the nearest enclosing method declaration, or null once the root is passed |
| ResponseTypeAnalyzer.ActionMethod | ActionResponseTypeAnalyzer/DiagnosticAnalyzer.cs:64-74 | a call is checked against its enclosing method exactly when that method exists, is not static and is public |
| ResponseTypeAnalyzer.ShortNames | ActionResponseTypeAnalyzer/DiagnosticAnalyzer.cs:122-123 | the first name is the last dot segment of the full name, a dot-free suffix of it; the second is that segment less its last 9 characters |
| ResponseTypeAnalyzer.ResponseTypeShortNames | ActionResponseTypeAnalyzer/DiagnosticAnalyzer.cs:122-123 | the full name yields the short names `ResponseTypeAttribute` and `ResponseType` (last segment, then less its 9-character suffix) |
| ResponseTypeAnalyzer.AttributeCandidates | ActionResponseTypeAnalyzer/DiagnosticAnalyzer.cs:125-130 | at most one candidate per attribute list, each an attribute whose written name ends with one of the short names |
| ResponseTypeAnalyzer.AttributeCandidatesMember | ActionResponseTypeAnalyzer/DiagnosticAnalyzer.cs:125-130 | an attribute is a candidate exactly when it is the first attribute of one of the method's attribute lists and its written name ends with a short name |
| ResponseTypeAnalyzer.AttributeCandidatesDistinct | ActionResponseTypeAnalyzer/DiagnosticAnalyzer.cs:125-130 | attribute lists taken in source order yield each candidate once |
| ResponseTypeAnalyzer.KeepConstructorMatches | ActionResponseTypeAnalyzer/DiagnosticAnalyzer.cs:132-135 | every kept candidate resolves to a constructor whose `ToString()` starts with the full name, and is paired with that string |
| ResponseTypeAnalyzer.KeepConstructorMatchesMember | ActionResponseTypeAnalyzer/DiagnosticAnalyzer.cs:132-135 | the kept attributes are exactly the candidates whose constructor matches |
| ResponseTypeAnalyzer.KeepConstructorMatchesDistinct | ActionResponseTypeAnalyzer/DiagnosticAnalyzer.cs:132-135 | distinct candidates give distinct matches |
| ResponseTypeAnalyzer.GetAttributes | ActionResponseTypeAnalyzer/DiagnosticAnalyzer.cs:120-136 | no attribute is listed twice |
| ResponseTypeAnalyzer.GetAttributesMember | ActionResponseTypeAnalyzer/DiagnosticAnalyzer.cs:120-136 | an attribute is listed exactly when it is a `ResponseType` attribute of the method: first in its list, with a matching written name and a matching constructor |
| ResponseTypeAnalyzer.SingleMatchIffUnique | ActionResponseTypeAnalyzer/DiagnosticAnalyzer.cs:76-78 | the list has exactly one entry exactly when the method has one and only one `ResponseType` attribute |
| ResponseTypeAnalyzer.TypeOfExpressionOf | ActionResponseTypeAnalyzer/DiagnosticAnalyzer.cs:140-143 | a result is a typeof expression whose parent is an attribute argument, whose parent is an argument list, whose parent is the attribute; `GoDownIsFirstChild` states which one is taken at each step |
| ResponseTypeAnalyzer.FirstResolvedType | ActionResponseTypeAnalyzer/DiagnosticAnalyzer.cs:145-147 | the type of the first node that resolves to a type; nothing exactly when none does |
| ResponseTypeAnalyzer.GetResponseTypeType | ActionResponseTypeAnalyzer/DiagnosticAnalyzer.cs:138-148 | without an argument list, argument and typeof expression below the attribute there is no declared type |
| ResponseTypeAnalyzer.DeclaredTypeIsFirstResolvedChild | ActionResponseTypeAnalyzer/DiagnosticAnalyzer.cs:138-148 | with a typeof expression, the declared type is the type of its first child that resolves to one, and there is none exactly when no child resolves |
| ResponseTypeAnalyzer.Verdict | ActionResponseTypeAnalyzer/DiagnosticAnalyzer.cs:78-91 | AttributeMissing at the call exactly when the number of matches is not one; at most one diagnostic |
| ResponseTypeAnalyzer.CompareDeclared | ActionResponseTypeAnalyzer/DiagnosticAnalyzer.cs:86-100 | a diagnostic exactly when the declared type resolves and its `Name` differs from the actual one's; it is then the TypeMismatch at the attribute naming both |
| ResponseTypeAnalyzer.CheckAction | ActionResponseTypeAnalyzer/DiagnosticAnalyzer.cs:76-100 | at most one diagnostic per call |
| ResponseTypeAnalyzer.CheckActionDecision | ActionResponseTypeAnalyzer/DiagnosticAnalyzer.cs:76-100 | AttributeMissing exactly when the action has no unique `ResponseType` attribute; otherwise the comparison with that attribute |
| ResponseTypeAnalyzer.Analyze | ActionResponseTypeAnalyzer/DiagnosticAnalyzer.cs:39-101 | nothing for another identifier, for a symbol that is not `HttpRequestMessage.CreateResponse`, outside a method, or in a static or non-public method; a diagnostic only for a call with a type argument inside an action; at most one |
| ResponseTypeAnalyzer.AnalyzeDecision | ActionResponseTypeAnalyzer/DiagnosticAnalyzer.cs:39-101 | for a checked call: AttributeMissing exactly when the action has no unique `ResponseType` attribute, otherwise the comparison of its declared type with the call's type argument |
| ResponseTypeAnalyzer.AnalysisContext.ReportDiagnostic | ActionResponseTypeAnalyzer/DiagnosticAnalyzer.cs:80 | reporting appends the diagnostic to the sink |
| ResponseTypeAnalyzer.AnalyzeCreateResponseCall | ActionResponseTypeAnalyzer/DiagnosticAnalyzer.cs:39-101 | the early-return sequence appends to the sink exactly what `Analyze` decides, and nothing else |
| ResponseTypeAnalyzer.KeepConstructorMatchesAsWritten | ActionResponseTypeAnalyzer/DiagnosticAnalyzer.cs:132-135 | as written, the filter throws exactly when some candidate has no constructor symbol; otherwise it keeps what the corrected filter keeps |
| ResponseTypeAnalyzer.GetResponseTypeTypeAsWritten | ActionResponseTypeAnalyzer/DiagnosticAnalyzer.cs:140-145 | as written, the extraction throws exactly when there is no typeof expression; otherwise it gives the corrected result |
| ResponseTypeAnalyzer.AnalyzeAsWritten | ActionResponseTypeAnalyzer/DiagnosticAnalyzer.cs:39-101 | the source as written throws at `First()` exactly when the call resolves to `CreateResponse` with no type argument; it throws elsewhere only for a checked call inside an action; otherwise it reports at most one diagnostic |
| ResponseTypeAnalyzer.CheckActionAsWritten | ActionResponseTypeAnalyzer/DiagnosticAnalyzer.cs:76-100 | steps 6 to 9 as written never throw on type arguments, and report at most one diagnostic when they complete |
| ResponseTypeAnalyzer.VerdictAsWritten | ActionResponseTypeAnalyzer/DiagnosticAnalyzer.cs:78-100 | AttributeMissing unless exactly one match; it throws exactly when the one match has no typeof expression, and the fault is the missing typeof expression |
| ResponseTypeAnalyzer.VerdictAgrees | ActionResponseTypeAnalyzer/DiagnosticAnalyzer.cs:78-100 | the verdict as written throws only on a missing typeof expression, where the corrected one reports nothing, and otherwise agrees |
| ResponseTypeAnalyzer.CheckActionAgrees | ActionResponseTypeAnalyzer/DiagnosticAnalyzer.cs:76-100 | the attribute check as written either throws on an unresolved constructor, or throws where the corrected one reports nothing, or agrees |
| ResponseTypeAnalyzer.AsWrittenAgreesWhenCompleted | ActionResponseTypeAnalyzer/DiagnosticAnalyzer.cs:39-101 | wherever the source completes, `Analyze` reports the same; where it throws on a non-generic call or a missing typeof expression, `Analyze` reports nothing |
| AnalyzerScenarios.AnnotatedOutcome | ActionResponseTypeAnalyzer/DiagnosticAnalyzer.cs:76-100 | any call of an action with one resolved `[ResponseType(...)]`: a TypeMismatch at the attribute exactly when the argument is a typeof whose type differs by name from the call's |
| AnalyzerScenarios.ProperAnnotation | ActionResponseTypeAnalyzer.Test/BasicFunctionality.cs:20-61 | `typeof(int)` with `CreateResponse(5)` reports nothing; `typeof(System.Int32)` resolves to the same type symbol, so the second test is the same input |
| AnalyzerScenarios.WrongAnnotation | ActionResponseTypeAnalyzer.Test/BasicFunctionality.cs:64-94 | `typeof(int)` with `CreateResponse(5.0)` reports one TypeMismatch at the attribute naming `int` and `double` |
| AnalyzerScenarios.GenericTypeName | ActionResponseTypeAnalyzer.Test/BasicFunctionality.cs:97-128 | the TypeMismatch names the declared type by its display string `List<int>` |
| AnalyzerScenarios.MultipleIssuesFirst | ActionResponseTypeAnalyzer.Test/BasicFunctionality.cs:163-209 | of two calls in one action, the `string` one reports its own TypeMismatch at the attribute |
| AnalyzerScenarios.MultipleIssuesSecond | ActionResponseTypeAnalyzer.Test/BasicFunctionality.cs:163-209 | and the `double` one reports its own, at the same attribute |
| AnalyzerScenarios.NoAnnotation | ActionResponseTypeAnalyzer.Test/BasicFunctionality.cs:131-159 | an action without the attribute reports AttributeMissing at the call |
| AnalyzerScenarios.NotAnnotatedNonAction | ActionResponseTypeAnalyzer/DiagnosticAnalyzer.cs:64-74 | in a static or non-public method, a `CreateResponse` call reports nothing, whatever the call's type arguments |
| AnalyzerScenarios.NonActionMethods | ActionResponseTypeAnalyzer.Test/ControllerActionMethodDetection.cs:11-51 | a protected method and a static method report nothing, although unannotated |
| AnalyzerScenarios.NongenericCall | ActionResponseTypeAnalyzer.Test/BasicFunctionality.cs:212-251 | a non-generic `CreateResponse` overload reports nothing, while the source as written throws on it |
| AnalyzerScenarios.TwoAttributes | ActionResponseTypeAnalyzer/DiagnosticAnalyzer.cs:78-82 | an action carrying two `ResponseType` attributes reports AttributeMissing at the call |
| AnalyzerScenarios.UnresolvedOutcome | ActionResponseTypeAnalyzer/DiagnosticAnalyzer.cs:133-134 | with the attribute's constructor unresolved, every call of the action reports AttributeMissing |
| AnalyzerScenarios.UnresolvedOutcomeAsWritten | ActionResponseTypeAnalyzer/DiagnosticAnalyzer.cs:133-134 | on the same actions the source as written throws on the null constructor symbol |
| AnalyzerScenarios.UnresolvedConstructor | ActionResponseTypeAnalyzer/DiagnosticAnalyzer.cs:133-134 | `[ResponseType(typeof(int))]` with an unresolved constructor and `CreateResponse(5.0)`: AttributeMissing at the call |
| AnalyzerScenarios.UnresolvedConstructorAsWritten | ActionResponseTypeAnalyzer/DiagnosticAnalyzer.cs:133-134 | the same action makes the source as written throw |
| AnalyzerScenarios.NoTypeOfOutcomeAsWritten | ActionResponseTypeAnalyzer/DiagnosticAnalyzer.cs:140-145 | when the attribute's argument is no typeof expression, the source as written throws on every call of the action |
| AnalyzerScenarios.NullResponseTypeAsWritten | ActionResponseTypeAnalyzer/DiagnosticAnalyzer.cs:140-145 | `[ResponseType(null)]` with `CreateResponse(5.0)` makes the source as written throw |
| AnalyzerScenarios.NullResponseType | ActionResponseTypeAnalyzer/DiagnosticAnalyzer.cs:86-91 | on the same action the rule reports nothing, as for a typeof naming no type |

## Left out

- Registration and plumbing (`Initialize`, `RegisterSyntaxNodeAction`, `SupportedDiagnostics`, the descriptor objects, lines 15-37). Only the message templates and the two diagnostic kinds are kept; the host calls `AnalyzeCreateResponseCall` once per identifier node.
- The diagnostic ID strings, titles, category and severity. The tests expect `ARTA001`/`ARTA002` while the descriptors declare other IDs, so only the kind is modelled.
- The semantic model (`GetSymbolInfo`, `GetDeclaredSymbol`) and `ToDisplayString`. Symbols, their `ToString()` and their short display strings are input data on the nodes.
- Source locations as line and column. A diagnostic is located at a node index: the call's identifier or the attribute.
- The `ExceptionalResponseType` exemption expected by `ActionResponseTypeAnalyzer.Test/Exceptions.cs`: the analyzer never consults that attribute, so the model cannot exempt anything.
- Text.Format: handles single-digit placeholders only, and no `{{`/`}}` escapes, because the two templates use neither; a placeholder `{d}` with `d` not below the number of arguments is copied literally, where `String.Format` throws a `FormatException` (the two templates never have one).
- Text.StartsWith: ordinal comparison only (as is Text.EndsWith); the culture-sensitive comparison that `String.StartsWith(string)` and `String.EndsWith(string)` use by default has no counterpart here.
- ResponseTypeAnalyzer.CompareDeclared: the actual type is never null in the model, so the null-conditional `actualResponseType?.Name` at line 93 has no null case; Roslyn never gives a null type argument.
- Syntax.Tree.Valid: every method declaration is assumed to carry a declared method symbol. Roslyn's `GetDeclaredSymbol` gives one for every method declaration in a compiled tree. The source dereferences it at lines 70-71 without a null check, so a null symbol would be a fourth place where the source throws; the model does not capture it.
- `ProperAnnotationsShouldNotThrowErrorsForExplicitTypeName` (`ActionResponseTypeAnalyzer.Test/BasicFunctionality.cs:42-61`) has no lemma of its own: the semantic model resolves `typeof(System.Int32)` and `typeof(int)` to the same symbol, so it is the same input as `ProperAnnotation`.
- Node kinds other than those the analyzer tests for are one kind, `OtherSyntax`; the class, namespace and statement structure around an action plays no part in the rule.

## Findings

| source | as written | input that shows it | evidently intended | confidence | as-written member | corrected member |
|---|---|---|---|---|---|---|
| ActionResponseTypeAnalyzer/DiagnosticAnalyzer.cs:61 | `symbol.TypeArguments.First()` throws on a non-generic `CreateResponse` overload, which has no type arguments | `return Request.CreateResponse();` in a public instance action (`ActionResponseTypeAnalyzer.Test/BasicFunctionality.cs:212-230`) | no diagnostic from this rule, as the test expects | not executed | AnalyzerScenarios.NongenericCall | ResponseTypeAnalyzer.Analyze |
| ActionResponseTypeAnalyzer/DiagnosticAnalyzer.cs:133-134 | `semanticModel.GetSymbolInfo(a).Symbol as IMethodSymbol` is null for an attribute whose constructor does not resolve, and `s.Item2.ToString()` then throws | `[ResponseType(typeof(int))]` whose constructor does not resolve, with `CreateResponse(5.0)` | not to throw. The chosen correction treats such an attribute as no `ResponseType` attribute, so AttributeMissing is reported at the call. The other reading is that a resolution failure should silence the rule, giving no diagnostic; it is not modelled. | not executed | AnalyzerScenarios.UnresolvedConstructorAsWritten | ResponseTypeAnalyzer.KeepConstructorMatchesMember |
| ActionResponseTypeAnalyzer/DiagnosticAnalyzer.cs:140-145 | `GoDown` gives null when the attribute's argument is not a typeof expression, and `typeofDeclaration.ChildNodes()` then throws | `[ResponseType(null)]` with `CreateResponse(5.0)` | no declared type, hence no diagnostic, as for a typeof naming no type (lines 88-91) | not executed | AnalyzerScenarios.NullResponseTypeAsWritten | ResponseTypeAnalyzer.GetResponseTypeType |
