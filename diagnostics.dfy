/** The two diagnostics the analyzer reports, with their message templates and
    the messages they produce. */
module Diagnostics {
  import opened Text
  import opened Syntax

  /** Message templates of the two diagnostic descriptors, written as their
      literal parts and placeholders:
      `Declared response type is '{0}', but the actual response type is '{1}'.` and
      `Response type is not specified in the ResponseType attribute.` */
  const TypeMismatchTemplate := "Declared response type is '" + "{0}" + "', but the actual response type is '" + "{1}" + "'."
  const AttributeMissingTemplate := "Response type is not " + "specified in the " + "ResponseType attribute."

  datatype DiagnosticKind = TypeMismatchIssue | AttributeMissingIssue

  /** A reported warning, anchored at node `location`. */
  datatype Diagnostic = Diagnostic(kind: DiagnosticKind, location: nat, message: string)

  /** The AttributeMissing warning at call site `site`; its message is the template verbatim. */
  function AttributeMissingAt(site: nat): (d: Diagnostic)
    ensures d.kind == AttributeMissingIssue && d.location == site
    ensures d.message == AttributeMissingTemplate
  {
    AttributeMissingMessage(AttributeMissingTemplate, []);
    Diagnostic(AttributeMissingIssue, site, Format(AttributeMissingTemplate, []))
  }

  /** The TypeMismatch warning at attribute node `attribute`, quoting the display
      strings of the declared and the actual type. */
  function TypeMismatchAt(attribute: nat, declared: TypeRef, actual: TypeRef): (d: Diagnostic)
    ensures d.kind == TypeMismatchIssue && d.location == attribute
    ensures d.message ==
      "Declared response type is '" + (declared.display + ("', but the actual response type is '" + (actual.display + "'.")))
  {
    TypeMismatchMessage(TypeMismatchTemplate, declared.display, actual.display);
    Diagnostic(TypeMismatchIssue, attribute, Format(TypeMismatchTemplate, [declared.display, actual.display]))
  }

  /** The AttributeMissing template has no placeholder: whatever the arguments,
      the message is the template verbatim. */
  lemma AttributeMissingMessage(template: string, args: seq<string>)
    requires template == AttributeMissingTemplate
    ensures Format(template, args) == template
  {
    assert '{' !in "Response type is not " && '{' !in "specified in the " && '{' !in "ResponseType attribute.";
  }

  /** The TypeMismatch message quotes the declared and then the actual display string. */
  lemma TypeMismatchMessage(template: string, declared: string, actual: string)
    requires template == TypeMismatchTemplate
    ensures Format(template, [declared, actual]) ==
            "Declared response type is '" + (declared + ("', but the actual response type is '" + (actual + "'.")))
  {
    var p1, p2, p3 := "Declared response type is '", "', but the actual response type is '", "'.";
    assert template == p1 + ("{0}" + (p2 + ("{1}" + p3)));
    assert '{' !in p1;
    assert '{' !in p2;
    assert '{' !in p3;
    FormatTwoPlaceholders(p1, p2, p3, declared, actual);
  }
}
