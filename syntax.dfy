/** The parts of a parsed C# file and of its semantic model that the analyzer
    consults, given as plain data. A syntax tree is an arena of nodes; each node
    names its parent by index, and a parent always comes before its children, so
    every walk towards the root ends. The children of a node are the nodes naming
    it as parent, in index order, which is source order. */
module Syntax {
  import opened Wrappers

  /** The syntax node classes the analyzer tests for; every other class is `OtherSyntax`. */
  datatype Kind =
    | IdentifierName
    | MethodDeclaration
    | AttributeList
    | Attribute
    | AttributeArgumentList
    | AttributeArgument
    | TypeOfExpression
    | OtherSyntax

  /** Declared accessibility of a symbol. */
  datatype Accessibility =
    | NotApplicable | Private | ProtectedAndInternal | Protected | Internal | ProtectedOrInternal | Public

  /** A type symbol: its metadata `Name` (`Int32`, `List`) and its short display
      string (`int`, `List<int>`), the one diagnostics print. */
  datatype TypeRef = TypeRef(name: string, display: string)

  /** What the semantic model resolves a node to. `display` is the symbol's
      `ToString()`, e.g. `System.Net.Http.HttpRequestMessage.CreateResponse<int>(int)`. */
  datatype Symbol =
    | MethodSymbol(display: string, typeArguments: seq<TypeRef>, isStatic: bool, access: Accessibility)
    | TypeSymbol(typeRef: TypeRef)
    | OtherSymbol(display: string)

  /** One syntax node. `text` is the node's source text as far as the analyzer reads
      it (an identifier's name, an attribute's name). `symbol` is the declared symbol
      of a method declaration and the referenced symbol of any other node; `None`
      when the semantic model resolves nothing. */
  datatype Node = Node(kind: Kind, parent: Option<nat>, text: string, symbol: Option<Symbol>)

  datatype Tree = Tree(nodes: seq<Node>) {

    /** Parents precede children, and every method declaration has a declared
        method symbol (the semantic model always provides one). */
    predicate Valid()
    {
      (forall i :: 0 <= i < |nodes| && nodes[i].parent.Some? ==> nodes[i].parent.value < i) &&
      (forall i :: 0 <= i < |nodes| && nodes[i].kind == MethodDeclaration ==>
         nodes[i].symbol.Some? && nodes[i].symbol.value.MethodSymbol?)
    }
  }

  /** The children of `n` among the nodes from index `from` on, in index order. */
  function ChildrenFrom(t: Tree, n: nat, from: nat): (cs: seq<nat>)
    decreases |t.nodes| - from
    ensures forall c: nat :: c in cs <==> from <= c < |t.nodes| && t.nodes[c].parent == Some(n)
    ensures forall i :: 0 <= i < |cs| ==> from <= cs[i] < |t.nodes|
    ensures forall i, j :: 0 <= i < j < |cs| ==> cs[i] < cs[j]
  {
    if from >= |t.nodes| then []
    else
      var rest := ChildrenFrom(t, n, from + 1);
      if t.nodes[from].parent == Some(n) then [from] + rest else rest
  }

  /** `n.ChildNodes()`: the children of `n` in source order. */
  function Children(t: Tree, n: nat): (cs: seq<nat>)
    ensures forall c: nat :: c in cs <==> c < |t.nodes| && t.nodes[c].parent == Some(n)
    ensures forall i :: 0 <= i < |cs| ==> cs[i] < |t.nodes|
    ensures forall i, j :: 0 <= i < j < |cs| ==> cs[i] < cs[j]
  {
    ChildrenFrom(t, n, 0)
  }

  /** The children of `n` from index `from` on are the one increasing list of the
      nodes from there on whose parent is `n`. */
  lemma {:induction false} ChildrenFromExactly(t: Tree, n: nat, from: nat, cs: seq<nat>)
    requires forall i :: 0 <= i < |cs| ==> from <= cs[i] < |t.nodes|
    requires forall i, j :: 0 <= i < j < |cs| ==> cs[i] < cs[j]
    requires forall c: nat :: from <= c < |t.nodes| ==> (t.nodes[c].parent == Some(n) <==> c in cs)
    decreases |t.nodes| - from
    ensures ChildrenFrom(t, n, from) == cs
  {
    if from < |t.nodes| {
      if t.nodes[from].parent == Some(n) {
        var k :| 0 <= k < |cs| && cs[k] == from;
        assert cs[0] <= cs[k];
        assert cs[0] == from;
        ChildrenFromExactly(t, n, from + 1, cs[1..]);
      } else {
        ChildrenFromExactly(t, n, from + 1, cs);
      }
    }
  }

  /** `Children(t, n)` is the one increasing list of the nodes whose parent is `n`. */
  lemma ChildrenExactly(t: Tree, n: nat, cs: seq<nat>)
    requires forall i :: 0 <= i < |cs| ==> cs[i] < |t.nodes|
    requires forall i, j :: 0 <= i < j < |cs| ==> cs[i] < cs[j]
    requires forall c: nat :: c < |t.nodes| ==> (t.nodes[c].parent == Some(n) <==> c in cs)
    ensures Children(t, n) == cs
  {
    ChildrenFromExactly(t, n, 0, cs);
  }

  /** The first node of `cs` whose kind is `k`, if any. */
  function FirstOfKind(t: Tree, cs: seq<nat>, k: Kind): (r: Option<nat>)
    requires forall i :: 0 <= i < |cs| ==> cs[i] < |t.nodes|
    ensures r.None? <==> forall i :: 0 <= i < |cs| ==> t.nodes[cs[i]].kind != k
    ensures r.Some? ==> exists i :: 0 <= i < |cs| && cs[i] == r.value && t.nodes[cs[i]].kind == k &&
                                     forall j :: 0 <= j < i ==> t.nodes[cs[j]].kind != k
  {
    if |cs| == 0 then None
    else if t.nodes[cs[0]].kind == k then Some(cs[0])
    else
      var r := FirstOfKind(t, cs[1..], k);
      assert forall i :: 1 <= i < |cs| ==> cs[i] == cs[1..][i - 1];
      r
  }

  /** In an increasing list, no node before the first one of kind `k` has kind `k`. */
  lemma {:induction false} FirstOfKindBefore(t: Tree, cs: seq<nat>, k: Kind, c: nat)
    requires forall i :: 0 <= i < |cs| ==> cs[i] < |t.nodes|
    requires forall i, j :: 0 <= i < j < |cs| ==> cs[i] < cs[j]
    requires FirstOfKind(t, cs, k).Some? && c in cs && c < FirstOfKind(t, cs, k).value
    ensures t.nodes[c].kind != k
  {
    if t.nodes[cs[0]].kind != k && cs[0] != c {
      assert c in cs[1..];
      FirstOfKindBefore(t, cs[1..], k, c);
    }
  }

  /** `n?.ChildNodes().FirstOrDefault(sn => sn.GetType() == k)`: the first child of
      `n` of kind `k`; nothing when `n` is nothing or has no such child. */
  function GoDown(t: Tree, n: Option<nat>, k: Kind): (r: Option<nat>)
    ensures n.None? ==> r.None?
    ensures r.Some? ==> n.Some? && r.value < |t.nodes| && t.nodes[r.value].parent == n && t.nodes[r.value].kind == k
  {
    match n
    case None => None
    case Some(p) => FirstOfKind(t, Children(t, p), k)
  }

  /** `GoDown` answers the first child of kind `k` in source order, and nothing
      exactly when no child has kind `k`. */
  lemma GoDownIsFirstChild(t: Tree, n: nat, k: Kind)
    ensures GoDown(t, Some(n), k).None? <==>
      forall c: nat :: c < |t.nodes| && t.nodes[c].parent == Some(n) ==> t.nodes[c].kind != k
    ensures GoDown(t, Some(n), k).Some? ==>
      forall c: nat :: c < GoDown(t, Some(n), k).value && t.nodes[c].parent == Some(n) ==> t.nodes[c].kind != k
  {
    var cs := Children(t, n);
    var r := FirstOfKind(t, cs, k);
    assert r == GoDown(t, Some(n), k);
    if r.None? {
      forall c: nat | c < |t.nodes| && t.nodes[c].parent == Some(n)
        ensures t.nodes[c].kind != k
      {
        assert c in cs;
        var j :| 0 <= j < |cs| && cs[j] == c;
      }
    } else {
      forall c: nat | c < r.value && t.nodes[c].parent == Some(n)
        ensures t.nodes[c].kind != k
      {
        FirstOfKindBefore(t, cs, k, c);
      }
    }
  }

  /** The node `n` followed by its parent, its parent's parent and so on up to the root. */
  function Ancestors(t: Tree, n: nat): (a: seq<nat>)
    requires t.Valid() && n < |t.nodes|
    decreases n
    ensures |a| >= 1 && a[0] == n
    ensures forall i :: 0 <= i < |a| ==> a[i] < |t.nodes|
    ensures forall i :: 0 <= i < |a| - 1 ==> t.nodes[a[i]].parent == Some(a[i + 1])
    ensures t.nodes[a[|a| - 1]].parent.None?
  {
    match t.nodes[n].parent
    case None => [n]
    case Some(p) => [n] + Ancestors(t, p)
  }
}
