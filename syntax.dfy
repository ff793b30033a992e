/**
 * The parts of a parsed syntax tree that the lint engine reads and rewrites.
 *
 * A tree is a tagged node with an explicit, ordered list of children (the
 * composite-valued fields of the parser's node, in field order). The two kinds
 * of node that the engine rewrites in place, VariableDeclaration and Literal,
 * live in arenas owned by the caller; a tag refers to its node by index, so a
 * binding record can hold the same index and rewrite the node later.
 */
module Syntax {

  datatype Option<T> = None | Some(value: T)

  /** A source position as the parser reports it: 1-based line, 0-based column. */
  datatype Position = Position(line: nat, column: nat)

  /** The `kind` field of a VariableDeclaration node. */
  datatype DeclarationKind = Var | Let | Const

  function KindName(k: DeclarationKind): (name: string)
  {
    match k
    case Var => "var"
    case Let => "let"
    case Const => "const"
  }

  /**
   * A Literal node: its `raw` source text (the empty string when the parser
   * gives none), whether its `value` is a string, and its `loc.start`.
   */
  datatype Literal = Literal(raw: string, valueIsString: bool, start: Position)

  /**
   * A VariableDeclaration node: its `kind`, the `id.name` of each of its
   * declarators in order, and its `loc.start`.
   */
  datatype VariableDeclaration = VariableDeclaration(kind: DeclarationKind, names: seq<string>, start: Position)

  /** What the `expression.left` of an ExpressionStatement looks like. */
  datatype Target =
    | NoLeft                              // the expression has no `left` field
    | Plain(name: Option<string>)         // any other `left`: its `name`, if it has one
    | Member(objectName: Option<string>)  // a MemberExpression: `left.object.name`, if any

  /** The node's `type`, as far as a handler is registered for it. */
  datatype Tag =
    | LiteralNode(literal: nat)           // index into the literal arena
    | DeclarationNode(declaration: nat)   // index into the declaration arena
    | StatementNode(target: Target)       // an ExpressionStatement
    | OtherNode                           // any type without a handler

  datatype Node = Node(tag: Tag, children: seq<Node>)

  /** The tags of a tree in the order a depth-first, parent-first walk meets them. */
  function Preorder(n: Node): (tags: seq<Tag>)
    ensures |tags| >= 1 && tags[0] == n.tag
    decreases n, 1
  {
    [n.tag] + PreorderAll(n.children)
  }

  function PreorderAll(ns: seq<Node>): (tags: seq<Tag>)
    decreases ns, 0
  {
    if ns == [] then [] else PreorderAll(ns[..|ns| - 1]) + Preorder(ns[|ns| - 1])
  }

  /** Walking two runs of siblings one after the other meets their tags one after the other. */
  lemma {:induction false} PreorderAllAppend(a: seq<Node>, b: seq<Node>)
    ensures PreorderAll(a + b) == PreorderAll(a) + PreorderAll(b)
    decreases |b|
  {
    if b == [] {
      assert a + b == a;
    } else {
      var b' := b[..|b| - 1];
      assert (a + b)[..|a + b| - 1] == a + b';
      assert (a + b)[|a + b| - 1] == b[|b| - 1];
      PreorderAllAppend(a, b');
    }
  }

  /** The tags met under the first i + 1 children extend those met under the first i by child i's. */
  lemma PreorderAllStep(ns: seq<Node>, i: nat)
    requires i < |ns|
    ensures PreorderAll(ns[..i + 1]) == PreorderAll(ns[..i]) + Preorder(ns[i])
  {
    assert ns[..i + 1][..i] == ns[..i];
  }

  /** A tag refers to an existing node of its arena. */
  predicate TagFits(t: Tag, declarationCount: nat, literalCount: nat)
  {
    match t
    case LiteralNode(i) => i < literalCount
    case DeclarationNode(i) => i < declarationCount
    case _ => true
  }

  ghost predicate AllFit(tags: seq<Tag>, declarationCount: nat, literalCount: nat)
  {
    forall t | t in tags :: TagFits(t, declarationCount, literalCount)
  }

  /** Every node of the tree that refers into an arena refers to an existing node. */
  ghost predicate WellFormed(n: Node, declarationCount: nat, literalCount: nat)
  {
    AllFit(Preorder(n), declarationCount, literalCount)
  }

  /**
   * What a walk of a well-formed tree meets before, at and under its i-th child
   * is well formed too.
   */
  lemma ChildWellFormed(n: Node, i: nat, declarationCount: nat, literalCount: nat)
    requires WellFormed(n, declarationCount, literalCount) && i < |n.children|
    ensures WellFormed(n.children[i], declarationCount, literalCount)
    ensures AllFit([n.tag] + PreorderAll(n.children[..i]), declarationCount, literalCount)
    ensures AllFit([n.tag] + PreorderAll(n.children[..i + 1]), declarationCount, literalCount)
  {
    var cs := n.children;
    assert cs == cs[..i] + [cs[i]] + cs[i + 1..];
    PreorderAllAppend(cs[..i] + [cs[i]], cs[i + 1..]);
    PreorderAllAppend(cs[..i], [cs[i]]);
    assert [cs[i]][..0] == [];
    assert PreorderAll([cs[i]]) == Preorder(cs[i]);
    PreorderAllStep(cs, i);
  }
}
