/**
 * How the assignment rules combine over several statements, and a whole
 * run of `process` on a small program.
 */
module Scenarios {
  import opened Syntax
  import opened OrderedMaps
  import opened Locations
  import opened Quotes
  import opened Rules

  /** The binding `name` is untouched and its declaration still has its declared kind. */
  ghost predicate Untouched(s: State, name: string, kind: DeclarationKind)
  {
    && Valid(s)
    && name in s.variables.entries
    && s.variables.entries[name].originalKind == kind
    && s.variables.entries[name].stage == Declaration
    && s.declarations[s.variables.entries[name].declaration].kind == kind
  }

  /**
   * `var x …; x.p = …; x = …;`: the property write asks for `const`, the
   * reassignment then asks for `let` at the same location, so the declaration
   * ends `let` and the one diagnostic there says "use let".
   */
  lemma VarPropertyWriteThenReassignment(file: string, s: State, name: string)
    requires Untouched(s, name, Var)
    ensures var j := s.variables.entries[name].declaration;
      var key := LocationKey(file, s.declarations[j].start);
      var r1 := HandleStatement(file, s, Member(Some(name)));
      var r2 := HandleStatement(file, r1, Plain(Some(name)));
      && r1.declarations[j].kind == Const
      && key in r1.errors.entries && r1.errors.entries[key].message == UseConstMessage(Var)
      && r2.declarations[j].kind == Let
      && r2.variables.entries[name].stage == ExpressionDeclaration
      && key in r2.errors.entries && r2.errors.entries[key] == Diagnostic(UseLetMessage(Var), key)
      && r2.errors.keys == r1.errors.keys
  {
  }

  /**
   * `let x …; x.p = …; x = …;`: the property write rewrites the declaration
   * to `const`, and the reassignment is then let through because the binding
   * was declared `let`: the declaration stays `const` although `x` is
   * reassigned.
   */
  lemma LetPropertyWriteThenReassignment(file: string, s: State, name: string)
    requires Untouched(s, name, Let)
    ensures var j := s.variables.entries[name].declaration;
      var key := LocationKey(file, s.declarations[j].start);
      var r2 := HandleStatement(file, HandleStatement(file, s, Member(Some(name))), Plain(Some(name)));
      && r2.declarations[j].kind == Const
      && key in r2.errors.entries && r2.errors.entries[key] == Diagnostic(UseConstMessage(Let), key)
  {
  }

  /**
   * `var x …; x.p = …; x.q = …;`: only the first property write sees the
   * binding untouched; the second is judged like a reassignment and turns the
   * declaration into `let`.
   */
  lemma VarTwoPropertyWrites(file: string, s: State, name: string)
    requires Untouched(s, name, Var)
    ensures var j := s.variables.entries[name].declaration;
      var key := LocationKey(file, s.declarations[j].start);
      var r1 := HandleStatement(file, s, Member(Some(name)));
      var r2 := HandleStatement(file, r1, Member(Some(name)));
      && r1.declarations[j].kind == Const
      && r2.declarations[j].kind == Let
      && key in r2.errors.entries && r2.errors.entries[key] == Diagnostic(UseLetMessage(Var), key)
  {
  }

  /** `const x …; x.p = …;` changes nothing, however often it happens. */
  lemma ConstPropertyWrite(file: string, s: State, name: string)
    requires Untouched(s, name, Const)
    ensures HandleStatement(file, s, Member(Some(name))) == s
  {
  }

  /** `let x …; x = …;` only resolves the binding: no rewrite, no diagnostic. */
  lemma LetReassignment(file: string, s: State, name: string)
    requires Untouched(s, name, Let)
    ensures var r := HandleStatement(file, s, Plain(Some(name)));
      && r.errors == s.errors
      && r.declarations == s.declarations
      && r.variables.entries[name].stage == ExpressionDeclaration
  {
  }

  /** Line 1, column 0 of file `f`, as a key: columns print from 1. */
  lemma KeyOne()
    ensures LocationKey("f", Position(1, 0)) == "f:1:1"
  {
  }

  /** Line 1, column 8 of file `f`, as a key. */
  lemma KeyNine()
    ensures LocationKey("f", Position(1, 8)) == "f:1:9"
  {
  }

  function Leaf(t: Tag): (n: Node)
    ensures n.tag == t && n.children == []
  {
    Node(t, [])
  }

  /** Running two tags passes through the states their handlers produce. */
  lemma RunTwoSteps(file: string, s: State, a: Tag, b: Tag, s1: State, s2: State)
    requires Valid(s)
    requires TagFits(a, |s.declarations|, |s.literals|) && Handle(file, s, a) == s1
    requires TagFits(b, |s.declarations|, |s.literals|) && Handle(file, s1, b) == s2
    ensures AllFit([a, b], |s.declarations|, |s.literals|)
    ensures Run(file, s, [a, b]) == s2
  {
    RunPush(file, s, [], a);
    assert [] + [a] == [a];
    RunPush(file, s, [a], b);
    assert [a] + [b] == [a, b];
  }

  /** Running three tags passes through the states their handlers produce. */
  lemma RunThreeSteps(file: string, s: State, a: Tag, b: Tag, c: Tag, s1: State, s2: State, s3: State)
    requires Valid(s)
    requires TagFits(a, |s.declarations|, |s.literals|) && Handle(file, s, a) == s1
    requires TagFits(b, |s.declarations|, |s.literals|) && Handle(file, s1, b) == s2
    requires TagFits(c, |s.declarations|, |s.literals|) && Handle(file, s2, c) == s3
    ensures AllFit([a, b, c], |s.declarations|, |s.literals|)
    ensures Run(file, s, [a, b, c]) == s3
  {
    RunTwoSteps(file, s, a, b, s1, s2);
    RunPush(file, s, [a, b], c);
    assert [a, b] + [c] == [a, b, c];
  }

  /** Running four tags passes through the states their handlers produce. */
  lemma RunFourSteps(file: string, s: State, a: Tag, b: Tag, c: Tag, d: Tag, s1: State, s2: State, s3: State, s4: State)
    requires Valid(s)
    requires TagFits(a, |s.declarations|, |s.literals|) && Handle(file, s, a) == s1
    requires TagFits(b, |s.declarations|, |s.literals|) && Handle(file, s1, b) == s2
    requires TagFits(c, |s.declarations|, |s.literals|) && Handle(file, s2, c) == s3
    requires TagFits(d, |s.declarations|, |s.literals|) && Handle(file, s3, d) == s4
    ensures AllFit([a, b, c, d], |s.declarations|, |s.literals|)
    ensures Run(file, s, [a, b, c, d]) == s4
  {
    RunThreeSteps(file, s, a, b, c, s1, s2, s3);
    RunPush(file, s, [a, b, c], d);
    assert [a, b, c] + [d] == [a, b, c, d];
  }

  // ---------------------------------------------------------------------------
  // `var x = "a"; x.y = 1;`: Program > [VariableDeclaration > [VariableDeclarator > [Identifier, Literal]],
  // ExpressionStatement > [AssignmentExpression > [MemberExpression > [Identifier, Identifier], Literal]]]

  const ExampleDeclarations := [VariableDeclaration(Var, ["x"], Position(1, 0))]
  const ExampleLiterals := [Literal("\"a\"", true, Position(1, 8)), Literal("1", false, Position(1, 19))]
  const ExampleAst := Node(OtherNode, [
    Node(DeclarationNode(0), [Node(OtherNode, [Leaf(OtherNode), Leaf(LiteralNode(0))])]),
    Node(StatementNode(Member(Some("x"))), [
      Node(OtherNode, [Node(OtherNode, [Leaf(OtherNode), Leaf(OtherNode)]), Leaf(LiteralNode(1))])])])
  const ExampleTags := [OtherNode, DeclarationNode(0), OtherNode, OtherNode, LiteralNode(0),
                        StatementNode(Member(Some("x"))), OtherNode, OtherNode, OtherNode, OtherNode, LiteralNode(1)]

  lemma ExampleWalkOrder()
    ensures Preorder(ExampleAst) == ExampleTags
    ensures WellFormed(ExampleAst, 1, 2)
  {
    var declarator := Node(OtherNode, [Leaf(OtherNode), Leaf(LiteralNode(0))]);
    var member := Node(OtherNode, [Leaf(OtherNode), Leaf(OtherNode)]);
    var assignment := Node(OtherNode, [member, Leaf(LiteralNode(1))]);
    assert Preorder(declarator) == [OtherNode, OtherNode, LiteralNode(0)];
    assert Preorder(member) == [OtherNode, OtherNode, OtherNode];
    assert Preorder(assignment) == [OtherNode, OtherNode, OtherNode, OtherNode, LiteralNode(1)];
  }

  lemma ExampleHandled()
    ensures Handled(ExampleTags) == [DeclarationNode(0), LiteralNode(0), StatementNode(Member(Some("x"))), LiteralNode(1)]
  {
  }

  const ExampleBound := OrderedMap(["x"], map["x" := Binding(Var, Declaration, 0)])
  const ExampleQuoted := [Literal("'a'", true, Position(1, 8)), Literal("1", false, Position(1, 19))]
  const ExampleQuoteAdvice := OrderedMap(["f:1:9"], map["f:1:9" := Diagnostic(SingleQuoteMessage(), "f:1:9")])
  const ExampleWalked := State(
    OrderedMap(["f:1:9", "f:1:1"],
               map["f:1:9" := Diagnostic(SingleQuoteMessage(), "f:1:9"),
                   "f:1:1" := Diagnostic(UseConstMessage(Var), "f:1:1")]),
    OrderedMap(["x"], map["x" := Binding(Var, ExpressionDeclaration, 0)]),
    [VariableDeclaration(Const, ["x"], Position(1, 0))],
    ExampleQuoted)

  lemma ExampleDeclare()
    ensures HandleDeclaration(Initial(ExampleDeclarations, ExampleLiterals), 0) ==
            Initial(ExampleDeclarations, ExampleLiterals).(variables := ExampleBound)
  {
    assert ["x"][..0] == [];
  }

  lemma ExampleQuote()
    ensures var s := State(Empty(), ExampleBound, ExampleDeclarations, ExampleLiterals);
      Valid(s) && HandleLiteral("f", s, 0) == s.(errors := ExampleQuoteAdvice, literals := ExampleQuoted)
  {
    assert SingleQuoted("\"a\"") == "'a'";
    KeyNine();
  }

  lemma ExamplePropertyWrite()
    ensures var s := State(ExampleQuoteAdvice, ExampleBound, ExampleDeclarations, ExampleQuoted);
      Valid(s) && HandleStatement("f", s, Member(Some("x"))) == ExampleWalked
  {
    ExampleResolve();
  }

  /** Writing a property of the untouched `x` rewrites the `var` declaration to `const`. */
  lemma ExampleResolve()
    ensures var s := State(ExampleQuoteAdvice, ExampleBound, ExampleDeclarations, ExampleQuoted);
      Valid(s) && Resolve("f", s, "x", Binding(Var, Declaration, 0), Const, UseConstMessage(Var)) == ExampleWalked
  {
    KeyOne();
  }

  /** The number literal `1` is left alone. */
  lemma ExampleNumber()
    ensures Valid(ExampleWalked) && HandleLiteral("f", ExampleWalked, 1) == ExampleWalked
  {
  }

  /** The four handlers the example's walk runs, one after the other. */
  lemma ExampleSteps()
    ensures var tags := [DeclarationNode(0), LiteralNode(0), StatementNode(Member(Some("x"))), LiteralNode(1)];
      var s0 := Initial(ExampleDeclarations, ExampleLiterals);
      AllFit(tags, 1, 2) && Run("f", s0, tags) == ExampleWalked
  {
    var s0 := Initial(ExampleDeclarations, ExampleLiterals);
    var s1 := s0.(variables := ExampleBound);
    var s2 := State(ExampleQuoteAdvice, ExampleBound, ExampleDeclarations, ExampleQuoted);
    assert Handle("f", s0, DeclarationNode(0)) == s1 by { ExampleDeclare(); }
    assert Handle("f", s1, LiteralNode(0)) == s2 by { ExampleQuote(); }
    assert Handle("f", s2, StatementNode(Member(Some("x")))) == ExampleWalked by { ExamplePropertyWrite(); }
    assert Handle("f", ExampleWalked, LiteralNode(1)) == ExampleWalked by { ExampleNumber(); }
    RunFourSteps("f", s0, DeclarationNode(0), LiteralNode(0), StatementNode(Member(Some("x"))), LiteralNode(1),
                 s1, s2, ExampleWalked, ExampleWalked);
  }

  /** The state after walking the example: handlers fire in the order the walk meets them. */
  lemma ExampleWalk()
    ensures WellFormed(ExampleAst, 1, 2)
    ensures Run("f", Initial(ExampleDeclarations, ExampleLiterals), Preorder(ExampleAst)) == ExampleWalked
  {
    ExampleWalkOrder();
    ExampleHandled();
    RunHandled("f", Initial(ExampleDeclarations, ExampleLiterals), ExampleTags);
    ExampleSteps();
  }

  /** The property write already resolved `x`, so the final pass finds nothing left to do. */
  lemma ExampleFinalized()
    ensures Finalize("f", ExampleWalked) == ExampleWalked
  {
    assert ["x"][..0] == [];
  }

  lemma ExampleProcessed()
    ensures WellFormed(ExampleAst, 1, 2)
    ensures Process("f", Initial(ExampleDeclarations, ExampleLiterals), ExampleAst) == ExampleWalked
  {
    ExampleWalk();
    ExampleFinalized();
  }

  lemma ExampleOutput()
    ensures Output(ExampleWalked) == [Diagnostic(SingleQuoteMessage(), "f:1:9"), Diagnostic(UseConstMessage(Var), "f:1:1")]
  {
  }

  /**
   * `var x = "a"; x.y = 1;` in file `f`: the literal becomes `'a'`, the
   * declaration becomes `const`, and the diagnostics are the quote advice at
   * 1:9 followed by the "use const" advice at 1:1.
   */
  lemma VarWithPropertyWrite()
    ensures WellFormed(ExampleAst, 1, 2)
    ensures var r := Process("f", Initial(ExampleDeclarations, ExampleLiterals), ExampleAst);
      && r.declarations == [VariableDeclaration(Const, ["x"], Position(1, 0))]
      && r.literals == [Literal("'a'", true, Position(1, 8)), Literal("1", false, Position(1, 19))]
      && Output(r) == [Diagnostic(SingleQuoteMessage(), "f:1:9"), Diagnostic(UseConstMessage(Var), "f:1:1")]
  {
    ExampleProcessed();
    ExampleOutput();
  }

  // ---------------------------------------------------------------------------
  // `let x = 1; x = 2;`: Program > [VariableDeclaration > [VariableDeclarator > [Identifier, Literal]],
  // ExpressionStatement > [AssignmentExpression > [Identifier, Literal]]]

  const LetDeclarations := [VariableDeclaration(Let, ["x"], Position(1, 0))]
  const LetLiterals := [Literal("1", false, Position(1, 8)), Literal("2", false, Position(1, 15))]
  const LetAst := Node(OtherNode, [
    Node(DeclarationNode(0), [Node(OtherNode, [Leaf(OtherNode), Leaf(LiteralNode(0))])]),
    Node(StatementNode(Plain(Some("x"))), [Node(OtherNode, [Leaf(OtherNode), Leaf(LiteralNode(1))])])])
  const LetWalked := State(Empty(), OrderedMap(["x"], map["x" := Binding(Let, ExpressionDeclaration, 0)]),
                           LetDeclarations, LetLiterals)

  const LetBound := OrderedMap(["x"], map["x" := Binding(Let, Declaration, 0)])

  const LetTags := [OtherNode, DeclarationNode(0), OtherNode, OtherNode, LiteralNode(0),
                    StatementNode(Plain(Some("x"))), OtherNode, OtherNode, LiteralNode(1)]

  lemma LetWalkOrder()
    ensures Preorder(LetAst) == LetTags
    ensures WellFormed(LetAst, 1, 2)
  {
    var declarator := Node(OtherNode, [Leaf(OtherNode), Leaf(LiteralNode(0))]);
    var assignment := Node(OtherNode, [Leaf(OtherNode), Leaf(LiteralNode(1))]);
    assert Preorder(declarator) == [OtherNode, OtherNode, LiteralNode(0)];
    assert Preorder(assignment) == [OtherNode, OtherNode, LiteralNode(1)];
  }

  lemma LetHandled()
    ensures Handled(LetTags) == [DeclarationNode(0), LiteralNode(0), StatementNode(Plain(Some("x"))), LiteralNode(1)]
  {
  }

  lemma LetDeclare()
    ensures HandleDeclaration(Initial(LetDeclarations, LetLiterals), 0) == Initial(LetDeclarations, LetLiterals).(variables := LetBound)
  {
    assert ["x"][..0] == [];
  }

  /** Number literals are not string literals: the literal handler leaves them alone. */
  lemma LetNumbers()
    ensures var s := Initial(LetDeclarations, LetLiterals).(variables := LetBound);
      Valid(s) && HandleLiteral("f", s, 0) == s && HandleLiteral("f", LetWalked, 1) == LetWalked
  {
  }

  lemma LetReassign()
    ensures var s := Initial(LetDeclarations, LetLiterals).(variables := LetBound);
      Valid(s) && HandleStatement("f", s, Plain(Some("x"))) == LetWalked
  {
  }

  /** The four handlers the walk of `let x = 1; x = 2;` runs, one after the other. */
  lemma LetSteps()
    ensures var tags := [DeclarationNode(0), LiteralNode(0), StatementNode(Plain(Some("x"))), LiteralNode(1)];
      AllFit(tags, 1, 2) && Run("f", Initial(LetDeclarations, LetLiterals), tags) == LetWalked
  {
    var s0 := Initial(LetDeclarations, LetLiterals);
    var s1 := s0.(variables := LetBound);
    assert Handle("f", s0, DeclarationNode(0)) == s1 by { LetDeclare(); }
    assert Handle("f", s1, LiteralNode(0)) == s1 by { LetNumbers(); }
    assert Handle("f", s1, StatementNode(Plain(Some("x")))) == LetWalked by { LetReassign(); }
    assert Handle("f", LetWalked, LiteralNode(1)) == LetWalked by { LetNumbers(); }
    RunFourSteps("f", s0, DeclarationNode(0), LiteralNode(0), StatementNode(Plain(Some("x"))), LiteralNode(1),
                 s1, s1, LetWalked, LetWalked);
  }

  /** The state after walking `let x = 1; x = 2;`: only the binding is resolved. */
  lemma LetWalk()
    ensures WellFormed(LetAst, 1, 2)
    ensures Run("f", Initial(LetDeclarations, LetLiterals), Preorder(LetAst)) == LetWalked
  {
    LetWalkOrder();
    LetHandled();
    RunHandled("f", Initial(LetDeclarations, LetLiterals), LetTags);
    LetSteps();
  }

  /** `let x = 1; x = 2;` is left as it is, and `process` reports nothing. */
  lemma LetThenReassignment()
    ensures WellFormed(LetAst, 1, 2)
    ensures var r := Process("f", Initial(LetDeclarations, LetLiterals), LetAst);
      r.declarations == LetDeclarations && r.literals == LetLiterals && Output(r) == []
  {
    LetWalk();
    FinalizeEffect("f", LetWalked);
    FinalizeOrder("f", LetWalked);
    assert PendingKeys("f", LetWalked, LetWalked.variables.entries, ["x"]) == [];
    assert !RewrittenBy(LetWalked.variables.entries, ["x"], 0);
  }

  // ---------------------------------------------------------------------------
  // `var a, b; a = 1;`: Program > [VariableDeclaration > [VariableDeclarator > [Identifier],
  // VariableDeclarator > [Identifier]], ExpressionStatement > [AssignmentExpression > [Identifier, Literal]]]

  const ListDeclarations := [VariableDeclaration(Var, ["a", "b"], Position(1, 0))]
  const ListLiterals := [Literal("1", false, Position(1, 14))]
  const ListAst := Node(OtherNode, [
    Node(DeclarationNode(0), [Node(OtherNode, [Leaf(OtherNode)]), Node(OtherNode, [Leaf(OtherNode)])]),
    Node(StatementNode(Plain(Some("a"))), [Node(OtherNode, [Leaf(OtherNode), Leaf(LiteralNode(0))])])])
  const ListWalked := State(
    OrderedMap(["f:1:1"], map["f:1:1" := Diagnostic(UseLetMessage(Var), "f:1:1")]),
    OrderedMap(["a", "b"], map["a" := Binding(Var, ExpressionDeclaration, 0), "b" := Binding(Var, Declaration, 0)]),
    [VariableDeclaration(Let, ["a", "b"], Position(1, 0))],
    ListLiterals)

  const ListBound := OrderedMap(["a", "b"], map["a" := Binding(Var, Declaration, 0), "b" := Binding(Var, Declaration, 0)])

  const ListTags := [OtherNode, DeclarationNode(0), OtherNode, OtherNode, OtherNode, OtherNode,
                     StatementNode(Plain(Some("a"))), OtherNode, OtherNode, LiteralNode(0)]

  lemma ListWalkOrder()
    ensures Preorder(ListAst) == ListTags
    ensures WellFormed(ListAst, 1, 1)
  {
    var declarator := Node(OtherNode, [Leaf(OtherNode)]);
    var assignment := Node(OtherNode, [Leaf(OtherNode), Leaf(LiteralNode(0))]);
    assert Preorder(declarator) == [OtherNode, OtherNode];
    assert Preorder(assignment) == [OtherNode, OtherNode, LiteralNode(0)];
  }

  lemma ListHandled()
    ensures Handled(ListTags) == [DeclarationNode(0), StatementNode(Plain(Some("a"))), LiteralNode(0)]
  {
  }

  lemma ListDeclare()
    ensures HandleDeclaration(Initial(ListDeclarations, ListLiterals), 0) == Initial(ListDeclarations, ListLiterals).(variables := ListBound)
  {
    assert ["a", "b"][..1] == ["a"] && ["a"][..0] == [];
  }

  /** The number literal `1` is left alone. */
  lemma ListNumber()
    ensures Valid(ListWalked) && HandleLiteral("f", ListWalked, 0) == ListWalked
  {
  }

  lemma ListReassign()
    ensures var s := Initial(ListDeclarations, ListLiterals).(variables := ListBound);
      Valid(s) && HandleStatement("f", s, Plain(Some("a"))) == ListWalked
  {
    ListResolve();
  }

  /** Reassigning `a` rewrites the `var` declaration to `let`. */
  lemma ListResolve()
    ensures var s := Initial(ListDeclarations, ListLiterals).(variables := ListBound);
      Valid(s) && Resolve("f", s, "a", Binding(Var, Declaration, 0), Let, UseLetMessage(Var)) == ListWalked
  {
    KeyOne();
  }

  /** The three handlers the walk of `var a, b; a = 1;` runs, one after the other. */
  lemma ListSteps()
    ensures var tags := [DeclarationNode(0), StatementNode(Plain(Some("a"))), LiteralNode(0)];
      AllFit(tags, 1, 1) && Run("f", Initial(ListDeclarations, ListLiterals), tags) == ListWalked
  {
    var s0 := Initial(ListDeclarations, ListLiterals);
    var s1 := s0.(variables := ListBound);
    assert Handle("f", s0, DeclarationNode(0)) == s1 by { ListDeclare(); }
    assert Handle("f", s1, StatementNode(Plain(Some("a")))) == ListWalked by { ListReassign(); }
    assert Handle("f", ListWalked, LiteralNode(0)) == ListWalked by { ListNumber(); }
    RunThreeSteps("f", s0, DeclarationNode(0), StatementNode(Plain(Some("a"))), LiteralNode(0), s1, ListWalked, ListWalked);
  }

  /** The state after walking `var a, b; a = 1;`: the reassignment made the declaration `let`. */
  lemma ListWalk()
    ensures WellFormed(ListAst, 1, 1)
    ensures Run("f", Initial(ListDeclarations, ListLiterals), Preorder(ListAst)) == ListWalked
  {
    ListWalkOrder();
    ListHandled();
    RunHandled("f", Initial(ListDeclarations, ListLiterals), ListTags);
    ListSteps();
  }

  const ListFinal := State(
    OrderedMap(["f:1:1"], map["f:1:1" := Diagnostic(UseConstMessage(Var), "f:1:1")]),
    OrderedMap(["a", "b"], map["a" := Binding(Var, ExpressionDeclaration, 0), "b" := Binding(Var, ExpressionDeclaration, 0)]),
    [VariableDeclaration(Const, ["a", "b"], Position(1, 0))],
    ListLiterals)

  /** `b` is still pending, so the final pass makes the shared declaration `const` and replaces the advice there. */
  lemma ListFinalized()
    ensures Finalize("f", ListWalked) == ListFinal
  {
    var snapshot := ListWalked.variables.entries;
    assert FinalizeNames("f", ListWalked, snapshot, ["a"]) == ListWalked by {
      assert ["a"][..0] == [];
    }
    assert Finalize("f", ListWalked) == Resolve("f", ListWalked, "b", Binding(Var, Declaration, 0), Const, UseConstMessage(Var)) by {
      assert ["a", "b"][..1] == ["a"];
    }
    ListResolveRest();
  }

  /** Resolving the untouched `b` rewrites the shared declaration to `const` and replaces the advice there. */
  lemma ListResolveRest()
    ensures Valid(ListWalked) && Resolve("f", ListWalked, "b", Binding(Var, Declaration, 0), Const, UseConstMessage(Var)) == ListFinal
  {
    var r := Resolve("f", ListWalked, "b", Binding(Var, Declaration, 0), Const, UseConstMessage(Var));
    KeyOne();
    assert r.errors.keys == ListFinal.errors.keys;
    assert r.errors.entries == ListFinal.errors.entries;
    assert r.variables.entries == ListFinal.variables.entries;
    assert r.declarations == ListFinal.declarations;
  }

  /**
   * `var a, b; a = 1;` as the program behaves: the reassignment of `a` makes
   * the declaration `let`, but the final pass then finds `b` untouched and
   * makes the same declaration `const`, overwriting the "use let" advice at
   * the same location. The result, `const a, b; a = 1;`, assigns a constant.
   */
  lemma VarListOneReassigned()
    ensures WellFormed(ListAst, 1, 1)
    ensures var r := Process("f", Initial(ListDeclarations, ListLiterals), ListAst);
      && r.declarations == [VariableDeclaration(Const, ["a", "b"], Position(1, 0))]
      && Output(r) == [Diagnostic(UseConstMessage(Var), "f:1:1")]
  {
    ListWalk();
    ListFinalized();
  }

  /** `b` belongs to a declaration that `a = 1` already changed, so the intended final pass leaves it alone. */
  lemma ListFinalizedIntended()
    ensures FinalizeIntended("f", ListWalked) == ListWalked
  {
    assert ListWalked.variables.entries["a"].stage == ExpressionDeclaration;
    assert Assigned(ListWalked, 0);
    assert UntouchedNames(ListWalked, ["a", "b"]) == [] by {
      assert ["a", "b"][..1] == ["a"] && ["a"][..0] == [];
    }
  }

  /**
   * The same program under the final pass as intended: the declaration that
   * `a = 1` changed stays `let`, and the only advice is "use let".
   */
  lemma VarListOneReassignedIntended()
    ensures WellFormed(ListAst, 1, 1)
    ensures var r := FinalizeIntended("f", Run("f", Initial(ListDeclarations, ListLiterals), Preorder(ListAst)));
      && r.declarations == [VariableDeclaration(Let, ["a", "b"], Position(1, 0))]
      && Output(r) == [Diagnostic(UseLetMessage(Var), "f:1:1")]
  {
    ListWalk();
    ListFinalizedIntended();
  }
}
