/**
 * The lint engine as the object it is: a processor for one file whose two
 * tables are fields it updates, walking a tree whose declaration and literal
 * nodes (held in the caller's arenas) it rewrites in place. Every method is
 * proved to leave the state that the matching function of module Rules
 * describes.
 */
module Processor {
  import opened Syntax
  import opened OrderedMaps
  import opened Locations
  import opened Quotes
  import opened Rules

  class SyntaxTreeProcessor {
    const filePath: string
    /** `#errors`: location key to diagnostic, in first-insertion order. */
    var errors: OrderedMap<string, Diagnostic>
    /** `#variables`: binding name to record, in first-insertion order. */
    var variables: OrderedMap<string, Binding>

    constructor (filePath: string)
      ensures this.filePath == filePath
      ensures errors == Empty() && variables == Empty()
    {
      this.filePath := filePath;
      errors := Empty();
      variables := Empty();
    }

    /** The engine's whole state: both tables and both arenas. */
    ghost function StateOf(declarations: array<VariableDeclaration>, literals: array<Literal>): (s: State)
      reads this, declarations, literals
    {
      State(errors, variables, declarations[..], literals[..])
    }

    method StoreError(message: string, at: Position)
      modifies this
      ensures errors == old(errors).Set(LocationKey(filePath, at), Diagnostic(message, LocationKey(filePath, at)))
      ensures variables == old(variables)
    {
      var errorLocation := LocationKey(filePath, at);
      errors := errors.Set(errorLocation, Diagnostic(message, errorLocation));
    }

    method HandleLiteral(declarations: array<VariableDeclaration>, literals: array<Literal>, i: nat)
      requires Valid(StateOf(declarations, literals)) && i < literals.Length
      modifies this, literals
      ensures StateOf(declarations, literals) == Rules.HandleLiteral(filePath, old(StateOf(declarations, literals)), i)
    {
      var literal := literals[i];
      if !(literal.raw != "" && literal.valueIsString) {
        return;
      }
      if '"' !in literal.raw {
        return;
      }
      literals[i] := literal.(raw := SingleQuoted(literal.raw));
      StoreError(SingleQuoteMessage(), literal.start);
    }

    method HandleVariableDeclaration(declarations: array<VariableDeclaration>, literals: array<Literal>, i: nat)
      requires Valid(StateOf(declarations, literals)) && i < declarations.Length
      modifies this
      ensures StateOf(declarations, literals) == Rules.HandleDeclaration(old(StateOf(declarations, literals)), i)
    {
      var node := declarations[i];
      var record := Binding(node.kind, Declaration, i);
      for k := 0 to |node.names|
        invariant variables == Declare(old(variables), node.names[..k], record)
        invariant errors == old(errors)
      {
        assert node.names[..k + 1][..k] == node.names[..k];
        variables := variables.Set(node.names[k], record);
      }
      assert node.names[..|node.names|] == node.names;
    }

    method HandleExpressionStatement(declarations: array<VariableDeclaration>, literals: array<Literal>, target: Target)
      requires Valid(StateOf(declarations, literals))
      modifies this, declarations
      ensures StateOf(declarations, literals) == Rules.HandleStatement(filePath, old(StateOf(declarations, literals)), target)
    {
      if target.NoLeft? {
        return;
      }
      var varName := TargetName(target);
      if varName.None? || varName.value !in variables.entries {
        return;
      }
      var variable := variables.entries[varName.value];
      var nodeDeclaration := declarations[variable.declaration];
      if target.Member? && variable.stage == Declaration {
        if variable.originalKind == Const {
          return;
        }
        StoreError(UseConstMessage(variable.originalKind), nodeDeclaration.start);
        declarations[variable.declaration] := nodeDeclaration.(kind := Const);
        variables := variables.Set(varName.value, variable.(stage := ExpressionDeclaration));
        return;
      }
      if nodeDeclaration.kind == Let || variable.originalKind == Let {
        variables := variables.Set(varName.value, variable.(stage := ExpressionDeclaration));
        return;
      }
      StoreError(UseLetMessage(variable.originalKind), nodeDeclaration.start);
      declarations[variable.declaration] := nodeDeclaration.(kind := Let);
      variables := variables.Set(varName.value, variable.(stage := ExpressionDeclaration));
    }

    /** The final pass's callback for one pending entry of the snapshot. */
    method MakeConst(declarations: array<VariableDeclaration>, literals: array<Literal>, varName: string, variable: Binding)
      requires Valid(StateOf(declarations, literals))
      requires varName in variables.entries && variable.declaration < declarations.Length
      modifies this, declarations
      ensures StateOf(declarations, literals) ==
              Resolve(filePath, old(StateOf(declarations, literals)), varName, variable, Const, UseConstMessage(variable.originalKind))
    {
      var nodeDeclaration := declarations[variable.declaration];
      StoreError(UseConstMessage(variable.originalKind), nodeDeclaration.start);
      declarations[variable.declaration] := nodeDeclaration.(kind := Const);
      variables := variables.Set(varName, variable.(stage := ExpressionDeclaration));
    }

    /** The final pass, over a snapshot of the binding table's entries. */
    method CheckDeclarationsThatNeverChanged(declarations: array<VariableDeclaration>, literals: array<Literal>)
      requires Valid(StateOf(declarations, literals))
      modifies this, declarations
      ensures StateOf(declarations, literals) == Finalize(filePath, old(StateOf(declarations, literals)))
    {
      ghost var s0 := StateOf(declarations, literals);
      var snapshot := variables;
      for i := 0 to |snapshot.keys|
        invariant StateOf(declarations, literals) == FinalizeNames(filePath, s0, snapshot.entries, snapshot.keys[..i])
      {
        var varName := snapshot.keys[i];
        var variable := snapshot.entries[varName];
        FinalizeNamesNext(filePath, s0, snapshot.entries, snapshot.keys, i);
        if Pending(variable) {
          MakeConst(declarations, literals, varName, variable);
        }
      }
      assert snapshot.keys[..|snapshot.keys|] == snapshot.keys;
    }

    /** The handler table keyed by node type. */
    method Dispatch(declarations: array<VariableDeclaration>, literals: array<Literal>, tag: Tag)
      requires Valid(StateOf(declarations, literals)) && TagFits(tag, declarations.Length, literals.Length)
      modifies this, declarations, literals
      ensures StateOf(declarations, literals) == Handle(filePath, old(StateOf(declarations, literals)), tag)
    {
      match tag
      case LiteralNode(i) => HandleLiteral(declarations, literals, i);
      case DeclarationNode(i) => HandleVariableDeclaration(declarations, literals, i);
      case StatementNode(target) => HandleExpressionStatement(declarations, literals, target);
      case OtherNode =>
    }

    /** Runs the handler for the node, then walks each child in order. */
    method Traverse(declarations: array<VariableDeclaration>, literals: array<Literal>, node: Node)
      requires Valid(StateOf(declarations, literals)) && WellFormed(node, declarations.Length, literals.Length)
      modifies this, declarations, literals
      ensures StateOf(declarations, literals) == Run(filePath, old(StateOf(declarations, literals)), Preorder(node))
      decreases node
    {
      ghost var s0 := StateOf(declarations, literals);
      Dispatch(declarations, literals, node.tag);
      assert [node.tag][..0] == [];
      for i := 0 to |node.children|
        invariant AllFit([node.tag] + PreorderAll(node.children[..i]), |s0.declarations|, |s0.literals|)
        invariant StateOf(declarations, literals) == Run(filePath, s0, [node.tag] + PreorderAll(node.children[..i]))
      {
        WalkChild(filePath, s0, node, i);
        Traverse(declarations, literals, node.children[i]);
      }
      assert node.children[..|node.children|] == node.children;
    }

    /**
     * `process`: walks the tree, runs the final pass and returns the stored
     * diagnostics in first-insertion order of their locations.
     */
    method Process(declarations: array<VariableDeclaration>, literals: array<Literal>, ast: Node)
      returns (result: seq<Diagnostic>)
      requires Valid(StateOf(declarations, literals)) && WellFormed(ast, declarations.Length, literals.Length)
      modifies this, declarations, literals
      ensures StateOf(declarations, literals) == Rules.Process(filePath, old(StateOf(declarations, literals)), ast)
      ensures result == Output(StateOf(declarations, literals))
    {
      Traverse(declarations, literals, ast);
      CheckDeclarationsThatNeverChanged(declarations, literals);
      result := errors.Values();
    }
  }
}
