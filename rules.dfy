/**
 * The lint rules as functions on the engine's whole state: the diagnostic
 * store, the binding table and the two arenas of rewritable nodes. The class
 * in module Processor performs the same steps in place and is proved to
 * agree with these functions; the properties of the rules are proved here.
 */
module Rules {
  import opened Syntax
  import opened OrderedMaps
  import opened Locations
  import opened Quotes

  /**
   * A binding's stage: `Declaration` until an assignment rule (or the final
   * pass) has acted on it, `ExpressionDeclaration` afterwards.
   */
  datatype Stage = Declaration | ExpressionDeclaration

  /**
   * A record of the binding table: the declaration kind seen when the name was
   * declared, its stage, and the arena index of its declaration node.
   */
  datatype Binding = Binding(originalKind: DeclarationKind, stage: Stage, declaration: nat)

  datatype Diagnostic = Diagnostic(message: string, errorLocation: string)

  datatype State = State(
    errors: OrderedMap<string, Diagnostic>,
    variables: OrderedMap<string, Binding>,
    declarations: seq<VariableDeclaration>,
    literals: seq<Literal>)

  /** The single-quote advice, `#messages.singleQuote()`. */
  function SingleQuoteMessage(): (message: string)
  {
    "use single quotes instead of double quotes"
  }

  function UseConstMessage(k: DeclarationKind): (message: string)
  {
    "use \"const\" instead of " + KindName(k)
  }

  function UseLetMessage(k: DeclarationKind): (message: string)
  {
    "use \"let\" instead of " + KindName(k)
  }

  /**
   * The three messages tell the advice apart, and the two rewrite messages
   * name the kind the declaration had.
   */
  lemma MessagesTellApart(k1: DeclarationKind, k2: DeclarationKind)
    ensures UseConstMessage(k1) != UseLetMessage(k2)
    ensures UseConstMessage(k1) != SingleQuoteMessage() && UseLetMessage(k1) != SingleQuoteMessage()
    ensures UseConstMessage(k1) == UseConstMessage(k2) <==> k1 == k2
    ensures UseLetMessage(k1) == UseLetMessage(k2) <==> k1 == k2
  {
    assert UseConstMessage(k1)[5] == 'c' && UseLetMessage(k2)[5] == 'l' && SingleQuoteMessage()[4] == 's';
    assert UseConstMessage(k1)[4] == '"' && UseLetMessage(k1)[4] == '"';
    if k1 != k2 {
      var c, l := |"use \"const\" instead of "|, |"use \"let\" instead of "|;
      assert UseConstMessage(k1)[c..] == KindName(k1) && UseConstMessage(k2)[c..] == KindName(k2);
      assert UseLetMessage(k1)[l..] == KindName(k1) && UseLetMessage(k2)[l..] == KindName(k2);
    }
  }

  /**
   * The state invariant: both tables are well-formed ordered maps, every
   * diagnostic carries the key it is filed under, and every binding refers to
   * an existing declaration node.
   */
  ghost predicate Valid(s: State)
  {
    && s.errors.Valid()
    && s.variables.Valid()
    && (forall k | k in s.errors.entries :: s.errors.entries[k].errorLocation == k)
    && (forall n | n in s.variables.entries :: s.variables.entries[n].declaration < |s.declarations|)
  }

  /** Keys already in either table keep their positions; new keys only ever follow them. */
  ghost predicate KeysKept(s: State, r: State)
  {
    s.errors.keys <= r.errors.keys && s.variables.keys <= r.variables.keys
  }

  /** A fresh engine over the given arenas: both tables empty. */
  function Initial(declarations: seq<VariableDeclaration>, literals: seq<Literal>): (s: State)
    ensures Valid(s) && s.errors.keys == [] && s.variables.keys == []
    ensures s.declarations == declarations && s.literals == literals
  {
    State(Empty(), Empty(), declarations, literals)
  }

  // ---------------------------------------------------------------------------
  // Storing a diagnostic

  /**
   * Files `message` under the location key of `at`: the key keeps its place
   * if it is already there (only its diagnostic is replaced), otherwise it goes
   * last; nothing else changes.
   */
  function StoreError(file: string, s: State, message: string, at: Position): (r: State)
    requires Valid(s)
    ensures Valid(r) && KeysKept(s, r)
    ensures r == s.(errors := r.errors)
    ensures var key := LocationKey(file, at);
      && r.errors.entries == s.errors.entries[key := Diagnostic(message, key)]
      && (key in s.errors.entries ==> r.errors.keys == s.errors.keys)
      && (key !in s.errors.entries ==> r.errors.keys == s.errors.keys + [key])
  {
    var key := LocationKey(file, at);
    s.(errors := s.errors.Set(key, Diagnostic(message, key)))
  }

  // ---------------------------------------------------------------------------
  // Literal handler

  /** The literal has raw text, a string value and a double quote in the raw text. */
  predicate NeedsSingleQuotes(lit: Literal)
  {
    lit.raw != "" && lit.valueIsString && '"' in lit.raw
  }

  function HandleLiteral(file: string, s: State, i: nat): (r: State)
    requires Valid(s) && i < |s.literals|
    ensures Valid(r) && KeysKept(s, r)
    ensures r.variables == s.variables && r.declarations == s.declarations
    ensures |r.literals| == |s.literals|
    ensures forall j | 0 <= j < |s.literals| && j != i :: r.literals[j] == s.literals[j]
    ensures !NeedsSingleQuotes(s.literals[i]) ==> r == s
    ensures NeedsSingleQuotes(s.literals[i]) ==>
      var lit := s.literals[i];
      var raw := r.literals[i].raw;
      var key := LocationKey(file, lit.start);
      && r.literals[i] == lit.(raw := raw)
      && |raw| == |lit.raw|
      && '"' !in raw
      && (forall k | 0 <= k < |raw| :: raw[k] == if lit.raw[k] == '"' then '\'' else lit.raw[k])
      && r.errors == s.errors.Set(key, Diagnostic(SingleQuoteMessage(), key))
  {
    var lit := s.literals[i];
    if !(lit.raw != "" && lit.valueIsString) then s
    else if '"' !in lit.raw then s
    else
      var rewritten := s.(literals := s.literals[i := lit.(raw := SingleQuoted(lit.raw))]);
      StoreError(file, rewritten, SingleQuoteMessage(), lit.start)
  }

  // ---------------------------------------------------------------------------
  // Declaration handler

  /** Upserts the record `b` for each name in turn. */
  function Declare(vars: OrderedMap<string, Binding>, names: seq<string>, b: Binding): (r: OrderedMap<string, Binding>)
    requires vars.Valid()
    ensures r.Valid()
    ensures forall n :: n in r.entries <==> n in vars.entries || n in names
    ensures forall n | n in names :: r.entries[n] == b
    ensures forall n | n in vars.entries && n !in names :: r.entries[n] == vars.entries[n]
    decreases |names|
  {
    if names == [] then vars
    else
      var prefix := names[..|names| - 1];
      var last := names[|names| - 1];
      assert forall n :: n in names <==> n in prefix || n == last;
      Declare(vars, prefix, b).Set(last, b)
  }

  /** The names declared for the first time are appended to the keys, in declarator order. */
  lemma {:induction false} DeclareOrder(vars: OrderedMap<string, Binding>, names: seq<string>, b: Binding)
    requires vars.Valid()
    ensures Declare(vars, names, b).keys == vars.keys + NewKeys(vars.keys, names)
    decreases |names|
  {
    if names != [] {
      var prefix := names[..|names| - 1];
      DeclareOrder(vars, prefix, b);
      assert prefix + [names[|names| - 1]] == names;
      SetNewKeys(Declare(vars, prefix, b), vars.keys, prefix, names[|names| - 1], b);
    }
  }

  /**
   * Records, for every declarator name, the declaration's current kind, the
   * stage `Declaration` and this node; a name declared before gets the new
   * record. No diagnostic, no change to the tree.
   */
  function HandleDeclaration(s: State, i: nat): (r: State)
    requires Valid(s) && i < |s.declarations|
    ensures Valid(r) && KeysKept(s, r)
    ensures r == s.(variables := r.variables)
    ensures r.variables.keys == s.variables.keys + NewKeys(s.variables.keys, s.declarations[i].names)
    ensures var d := s.declarations[i];
      && (forall n :: n in r.variables.entries <==> n in s.variables.entries || n in d.names)
      && (forall n | n in d.names :: r.variables.entries[n] == Binding(d.kind, Declaration, i))
      && (forall n | n in s.variables.entries && n !in d.names :: r.variables.entries[n] == s.variables.entries[n])
  {
    var d := s.declarations[i];
    DeclareOrder(s.variables, d.names, Binding(d.kind, Declaration, i));
    s.(variables := Declare(s.variables, d.names, Binding(d.kind, Declaration, i)))
  }

  // ---------------------------------------------------------------------------
  // Assignment handler

  /** `(left.object || left).name`; an expression without `left` names nothing. */
  function TargetName(target: Target): (name: Option<string>)
  {
    match target
    case NoLeft => None
    case Plain(name) => name
    case Member(name) => name
  }

  /** The target names a binding the table holds. */
  predicate Known(s: State, target: Target)
  {
    TargetName(target).Some? && TargetName(target).value in s.variables.entries
  }

  /**
   * The three steps every rewrite takes: file `message` at the declaration,
   * set the declaration's kind, move the binding to `ExpressionDeclaration`.
   */
  function Resolve(file: string, s: State, name: string, b: Binding, kind: DeclarationKind, message: string): (r: State)
    requires Valid(s) && name in s.variables.entries && b.declaration < |s.declarations|
    ensures Valid(r) && KeysKept(s, r)
    ensures r.literals == s.literals && r.variables.keys == s.variables.keys
    ensures r.variables.entries == s.variables.entries[name := b.(stage := ExpressionDeclaration)]
    ensures r.declarations == s.declarations[b.declaration := s.declarations[b.declaration].(kind := kind)]
    ensures var key := LocationKey(file, s.declarations[b.declaration].start);
      r.errors == s.errors.Set(key, Diagnostic(message, key))
  {
    var d := s.declarations[b.declaration];
    var stored := StoreError(file, s, message, d.start);
    stored.(declarations := stored.declarations[b.declaration := d.(kind := kind)],
            variables := stored.variables.Set(name, b.(stage := ExpressionDeclaration)))
  }

  /**
   * An ExpressionStatement whose expression has a `left`. For a known binding,
   * only that binding, its declaration node and the diagnostic at that node can
   * change:
   *  - a property write while the binding is untouched makes the declaration
   *    `const` (nothing at all happens if it was declared `const`);
   *  - any other write leaves a `let` declaration, or a binding declared `let`,
   *    as it is, and otherwise makes the declaration `let`;
   * and in every case but the first's no-op the binding is resolved.
   */
  function HandleStatement(file: string, s: State, target: Target): (r: State)
    requires Valid(s)
    ensures Valid(r) && KeysKept(s, r)
    ensures r.literals == s.literals && r.variables.keys == s.variables.keys
    ensures |r.declarations| == |s.declarations|
    ensures !Known(s, target) ==> r == s
    ensures Known(s, target) ==>
      var name := TargetName(target).value;
      var b := s.variables.entries[name];
      var d := s.declarations[b.declaration];
      var key := LocationKey(file, d.start);
      && r.variables.entries == s.variables.entries[name := r.variables.entries[name]]
      && (forall j | 0 <= j < |s.declarations| && j != b.declaration :: r.declarations[j] == s.declarations[j])
      && r.declarations[b.declaration] == d.(kind := r.declarations[b.declaration].kind)
      && (if target.Member? && b.stage == Declaration then
            if b.originalKind == Const then r == s
            else
              && r.declarations[b.declaration].kind == Const
              && r.variables.entries[name] == b.(stage := ExpressionDeclaration)
              && r.errors == s.errors.Set(key, Diagnostic(UseConstMessage(b.originalKind), key))
          else
            && r.variables.entries[name] == b.(stage := ExpressionDeclaration)
            && if d.kind == Let || b.originalKind == Let then
                 r.errors == s.errors && r.declarations == s.declarations
               else
                 && r.declarations[b.declaration].kind == Let
                 && r.errors == s.errors.Set(key, Diagnostic(UseLetMessage(b.originalKind), key)))
  {
    if target.NoLeft? then s
    else
      var name := TargetName(target);
      if name.None? || name.value !in s.variables.entries then s
      else
        var b := s.variables.entries[name.value];
        var d := s.declarations[b.declaration];
        if target.Member? && b.stage == Declaration then
          if b.originalKind == Const then s
          else Resolve(file, s, name.value, b, Const, UseConstMessage(b.originalKind))
        else if d.kind == Let || b.originalKind == Let then
          s.(variables := s.variables.Set(name.value, b.(stage := ExpressionDeclaration)))
        else Resolve(file, s, name.value, b, Let, UseLetMessage(b.originalKind))
  }

  // ---------------------------------------------------------------------------
  // The walk

  /** The handler table: a node whose type has no handler changes nothing. */
  function Handle(file: string, s: State, t: Tag): (r: State)
    requires Valid(s) && TagFits(t, |s.declarations|, |s.literals|)
    ensures Valid(r) && KeysKept(s, r)
    ensures |r.declarations| == |s.declarations| && |r.literals| == |s.literals|
    ensures t.OtherNode? ==> r == s
  {
    match t
    case LiteralNode(i) => HandleLiteral(file, s, i)
    case DeclarationNode(i) => HandleDeclaration(s, i)
    case StatementNode(target) => HandleStatement(file, s, target)
    case OtherNode => s
  }

  /** The handlers applied to the tags one after the other. */
  function Run(file: string, s: State, tags: seq<Tag>): (r: State)
    requires Valid(s) && AllFit(tags, |s.declarations|, |s.literals|)
    ensures Valid(r) && KeysKept(s, r)
    ensures |r.declarations| == |s.declarations| && |r.literals| == |s.literals|
    decreases |tags|
  {
    if tags == [] then s
    else Handle(file, Run(file, s, tags[..|tags| - 1]), tags[|tags| - 1])
  }

  /** Running two batches of tags is running their concatenation. */
  lemma {:induction false} RunAppend(file: string, s: State, a: seq<Tag>, b: seq<Tag>)
    requires Valid(s)
    requires AllFit(a, |s.declarations|, |s.literals|) && AllFit(b, |s.declarations|, |s.literals|)
    ensures AllFit(a + b, |s.declarations|, |s.literals|)
    ensures Run(file, s, a + b) == Run(file, Run(file, s, a), b)
    decreases |b|
  {
    if b == [] {
      assert a + b == a;
    } else {
      var b' := b[..|b| - 1];
      assert (a + b)[..|a + b| - 1] == a + b';
      RunAppend(file, s, a, b');
    }
  }

  /**
   * Walking a node: after its own tag and its first i children, walking child
   * i finishes the first i + 1 children.
   */
  lemma WalkChild(file: string, s: State, node: Node, i: nat)
    requires Valid(s) && WellFormed(node, |s.declarations|, |s.literals|) && i < |node.children|
    ensures WellFormed(node.children[i], |s.declarations|, |s.literals|)
    ensures AllFit([node.tag] + PreorderAll(node.children[..i]), |s.declarations|, |s.literals|)
    ensures AllFit([node.tag] + PreorderAll(node.children[..i + 1]), |s.declarations|, |s.literals|)
    ensures Run(file, s, [node.tag] + PreorderAll(node.children[..i + 1])) ==
            Run(file, Run(file, s, [node.tag] + PreorderAll(node.children[..i])), Preorder(node.children[i]))
  {
    ChildWellFormed(node, i, |s.declarations|, |s.literals|);
    var done := [node.tag] + PreorderAll(node.children[..i]);
    PreorderAllStep(node.children, i);
    assert done + Preorder(node.children[i]) == [node.tag] + PreorderAll(node.children[..i + 1]);
    RunAppend(file, s, done, Preorder(node.children[i]));
  }

  /** The tags of a walk whose node type has a handler, in walk order. */
  function Handled(tags: seq<Tag>): (handled: seq<Tag>)
    decreases |tags|
  {
    if tags == [] then [] else (if tags[0].OtherNode? then [] else [tags[0]]) + Handled(tags[1..])
  }

  /** A walk runs exactly the handlers of the nodes that have one, in the order it meets them. */
  lemma {:induction false} RunHandled(file: string, s: State, tags: seq<Tag>)
    requires Valid(s) && AllFit(tags, |s.declarations|, |s.literals|)
    ensures AllFit(Handled(tags), |s.declarations|, |s.literals|)
    ensures Run(file, s, tags) == Run(file, s, Handled(tags))
    decreases |tags|
  {
    if tags != [] {
      var first, rest := tags[0], tags[1..];
      assert tags == [first] + rest;
      assert forall t | t in rest :: t in tags;
      RunAppend(file, s, [first], rest);
      assert [first][..0] == [];
      var next := Handle(file, s, first);
      RunHandled(file, next, rest);
      if first.OtherNode? {
        assert Handled(tags) == Handled(rest);
      } else {
        assert Handled(tags) == [first] + Handled(rest);
        RunAppend(file, s, [first], Handled(rest));
      }
    }
  }

  /** Running one more tag is one more handler call. */
  lemma RunPush(file: string, s: State, tags: seq<Tag>, t: Tag)
    requires Valid(s) && AllFit(tags, |s.declarations|, |s.literals|) && TagFits(t, |s.declarations|, |s.literals|)
    ensures AllFit(tags + [t], |s.declarations|, |s.literals|)
    ensures Run(file, s, tags + [t]) == Handle(file, Run(file, s, tags), t)
  {
    assert (tags + [t])[..|tags|] == tags;
  }

  // ---------------------------------------------------------------------------
  // Final pass

  /** Still untouched by any assignment and not declared `const`. */
  predicate Pending(b: Binding)
  {
    b.stage == Declaration && b.originalKind != Const
  }

  /** The final pass over the names of a snapshot of the table, in order. */
  function FinalizeNames(file: string, s: State, snapshot: map<string, Binding>, names: seq<string>): (r: State)
    requires Valid(s)
    requires forall n | n in names :: n in s.variables.entries && n in snapshot && snapshot[n].declaration < |s.declarations|
    ensures Valid(r) && KeysKept(s, r)
    ensures r.variables.keys == s.variables.keys && r.literals == s.literals
    ensures |r.declarations| == |s.declarations|
    decreases |names|
  {
    if names == [] then s
    else
      var prior := FinalizeNames(file, s, snapshot, names[..|names| - 1]);
      var name := names[|names| - 1];
      var b := snapshot[name];
      if Pending(b) then Resolve(file, prior, name, b, Const, UseConstMessage(b.originalKind)) else prior
  }

  /** Visiting one more name resolves it if it is pending and otherwise changes nothing. */
  lemma FinalizeNamesNext(file: string, s: State, snapshot: map<string, Binding>, names: seq<string>, i: nat)
    requires Valid(s) && i < |names|
    requires forall n | n in names :: n in s.variables.entries && n in snapshot && snapshot[n].declaration < |s.declarations|
    ensures forall n | n in names[..i] :: n in s.variables.entries && n in snapshot && snapshot[n].declaration < |s.declarations|
    ensures var prior := FinalizeNames(file, s, snapshot, names[..i]);
      var b := snapshot[names[i]];
      && names[i] in prior.variables.entries && b.declaration < |prior.declarations|
      && FinalizeNames(file, s, snapshot, names[..i + 1]) ==
         if Pending(b) then Resolve(file, prior, names[i], b, Const, UseConstMessage(b.originalKind)) else prior
  {
    assert names[..i + 1][..i] == names[..i];
    assert names[i] in names;
  }

  /** Some pending name of `names` refers to declaration node `j`. */
  ghost predicate RewrittenBy(snapshot: map<string, Binding>, names: seq<string>, j: nat)
  {
    exists n | n in names && n in snapshot :: Pending(snapshot[n]) && snapshot[n].declaration == j
  }

  /** The location keys of the declarations that pending names of `names` refer to. */
  ghost function ConstKeys(file: string, s: State, snapshot: map<string, Binding>, names: seq<string>): (keys: set<string>)
  {
    set n | n in names && n in snapshot && Pending(snapshot[n]) && snapshot[n].declaration < |s.declarations|
      :: LocationKey(file, s.declarations[snapshot[n].declaration].start)
  }

  /** The location keys of the declarations that pending names of `names` refer to, in the order of `names`. */
  function PendingKeys(file: string, s: State, snapshot: map<string, Binding>, names: seq<string>): (keys: seq<string>)
    requires forall n | n in names :: n in snapshot && snapshot[n].declaration < |s.declarations|
    ensures |keys| <= |names|
    ensures forall k | k in keys :: k in ConstKeys(file, s, snapshot, names)
    ensures forall n | n in names && Pending(snapshot[n]) :: LocationKey(file, s.declarations[snapshot[n].declaration].start) in keys
    decreases |names|
  {
    if names == [] then []
    else
      var b := snapshot[names[|names| - 1]];
      PendingKeys(file, s, snapshot, names[..|names| - 1]) +
        (if Pending(b) then [LocationKey(file, s.declarations[b.declaration].start)] else [])
  }

  /**
   * `message` is the "use const" advice for the declared kind of some pending
   * name of `names` whose declaration sits at key `k`.
   */
  ghost predicate AdviceFor(file: string, s: State, snapshot: map<string, Binding>, names: seq<string>, k: string, message: string)
  {
    exists n | n in names && n in snapshot && Pending(snapshot[n]) && snapshot[n].declaration < |s.declarations| ::
      && LocationKey(file, s.declarations[snapshot[n].declaration].start) == k
      && message == UseConstMessage(snapshot[n].originalKind)
  }

  /** Advice for a pending name of `prefix` is advice for a pending name of any longer list. */
  lemma AdviceForGrows(file: string, s: State, snapshot: map<string, Binding>, prefix: seq<string>, name: string,
                       k: string, message: string)
    requires AdviceFor(file, s, snapshot, prefix, k, message)
    ensures AdviceFor(file, s, snapshot, prefix + [name], k, message)
  {
    var n :| n in prefix && n in snapshot && Pending(snapshot[n]) && snapshot[n].declaration < |s.declarations| &&
      LocationKey(file, s.declarations[snapshot[n].declaration].start) == k &&
      message == UseConstMessage(snapshot[n].originalKind);
    assert n in prefix + [name];
  }

  /** The final pass resolves exactly the pending names it visits. */
  lemma {:induction false} FinalizeNamesBindings(file: string, s: State, snapshot: map<string, Binding>, names: seq<string>)
    requires Valid(s)
    requires forall n | n in names :: n in s.variables.entries && n in snapshot && snapshot[n].declaration < |s.declarations|
    ensures var r := FinalizeNames(file, s, snapshot, names);
      forall n | n in s.variables.entries ::
        r.variables.entries[n] ==
          if n in names && Pending(snapshot[n]) then snapshot[n].(stage := ExpressionDeclaration)
          else s.variables.entries[n]
    decreases |names|
  {
    if names != [] {
      var prefix := names[..|names| - 1];
      var name := names[|names| - 1];
      assert forall n :: n in names <==> n in prefix || n == name;
      FinalizeNamesBindings(file, s, snapshot, prefix);
    }
  }

  /** The final pass makes `const` exactly the declarations that the pending names it visits refer to. */
  lemma {:induction false} FinalizeNamesDeclarations(file: string, s: State, snapshot: map<string, Binding>, names: seq<string>)
    requires Valid(s)
    requires forall n | n in names :: n in s.variables.entries && n in snapshot && snapshot[n].declaration < |s.declarations|
    ensures var r := FinalizeNames(file, s, snapshot, names);
      forall j | 0 <= j < |s.declarations| ::
        r.declarations[j] ==
          if RewrittenBy(snapshot, names, j) then s.declarations[j].(kind := Const) else s.declarations[j]
    decreases |names|
  {
    if names != [] {
      var prefix := names[..|names| - 1];
      var name := names[|names| - 1];
      assert forall n :: n in names <==> n in prefix || n == name;
      FinalizeNamesDeclarations(file, s, snapshot, prefix);
      var b := snapshot[name];
      if Pending(b) {
        assert RewrittenBy(snapshot, names, b.declaration);
        assert forall j | 0 <= j < |s.declarations| && j != b.declaration ::
          RewrittenBy(snapshot, names, j) == RewrittenBy(snapshot, prefix, j);
      } else {
        assert forall j | 0 <= j < |s.declarations| ::
          RewrittenBy(snapshot, names, j) == RewrittenBy(snapshot, prefix, j);
      }
    }
  }

  /** Every key of `ConstKeys` holds the advice for a pending name of `names` there. */
  ghost predicate AdvicePresent(file: string, s: State, snapshot: map<string, Binding>, names: seq<string>,
                                errors: map<string, Diagnostic>)
  {
    forall k | k in ConstKeys(file, s, snapshot, names) ::
      k in errors && AdviceFor(file, s, snapshot, names, k, errors[k].message)
  }

  /** Every diagnostic is one of `found`, unchanged, or advice for a pending name of `names`. */
  ghost predicate AdviceOnly(file: string, s: State, snapshot: map<string, Binding>, names: seq<string>,
                             found: map<string, Diagnostic>, errors: map<string, Diagnostic>)
  {
    forall k | k in errors ::
      || (k in found && errors[k] == found[k])
      || (k in ConstKeys(file, s, snapshot, names) && AdviceFor(file, s, snapshot, names, k, errors[k].message))
  }

  /** The diagnostics one more visited name leaves, given those the names before it left. */
  ghost function NextErrors(file: string, s: State, snapshot: map<string, Binding>, name: string,
                            prior: map<string, Diagnostic>): (errors: map<string, Diagnostic>)
    requires name in snapshot && snapshot[name].declaration < |s.declarations|
  {
    var b := snapshot[name];
    var key := LocationKey(file, s.declarations[b.declaration].start);
    if Pending(b) then prior[key := Diagnostic(UseConstMessage(b.originalKind), key)] else prior
  }

  lemma AdviceStep(file: string, s: State, snapshot: map<string, Binding>, prefix: seq<string>, name: string,
                   found: map<string, Diagnostic>, prior: map<string, Diagnostic>)
    requires forall n | n in prefix + [name] :: n in snapshot && snapshot[n].declaration < |s.declarations|
    requires AdvicePresent(file, s, snapshot, prefix, prior)
    requires AdviceOnly(file, s, snapshot, prefix, found, prior)
    ensures AdvicePresent(file, s, snapshot, prefix + [name], NextErrors(file, s, snapshot, name, prior))
    ensures AdviceOnly(file, s, snapshot, prefix + [name], found, NextErrors(file, s, snapshot, name, prior))
  {
    var names := prefix + [name];
    var errors := NextErrors(file, s, snapshot, name, prior);
    var b := snapshot[name];
    var key := LocationKey(file, s.declarations[b.declaration].start);
    assert forall n :: n in names <==> n in prefix || n == name;
    if Pending(b) {
      assert AdviceFor(file, s, snapshot, names, key, UseConstMessage(b.originalKind));
    }
    forall k | k in ConstKeys(file, s, snapshot, names)
      ensures k in errors && AdviceFor(file, s, snapshot, names, k, errors[k].message)
    {
      if !(Pending(b) && k == key) {
        assert k in ConstKeys(file, s, snapshot, prefix);
        AdviceForGrows(file, s, snapshot, prefix, name, k, errors[k].message);
      }
    }
    forall k | k in errors
      ensures || (k in found && errors[k] == found[k])
              || (k in ConstKeys(file, s, snapshot, names) && AdviceFor(file, s, snapshot, names, k, errors[k].message))
    {
      if !(Pending(b) && k == key) && !(k in found && errors[k] == found[k]) {
        assert k in ConstKeys(file, s, snapshot, prefix);
        AdviceForGrows(file, s, snapshot, prefix, name, k, errors[k].message);
      }
    }
  }

  /**
   * The final pass leaves a "use const" diagnostic at every declaration that a
   * pending name it visits refers to, and every other diagnostic it leaves is
   * one it found, unchanged.
   */
  lemma {:induction false} FinalizeNamesErrors(file: string, s: State, snapshot: map<string, Binding>, names: seq<string>)
    requires Valid(s)
    requires forall n | n in names :: n in s.variables.entries && n in snapshot && snapshot[n].declaration < |s.declarations|
    ensures var r := FinalizeNames(file, s, snapshot, names);
      && AdvicePresent(file, s, snapshot, names, r.errors.entries)
      && AdviceOnly(file, s, snapshot, names, s.errors.entries, r.errors.entries)
    decreases |names|
  {
    if names != [] {
      var prefix := names[..|names| - 1];
      var name := names[|names| - 1];
      assert prefix + [name] == names;
      FinalizeNamesErrors(file, s, snapshot, prefix);
      FinalizeNamesDeclarations(file, s, snapshot, prefix);
      var prior := FinalizeNames(file, s, snapshot, prefix);
      var b := snapshot[name];
      assert prior.declarations[b.declaration].start == s.declarations[b.declaration].start;
      assert FinalizeNames(file, s, snapshot, names).errors.entries == NextErrors(file, s, snapshot, name, prior.errors.entries);
      AdviceStep(file, s, snapshot, prefix, name, s.errors.entries, prior.errors.entries);
    }
  }

  /**
   * The final pass files its new diagnostics after the old ones, in the order
   * of the pending names it visits; a key already present keeps its place.
   */
  lemma {:induction false} FinalizeNamesOrder(file: string, s: State, snapshot: map<string, Binding>, names: seq<string>)
    requires Valid(s)
    requires forall n | n in names :: n in s.variables.entries && n in snapshot && snapshot[n].declaration < |s.declarations|
    ensures FinalizeNames(file, s, snapshot, names).errors.keys ==
            s.errors.keys + NewKeys(s.errors.keys, PendingKeys(file, s, snapshot, names))
    decreases |names|
  {
    if names != [] {
      var prefix := names[..|names| - 1];
      var name := names[|names| - 1];
      FinalizeNamesOrder(file, s, snapshot, prefix);
      var b := snapshot[name];
      var prior := FinalizeNames(file, s, snapshot, prefix);
      var before := PendingKeys(file, s, snapshot, prefix);
      if Pending(b) {
        FinalizeNamesDeclarations(file, s, snapshot, prefix);
        assert prior.declarations[b.declaration].start == s.declarations[b.declaration].start;
        var key := LocationKey(file, s.declarations[b.declaration].start);
        var r := Resolve(file, prior, name, b, Const, UseConstMessage(b.originalKind));
        assert FinalizeNames(file, s, snapshot, names) == r;
        assert r.errors == prior.errors.Set(key, Diagnostic(UseConstMessage(b.originalKind), key));
        assert PendingKeys(file, s, snapshot, names) == before + [key];
        SetNewKeys(prior.errors, s.errors.keys, before, key, Diagnostic(UseConstMessage(b.originalKind), key));
      } else {
        assert PendingKeys(file, s, snapshot, names) == before + [];
        assert before + [] == before;
      }
    }
  }

  /** All pending bindings whose declarations start at the same position were declared with the same kind. */
  ghost predicate PendingKindsAgree(s: State)
    requires Valid(s)
  {
    forall n, m | n in s.variables.entries && m in s.variables.entries ::
      var b, c := s.variables.entries[n], s.variables.entries[m];
      (Pending(b) && Pending(c) && s.declarations[b.declaration].start == s.declarations[c.declaration].start)
        ==> b.originalKind == c.originalKind
  }

  /**
   * The final pass over a snapshot of the table: afterwards no binding is
   * pending, and literals and the order of both tables are untouched.
   */
  function Finalize(file: string, s: State): (r: State)
    requires Valid(s)
    ensures Valid(r) && KeysKept(s, r)
    ensures r.variables.keys == s.variables.keys && r.literals == s.literals
    ensures |r.declarations| == |s.declarations|
    ensures forall n | n in r.variables.entries :: !Pending(r.variables.entries[n])
  {
    FinalizeNamesBindings(file, s, s.variables.entries, s.variables.keys);
    FinalizeNames(file, s, s.variables.entries, s.variables.keys)
  }

  /**
   * Each binding that was pending is resolved, its declaration is `const` and
   * a "use const" diagnostic is stored at the declaration; every other binding
   * is as it was; a declaration no pending binding refers to is unchanged; and
   * a stored diagnostic changes only where a pending binding's declaration is.
   */
  lemma FinalizeEffect(file: string, s: State)
    requires Valid(s)
    ensures var r := Finalize(file, s);
      forall n | n in s.variables.entries ::
        var b := s.variables.entries[n];
        r.variables.entries[n] == if Pending(b) then b.(stage := ExpressionDeclaration) else b
    ensures var r := Finalize(file, s);
      forall n | n in s.variables.entries && Pending(s.variables.entries[n]) ::
        var j := s.variables.entries[n].declaration;
        var key := LocationKey(file, s.declarations[j].start);
        && r.declarations[j] == s.declarations[j].(kind := Const)
        && key in r.errors.entries
        && AdviceFor(file, s, s.variables.entries, s.variables.keys, key, r.errors.entries[key].message)
    ensures var r := Finalize(file, s);
      forall j | 0 <= j < |s.declarations| && !RewrittenBy(s.variables.entries, s.variables.keys, j) ::
        r.declarations[j] == s.declarations[j]
    ensures var r := Finalize(file, s);
      forall k | k in r.errors.entries ::
        || (k in s.errors.entries && r.errors.entries[k] == s.errors.entries[k])
        || (k in ConstKeys(file, s, s.variables.entries, s.variables.keys) &&
            AdviceFor(file, s, s.variables.entries, s.variables.keys, k, r.errors.entries[k].message))
  {
    var snapshot, names := s.variables.entries, s.variables.keys;
    FinalizeNamesBindings(file, s, snapshot, names);
    FinalizeNamesDeclarations(file, s, snapshot, names);
    FinalizeNamesErrors(file, s, snapshot, names);
    forall n | n in snapshot && Pending(snapshot[n])
      ensures RewrittenBy(snapshot, names, snapshot[n].declaration)
      ensures LocationKey(file, s.declarations[snapshot[n].declaration].start) in ConstKeys(file, s, snapshot, names)
    {
    }
  }

  /**
   * The final pass files its new diagnostics after those already stored, in
   * the order of the binding table: one per new location, in the order the
   * pending bindings appear.
   */
  lemma FinalizeOrder(file: string, s: State)
    requires Valid(s)
    ensures Finalize(file, s).errors.keys ==
            s.errors.keys + NewKeys(s.errors.keys, PendingKeys(file, s, s.variables.entries, s.variables.keys))
  {
    FinalizeNamesOrder(file, s, s.variables.entries, s.variables.keys);
  }

  /**
   * When the pending bindings at one position share their declared kind (as
   * those of one declaration do), the diagnostic the final pass leaves at a
   * pending binding's declaration is `use "const" instead of <its kind>`.
   */
  lemma FinalizeMessages(file: string, s: State)
    requires Valid(s) && PendingKindsAgree(s)
    ensures var r := Finalize(file, s);
      forall n | n in s.variables.entries && Pending(s.variables.entries[n]) ::
        var b := s.variables.entries[n];
        var key := LocationKey(file, s.declarations[b.declaration].start);
        key in r.errors.entries && r.errors.entries[key] == Diagnostic(UseConstMessage(b.originalKind), key)
  {
    FinalizeEffect(file, s);
    var r := Finalize(file, s);
    forall n | n in s.variables.entries && Pending(s.variables.entries[n])
      ensures var b := s.variables.entries[n];
        var key := LocationKey(file, s.declarations[b.declaration].start);
        key in r.errors.entries && r.errors.entries[key] == Diagnostic(UseConstMessage(b.originalKind), key)
    {
      var b := s.variables.entries[n];
      var key := LocationKey(file, s.declarations[b.declaration].start);
      var m :| m in s.variables.keys && m in s.variables.entries && Pending(s.variables.entries[m])
        && s.variables.entries[m].declaration < |s.declarations|
        && LocationKey(file, s.declarations[s.variables.entries[m].declaration].start) == key
        && r.errors.entries[key].message == UseConstMessage(s.variables.entries[m].originalKind);
      LocationKeyInjective(file, s.declarations[b.declaration].start, s.declarations[s.variables.entries[m].declaration].start);
    }
  }

  // ---------------------------------------------------------------------------
  // The final pass as its name intends it

  /** Some binding that an assignment has resolved refers to declaration `j`. */
  predicate Assigned(s: State, j: nat)
  {
    exists n | n in s.variables.entries :: s.variables.entries[n].stage == ExpressionDeclaration && s.variables.entries[n].declaration == j
  }

  /** The names of `names` whose declaration no assignment has touched, in order. */
  function UntouchedNames(s: State, names: seq<string>): (kept: seq<string>)
    ensures forall n | n in kept :: n in names && n in s.variables.entries && !Assigned(s, s.variables.entries[n].declaration)
    ensures forall n | n in names && n in s.variables.entries && !Assigned(s, s.variables.entries[n].declaration) :: n in kept
    decreases |names|
  {
    if names == [] then []
    else
      var n := names[|names| - 1];
      assert forall m | m in names :: m in names[..|names| - 1] || m == n;
      UntouchedNames(s, names[..|names| - 1]) +
        (if n in s.variables.entries && !Assigned(s, s.variables.entries[n].declaration) then [n] else [])
  }

  /** The final pass restricted to the bindings of declarations that never changed. */
  function FinalizeIntended(file: string, s: State): (r: State)
    requires Valid(s)
    ensures Valid(r) && KeysKept(s, r)
    ensures r.variables.keys == s.variables.keys && r.literals == s.literals
  {
    FinalizeNames(file, s, s.variables.entries, UntouchedNames(s, s.variables.keys))
  }

  /**
   * A declaration one of whose bindings was assigned keeps the kind the
   * assignment rules gave it, and every other declaration of a pending binding
   * becomes `const`.
   */
  lemma FinalizeIntendedEffect(file: string, s: State)
    requires Valid(s)
    ensures var r := FinalizeIntended(file, s);
      forall j | 0 <= j < |s.declarations| && Assigned(s, j) :: r.declarations[j] == s.declarations[j]
    ensures var r := FinalizeIntended(file, s);
      forall n | n in s.variables.entries && Pending(s.variables.entries[n]) &&
                 !Assigned(s, s.variables.entries[n].declaration) ::
        var j := s.variables.entries[n].declaration;
        r.declarations[j] == s.declarations[j].(kind := Const)
  {
    var snapshot, names := s.variables.entries, UntouchedNames(s, s.variables.keys);
    FinalizeNamesDeclarations(file, s, snapshot, names);
    forall j | 0 <= j < |s.declarations| && Assigned(s, j)
      ensures !RewrittenBy(snapshot, names, j)
    {
    }
    forall n | n in snapshot && Pending(snapshot[n]) && !Assigned(s, snapshot[n].declaration)
      ensures RewrittenBy(snapshot, names, snapshot[n].declaration)
    {
      assert n in s.variables.keys;
    }
  }

  // ---------------------------------------------------------------------------
  // The whole pass

  /** The literal after the quote rule has seen it. */
  function QuoteFixed(lit: Literal): (fixed: Literal)
  {
    if NeedsSingleQuotes(lit) then lit.(raw := SingleQuoted(lit.raw)) else lit
  }

  /** One handler quote-fixes literal `i` when its node is that literal, and otherwise leaves it alone. */
  lemma HandleLiteralAt(file: string, s: State, t: Tag, i: nat)
    requires Valid(s) && TagFits(t, |s.declarations|, |s.literals|) && i < |s.literals|
    ensures Handle(file, s, t).literals[i] == if t == LiteralNode(i) then QuoteFixed(s.literals[i]) else s.literals[i]
  {
  }

  /** Literal `i` ends up quote-fixed exactly when the walk meets it. */
  lemma {:induction false} RunLiteral(file: string, s: State, tags: seq<Tag>, i: nat)
    requires Valid(s) && AllFit(tags, |s.declarations|, |s.literals|) && i < |s.literals|
    ensures Run(file, s, tags).literals[i] ==
      if LiteralNode(i) in tags then QuoteFixed(s.literals[i]) else s.literals[i]
    decreases |tags|
  {
    if tags != [] {
      var prefix := tags[..|tags| - 1];
      var t := tags[|tags| - 1];
      assert forall u :: u in tags <==> u in prefix || u == t;
      RunLiteral(file, s, prefix, i);
      var prior := Run(file, s, prefix);
      assert Run(file, s, tags) == Handle(file, prior, t);
      HandleLiteralAt(file, prior, t, i);
      if t == LiteralNode(i) && LiteralNode(i) in prefix {
        assert QuoteFixed(prior.literals[i]) == prior.literals[i];
      }
    }
  }


  /**
   * `process`: walk the tree, then run the final pass. Afterwards no binding is
   * pending, every literal the walk met is quote-fixed and every other literal
   * is unchanged, and diagnostics stored before keep their positions.
   */
  function Process(file: string, s: State, ast: Node): (r: State)
    requires Valid(s) && WellFormed(ast, |s.declarations|, |s.literals|)
    ensures Valid(r) && KeysKept(s, r)
    ensures |r.declarations| == |s.declarations| && |r.literals| == |s.literals|
    ensures forall n | n in r.variables.entries :: !Pending(r.variables.entries[n])
    ensures forall i | 0 <= i < |s.literals| ::
      r.literals[i] == if LiteralNode(i) in Preorder(ast) then QuoteFixed(s.literals[i]) else s.literals[i]
  {
    var walked := Run(file, s, Preorder(ast));
    assert forall i | 0 <= i < |s.literals| ::
      walked.literals[i] == if LiteralNode(i) in Preorder(ast) then QuoteFixed(s.literals[i]) else s.literals[i]
    by {
      forall i | 0 <= i < |s.literals| {
        RunLiteral(file, s, Preorder(ast), i);
      }
    }
    Finalize(file, walked)
  }

  /** What `process` returns: the stored diagnostics in the order their keys were first stored. */
  function Output(s: State): (diagnostics: seq<Diagnostic>)
    requires Valid(s)
    ensures |diagnostics| == |s.errors.keys|
    ensures forall i | 0 <= i < |diagnostics| :: diagnostics[i] == s.errors.entries[s.errors.keys[i]]
    ensures forall i | 0 <= i < |diagnostics| :: diagnostics[i].errorLocation == s.errors.keys[i]
  {
    s.errors.Values()
  }
}
