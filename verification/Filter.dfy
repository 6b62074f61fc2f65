/** WHERE filters and the part of them that is pushed down to storage. */
module Filter {
  import opened Bytes

  datatype Value = IntVal(i: int) | DoubleVal(d: real) | BoolVal(b: bool) | StrVal(s: string)

  /** The truth of a value. A string counts as true when it is empty. */
  predicate AsBool(v: Value) {
    match v
    case IntVal(i) => i != 0
    case DoubleVal(d) => d != 0.0
    case BoolVal(b) => b
    case StrVal(s) => s == ""
  }

  /** The false values: zero, false, and every string that holds something. */
  lemma FalseValues(v: Value)
    ensures !AsBool(v) <==>
      v == IntVal(0) || v == DoubleVal(0.0) || v == BoolVal(false) || (v.StrVal? && |v.s| > 0)
  {
  }

  datatype PropKind =
    | SourceProp | EdgeRank | EdgeDstId | EdgeSrcId | EdgeTypeOf | AliasProp
    | VariableProp | DestProp | InputProp | UUID

  datatype LogicalOp = AND | OR | XOR

  datatype Expr =
    | Primary(v: Value)
    | Prop(kind: PropKind, name: string)
      /** Unary, type-casting, arithmetic, relational and function-call expressions. */
    | Apply(op: string, args: seq<Expr>)
    | Logical(lop: LogicalOp, left: Expr, right: Expr)

  /** What the getters answer; None is an error. */
  type Env = (PropKind, string) -> Option<Value>

  /** What the strict operators compute from their operands. */
  type Operators = (string, seq<Value>) -> Option<Value>

  function Eval(e: Expr, env: Env, ops: Operators): Option<Value>
    decreases e, 0
  {
    match e
    case Primary(v) => Some(v)
    case Prop(kind, name) => env(kind, name)
    case Apply(op, args) =>
      (match EvalAll(args, env, ops)
       case None => None
       case Some(vs) => ops(op, vs))
    case Logical(lop, left, right) =>
      match (Eval(left, env, ops), Eval(right, env, ops))
      case (Some(l), Some(r)) => Some(BoolVal(Combine(lop, AsBool(l), AsBool(r))))
      case _ => None
  }

  function EvalAll(args: seq<Expr>, env: Env, ops: Operators): Option<seq<Value>>
    decreases args, 0
  {
    if args == [] then Some([])
    else
      match (Eval(args[0], env, ops), EvalAll(args[1..], env, ops))
      case (Some(v), Some(vs)) => Some([v] + vs)
      case _ => None
  }

  predicate Combine(lop: LogicalOp, l: bool, r: bool) {
    match lop
    case AND => l && r
    case OR => l || r
    case XOR => l != r
  }

  // ----- the rewrite -----

  predicate Local(kind: PropKind) {
    kind != VariableProp && kind != DestProp && kind != InputProp
  }

  /** Lines 513-526 of TraverseExecutor.cpp: no input, variable or destination property anywhere inside. */
  predicate CanPushdown(e: Expr) {
    match e
    case Primary(_) => true
    case Prop(kind, _) => Local(kind)
    case Apply(_, args) => forall i :: 0 <= i < |args| ==> CanPushdown(args[i])
    case Logical(_, left, right) => CanPushdown(left) && CanPushdown(right)
  }

  /** Lines 449-511 of TraverseExecutor.cpp: the expression rewritten for storage, or None when it
      cannot be pushed. */
  function Rewrite(e: Expr): (r: Option<Expr>)
    ensures r.Some? ==> CanPushdown(r.value)
  {
    match e
    case Logical(XOR, _, _) => if CanPushdown(e) then Some(e) else None
    case Logical(OR, left, right) =>
      (match (Rewrite(left), Rewrite(right))
       case (Some(l), Some(r)) => Some(Logical(OR, l, r))
       case _ => None)
    case Logical(AND, left, right) =>
      (match (Rewrite(left), Rewrite(right))
       case (None, None) => None
       case (None, Some(r)) => Some(Logical(AND, Primary(BoolVal(true)), r))
       case (Some(l), None) => Some(Logical(AND, l, Primary(BoolVal(true))))
       case (Some(l), Some(r)) => Some(Logical(AND, l, r)))
    case Apply(_, _) => if CanPushdown(e) then Some(e) else None
    case Primary(_) => Some(e)
    case Prop(kind, _) => if Local(kind) && kind != UUID then Some(e) else None
  }

  /** A property of this kind stands somewhere inside. */
  predicate Mentions(e: Expr, kind: PropKind) {
    match e
    case Primary(_) => false
    case Prop(k, _) => k == kind
    case Apply(_, args) => exists i :: 0 <= i < |args| && Mentions(args[i], kind)
    case Logical(_, left, right) => Mentions(left, kind) || Mentions(right, kind)
  }

  lemma {:induction false} CanPushdownIff(e: Expr)
    ensures CanPushdown(e) <==>
      !Mentions(e, InputProp) && !Mentions(e, VariableProp) && !Mentions(e, DestProp)
  {
    match e
    case Apply(_, args) =>
      forall i | 0 <= i < |args|
        ensures CanPushdown(args[i]) <==>
          !Mentions(args[i], InputProp) && !Mentions(args[i], VariableProp) && !Mentions(args[i], DestProp)
      {
        CanPushdownIff(args[i]);
      }
    case Logical(_, left, right) =>
      CanPushdownIff(left);
      CanPushdownIff(right);
    case _ =>
  }

  /** What is pushed mentions nothing that storage does not have. */
  lemma PushedMentions(e: Expr)
    requires Rewrite(e).Some?
    ensures var pushed := Rewrite(e).value;
      !Mentions(pushed, InputProp) && !Mentions(pushed, VariableProp) && !Mentions(pushed, DestProp)
  {
    CanPushdownIff(Rewrite(e).value);
  }

  /** An input or variable property stands somewhere inside. */
  predicate ReadsInput(e: Expr) {
    match e
    case Primary(_) => false
    case Prop(kind, _) => kind == InputProp || kind == VariableProp
    case Apply(_, args) => exists i :: 0 <= i < |args| && ReadsInput(args[i])
    case Logical(_, left, right) => ReadsInput(left) || ReadsInput(right)
  }

  ghost predicate AgreeElsewhere(a: Env, b: Env) {
    forall kind, name :: kind != InputProp && kind != VariableProp ==> a(kind, name) == b(kind, name)
  }

  /** Without one the value is the same for every input row. */
  lemma {:induction false} EvalSame(e: Expr, a: Env, b: Env, ops: Operators)
    requires AgreeElsewhere(a, b) && !ReadsInput(e)
    ensures Eval(e, a, ops) == Eval(e, b, ops)
    decreases e, 0
  {
    match e
    case Primary(_) =>
    case Prop(_, _) =>
    case Apply(_, args) => AllSame(args, a, b, ops);
    case Logical(_, left, right) =>
      EvalSame(left, a, b, ops);
      EvalSame(right, a, b, ops);
  }

  lemma {:induction false} AllSame(args: seq<Expr>, a: Env, b: Env, ops: Operators)
    requires AgreeElsewhere(a, b) && forall i :: 0 <= i < |args| ==> !ReadsInput(args[i])
    ensures EvalAll(args, a, ops) == EvalAll(args, b, ops)
    decreases args, 0
  {
    if args != [] {
      EvalSame(args[0], a, b, ops);
      AllSame(args[1..], a, b, ops);
    }
  }

  /** Storage answers every local property as the graph side does, or fails to. */
  ghost predicate Agrees(storage: Env, graph: Env) {
    forall kind, name :: Local(kind) ==> storage(kind, name) == None || storage(kind, name) == graph(kind, name)
  }

  /** So it does with every expression made of them. */
  lemma {:induction false} EvalAgrees(e: Expr, storage: Env, graph: Env, ops: Operators)
    requires Agrees(storage, graph) && CanPushdown(e)
    ensures Eval(e, storage, ops) == None || Eval(e, storage, ops) == Eval(e, graph, ops)
    decreases e, 0
  {
    match e
    case Primary(_) =>
    case Prop(_, _) =>
    case Apply(_, args) => AllAgree(args, storage, graph, ops);
    case Logical(_, left, right) =>
      EvalAgrees(left, storage, graph, ops);
      EvalAgrees(right, storage, graph, ops);
  }

  lemma {:induction false} AllAgree(args: seq<Expr>, storage: Env, graph: Env, ops: Operators)
    requires Agrees(storage, graph) && forall i :: 0 <= i < |args| ==> CanPushdown(args[i])
    ensures EvalAll(args, storage, ops) == None || EvalAll(args, storage, ops) == EvalAll(args, graph, ops)
    decreases args, 0
  {
    if args != [] {
      EvalAgrees(args[0], storage, graph, ops);
      AllAgree(args[1..], storage, graph, ops);
    }
  }

  /** Evaluates without an error, and to true. */
  predicate Holds(v: Option<Value>) {
    v.Some? && AsBool(v.value)
  }

  /** Storage drops an edge only when the pushed filter evaluates, and to false. */
  predicate Dropped(v: Option<Value>) {
    v.Some? && !AsBool(v.value)
  }

  /** The pushed filter is only weaker: what the filter accepts, storage keeps. */
  lemma {:induction false} RewriteWeakens(e: Expr, storage: Env, graph: Env, ops: Operators)
    requires Agrees(storage, graph) && Rewrite(e).Some? && Holds(Eval(e, graph, ops))
    ensures !Dropped(Eval(Rewrite(e).value, storage, ops))
  {
    match e
    case Logical(OR, left, right) =>
      if AsBool(Eval(left, graph, ops).value) {
        RewriteWeakens(left, storage, graph, ops);
      } else {
        RewriteWeakens(right, storage, graph, ops);
      }
    case Logical(AND, left, right) =>
      if Rewrite(left).Some? {
        RewriteWeakens(left, storage, graph, ops);
      }
      if Rewrite(right).Some? {
        RewriteWeakens(right, storage, graph, ops);
      }
    case _ =>
      EvalAgrees(e, storage, graph, ops);
  }

  /** A part that is pushed whole or not at all. */
  predicate PushedPart(e: Expr) {
    CanPushdown(e) && !(e.Prop? && e.kind == UUID)
  }

  /** Something of the filter can be pushed: of an AND one side is enough, of an OR both are needed. */
  predicate Pushes(e: Expr) {
    match e
    case Logical(AND, left, right) => Pushes(left) || Pushes(right)
    case Logical(OR, left, right) => Pushes(left) && Pushes(right)
    case _ => PushedPart(e)
  }

  /** The parts that can be pushed rule the filter out, whatever the others are. */
  ghost predicate Refuted(e: Expr, env: Env, ops: Operators) {
    match e
    case Logical(AND, left, right) => Refuted(left, env, ops) || Refuted(right, env, ops)
    case Logical(OR, left, right) => Refuted(left, env, ops) && Refuted(right, env, ops)
    case _ => PushedPart(e) && Dropped(Eval(e, env, ops))
  }

  /** Nothing that could be pushed is held back: a filter is pushed exactly if it has such a part, and
      where the pushed filter evaluates it drops exactly what those parts rule out. */
  lemma {:induction false} RewriteComplete(e: Expr, env: Env, ops: Operators)
    ensures Rewrite(e).Some? <==> Pushes(e)
    ensures Rewrite(e).Some? && Eval(Rewrite(e).value, env, ops).Some? ==>
      (Dropped(Eval(Rewrite(e).value, env, ops)) <==> Refuted(e, env, ops))
    ensures Rewrite(e).None? ==> !Refuted(e, env, ops)
  {
    match e
    case Logical(AND, left, right) =>
      RewriteComplete(left, env, ops);
      RewriteComplete(right, env, ops);
    case Logical(OR, left, right) =>
      RewriteComplete(left, env, ops);
      RewriteComplete(right, env, ops);
    case _ =>
  }

  /** What the operators make of two operands that evaluate, and that an error of one is an error of
      the whole even where the other decides. */
  lemma LogicalLaws(l: Expr, r: Expr, env: Env, ops: Operators)
    ensures forall lop :: Eval(Logical(lop, l, r), env, ops) == None <==>
      Eval(l, env, ops) == None || Eval(r, env, ops) == None
    ensures Eval(l, env, ops).Some? && Eval(r, env, ops).Some? ==>
      (Holds(Eval(Logical(AND, l, r), env, ops)) <==> Holds(Eval(l, env, ops)) && Holds(Eval(r, env, ops))) &&
      (Holds(Eval(Logical(OR, l, r), env, ops)) <==> Holds(Eval(l, env, ops)) || Holds(Eval(r, env, ops))) &&
      (Holds(Eval(Logical(XOR, l, r), env, ops)) <==> Holds(Eval(l, env, ops)) != Holds(Eval(r, env, ops)))
  {
  }

  /** No UUID stands by itself as an operand of AND and OR. */
  predicate NoBareUUID(e: Expr) {
    match e
    case Prop(kind, _) => kind != UUID
    case Logical(lop, left, right) => lop == XOR || (NoBareUUID(left) && NoBareUUID(right))
    case _ => true
  }

  /** Exactly when the whole filter is pushed as it stands. */
  lemma {:induction false} RewriteWhole(e: Expr)
    ensures Rewrite(e) == Some(e) <==> CanPushdown(e) && NoBareUUID(e)
  {
    match e
    case Logical(_, left, right) =>
      RewriteWhole(left);
      RewriteWhole(right);
    case _ =>
  }

  /** What the filter passed to storage is: the rewrite on the last step of a forward
      traversal, and nothing otherwise. */
  function FilterPushdown(enabled: bool, where: Option<Expr>, finalStep: bool, forward: bool): Option<Expr> {
    if enabled && finalStep && forward && where.Some? then Rewrite(where.value) else None
  }

  lemma PushedIff(enabled: bool, where: Option<Expr>, finalStep: bool, forward: bool)
    ensures FilterPushdown(enabled, where, finalStep, forward).Some? <==>
      enabled && finalStep && forward && where.Some? && Pushes(where.value)
  {
    if where.Some? {
      RewriteComplete(where.value, (kind, name) => None, (op, vals) => None);
    }
  }
}
