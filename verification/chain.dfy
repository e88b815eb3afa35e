/**
  The expression-chain compiler: it flattens each expression tree, children
  first, into an append-only list of actions (`Input`, `Constant`, `Alias`,
  `Function`).

  Everything the compiler asks of the rest of the system is a field of
  `Collaborators`: the scalar function factory, the two cast constructors,
  the typing of an expression against the schema (`to_data_type`) and the
  display name of an expression (`column_name`). The traversal replaces the
  unsafe visitor by a plain recursive walk that visits the
  sub-expressions of a node, left to right, before the node itself; the
  order among siblings is the model's choice.
 */
module Chain {
  import opened Wrappers
  import opened Exception
  import opened DataValues

  datatype Expression =
    | Alias(alias: string, sub: Expression)
    | Column(column: string)
    | QualifiedColumn(path: seq<string>)
    | Literal(value: DataValue, columnName: Option<string>, dataType: DataType)
    | UnaryExpression(op: string, expr: Expression)
    | BinaryExpression(op: string, left: Expression, right: Expression)
    | ScalarFunction(op: string, args: seq<Expression>)
    | AggregateFunction(op: string, distinct: bool, params: seq<DataValue>, args: seq<Expression>)
    | Wildcard
    | Sort(expr: Expression, asc: bool, nullsFirst: bool)
    | Cast(expr: Expression, dataType: DataType)
    | MapAccess(name: string, args: seq<Expression>)

  /** A function bound by a factory; only its return type is consulted. */
  datatype FunctionRef = FunctionRef(id: nat, returnType: DataType)

  datatype Action =
    | ActionInput(name: string, returnType: DataType)
    | ActionConstant(name: string, value: DataValue, dataType: DataType)
    | ActionAlias(name: string, argName: string, argType: DataType)
    | ActionFunction(name: string, funcName: string, func: FunctionRef,
                     argNames: seq<string>, argTypes: seq<DataType>, returnType: DataType)

  datatype Collaborators = Collaborators(
    // `column_name()` of every expression other than an alias or a column
    displayName: Expression -> string,
    // `to_data_type(schema)`
    toDataType: (DataSchema, Expression) -> Result<DataType>,
    // `FunctionFactory::instance().get(name, arg_types)`
    functionFactory: (string, seq<DataType>) -> Result<FunctionRef>,
    // `CastFunction::create(func_name, type_name, from_type)`
    castCreate: (string, string, DataType) -> Result<FunctionRef>,
    // `CastFunction::create_try(func_name, type_name, from_type)`
    castCreateTry: (string, string, DataType) -> Result<FunctionRef>)

  datatype ExpressionChain = ExpressionChain(schema: DataSchema, actions: seq<Action>)

  /** The output column name of an expression: an alias and a column are named by themselves. */
  function ColumnName(env: Collaborators, e: Expression): string {
    match e
    case Alias(name, _) => name
    case Column(name) => name
    case _ => env.displayName(e)
  }

  function ArgNames(env: Collaborators, args: seq<Expression>): (r: seq<string>)
    ensures |r| == |args|
    ensures forall i :: 0 <= i < |args| ==> r[i] == ColumnName(env, args[i])
  {
    seq(|args|, i requires 0 <= i < |args| => ColumnName(env, args[i]))
  }

  /** Wildcard and Sort are visited but compile to nothing. */
  predicate IsNoOp(e: Expression) {
    e.Wildcard? || e.Sort?
  }

  /** The nodes that compile to a `Function` action. */
  predicate IsFunctionNode(e: Expression) {
    e.UnaryExpression? || e.BinaryExpression? || e.ScalarFunction? || e.Cast? || e.MapAccess?
  }

  /** The arguments of a function node, in argument order. */
  function Operands(e: Expression): seq<Expression> {
    match e
    case UnaryExpression(_, x) => [x]
    case BinaryExpression(_, l, r) => [l, r]
    case ScalarFunction(_, args) => args
    case Cast(x, _) => [x]
    case MapAccess(_, args) => args
    case _ => []
  }

  /** The sub-expressions the traversal visits before the node itself. */
  function Children(e: Expression): seq<Expression> {
    match e
    case Alias(_, sub) => [sub]
    case Sort(x, _, _) => [x]
    case AggregateFunction(_, _, _, args) => args
    case _ => Operands(e)
  }

  /** The name a function node is resolved by. */
  function FunctionName(e: Expression): string {
    match e
    case UnaryExpression(op, _) => op
    case BinaryExpression(op, _, _) => op
    case ScalarFunction(op, _) => op
    case Cast(_, _) => "cast"
    case MapAccess(_, _) => "get"
    case _ => ""
  }

  /** The cast constructor for a target type: the try-cast exactly when the target is nullable. */
  function CastConstructor(env: Collaborators, target: DataType): (string, string, DataType) -> Result<FunctionRef> {
    if target.nullable then env.castCreateTry else env.castCreate
  }

  /**
    The types of the arguments, in order; the first argument that cannot be
    typed decides the error.
   */
  function ArgTypes(env: Collaborators, schema: DataSchema, args: seq<Expression>): (r: Result<seq<DataType>>)
    ensures r.Ok? ==> |r.value| == |args|
    ensures r.Ok? ==> forall i :: 0 <= i < |args| ==> env.toDataType(schema, args[i]) == Ok(r.value[i])
    ensures r.Ok? <==> forall i :: 0 <= i < |args| ==> env.toDataType(schema, args[i]).Ok?
    ensures r.Err? ==> exists i :: 0 <= i < |args| && env.toDataType(schema, args[i]) == Err(r.error)
                                   && forall j :: 0 <= j < i ==> env.toDataType(schema, args[j]).Ok?
  {
    if |args| == 0 then Ok([])
    else
      var t :- env.toDataType(schema, args[0]);
      var ts :- ArgTypes(env, schema, args[1..]);
      Ok([t] + ts)
  }

  /**
    What a well-formed `Function` action for the function node `e` looks like:
    it is named after the node's operator, names and types its operands in
    order, and is bound by the factory (or by the cast constructor the target
    type selects).
   */
  ghost predicate FunctionActionFor(env: Collaborators, schema: DataSchema, e: Expression, a: Action)
    requires IsFunctionNode(e)
  {
    && a.ActionFunction?
    && a.name == ColumnName(env, e)
    && a.funcName == FunctionName(e)
    && a.argNames == ArgNames(env, Operands(e))
    && |a.argTypes| == |Operands(e)|
    && (forall i :: 0 <= i < |a.argTypes| ==> env.toDataType(schema, Operands(e)[i]) == Ok(a.argTypes[i]))
    && (if e.Cast? then
          a.returnType == e.dataType
          && CastConstructor(env, e.dataType)("cast", e.dataType.name, a.argTypes[0]) == Ok(a.func)
        else
          env.functionFactory(a.funcName, a.argTypes) == Ok(a.func) && a.returnType == a.func.returnType)
  }

  /** Unary, binary, scalar and map-access nodes: type the arguments, resolve by name, emit. */
  function BindFunction(env: Collaborators, schema: DataSchema, e: Expression): (r: Result<seq<Action>>)
    requires IsFunctionNode(e) && !e.Cast?
    ensures r.Ok? <==> ArgTypes(env, schema, Operands(e)).Ok?
                       && env.functionFactory(FunctionName(e), ArgTypes(env, schema, Operands(e)).value).Ok?
    ensures r.Ok? ==> |r.value| == 1 && FunctionActionFor(env, schema, e, r.value[0])
  {
    var argTypes :- ArgTypes(env, schema, Operands(e));
    var func :- env.functionFactory(FunctionName(e), argTypes);
    Ok([ActionFunction(ColumnName(env, e), FunctionName(e), func, ArgNames(env, Operands(e)), argTypes,
                       func.returnType)])
  }

  /** Cast: type the operand, bind the cast constructor the target selects, emit `cast`. */
  function BindCast(env: Collaborators, schema: DataSchema, e: Expression): (r: Result<seq<Action>>)
    requires e.Cast?
    ensures r.Ok? <==> env.toDataType(schema, e.expr).Ok?
                       && CastConstructor(env, e.dataType)("cast", e.dataType.name,
                                                           env.toDataType(schema, e.expr).value).Ok?
    ensures r.Ok? ==> |r.value| == 1 && FunctionActionFor(env, schema, e, r.value[0])
  {
    var fromType :- env.toDataType(schema, e.expr);
    var func :- CastConstructor(env, e.dataType)("cast", e.dataType.name, fromType);
    Ok([ActionFunction(ColumnName(env, e), "cast", func, [ColumnName(env, e.expr)], [fromType], e.dataType)])
  }

  /** Column: an `Input` of the schema field's type, or `FieldNotFound`. */
  function BindColumn(env: Collaborators, schema: DataSchema, e: Expression): (r: Result<seq<Action>>)
    requires e.Column?
    ensures r.Ok? <==> e.column in schema.fields
    ensures r.Ok? ==> r.value == [ActionInput(e.column, schema.fields[e.column])]
    ensures r.Err? ==> r.error == FieldNotFound(e.column)
  {
    var t :- FieldType(schema, e.column);
    Ok([ActionInput(ColumnName(env, e), t)])
  }

  /** Alias: an `Alias` action that renames the sub-expression's column. */
  function BindAlias(env: Collaborators, schema: DataSchema, e: Expression): (r: Result<seq<Action>>)
    requires e.Alias?
    ensures r.Ok? <==> env.toDataType(schema, e).Ok?
    ensures r.Ok? ==> r.value == [ActionAlias(e.alias, ColumnName(env, e.sub), env.toDataType(schema, e).value)]
  {
    var returnType :- env.toDataType(schema, e);
    Ok([ActionAlias(e.alias, ColumnName(env, e.sub), returnType)])
  }

  /** `add_expr`: the actions one node appends (none or one), or the error that stops compilation. */
  function AddExpr(env: Collaborators, schema: DataSchema, e: Expression): (r: Result<seq<Action>>)
    ensures IsNoOp(e) ==> r == Ok([])
    ensures e.QualifiedColumn? || e.AggregateFunction? ==> r.Err? && r.error.LogicalError?
    ensures e.Literal? ==> r.Ok? && |r.value| == 1 && r.value[0].ActionConstant?
                           && r.value[0].value == e.value && r.value[0].dataType == e.dataType
    ensures r.Ok? && !IsNoOp(e) ==> |r.value| == 1 && r.value[0].name == ColumnName(env, e)
    ensures IsFunctionNode(e) && r.Ok? ==> FunctionActionFor(env, schema, e, r.value[0])
  {
    match e
    case Alias(_, _) => BindAlias(env, schema, e)
    case Column(_) => BindColumn(env, schema, e)
    case QualifiedColumn(_) =>
      Err(LogicalError("QualifiedColumn should be resolve in analyze."))
    case Literal(value, _, dataType) =>
      Ok([ActionConstant(ColumnName(env, e), value, dataType)])
    case UnaryExpression(_, _) => BindFunction(env, schema, e)
    case BinaryExpression(_, _, _) => BindFunction(env, schema, e)
    case ScalarFunction(_, _) => BindFunction(env, schema, e)
    case AggregateFunction(_, _, _, _) =>
      Err(LogicalError("Action must be a non-aggregated function."))
    case Wildcard => Ok([])
    case Sort(_, _, _) => Ok([])
    case Cast(_, _) => BindCast(env, schema, e)
    case MapAccess(_, _) => BindFunction(env, schema, e)
  }

  /**
    `recursion_add_expr`: compile the sub-expressions, then the node itself,
    appending to `acc`. Actions already in `acc` are never removed or reordered,
    and the node's own action, when it has one, comes last.
   */
  function Visit(env: Collaborators, schema: DataSchema, e: Expression, acc: seq<Action>): (r: Result<seq<Action>>)
    decreases e, 1
    ensures r.Ok? ==> acc <= r.value
    ensures r.Ok? && !IsNoOp(e) ==> |r.value| > |acc| && r.value[|r.value| - 1].name == ColumnName(env, e)
    ensures r.Ok? && !IsNoOp(e) ==> AddExpr(env, schema, e).Ok? && r.value[|r.value| - 1] == AddExpr(env, schema, e).value[0]
  {
    var visited :- VisitOperands(env, schema, e, acc);
    var emitted :- AddExpr(env, schema, e);
    var r := visited + emitted;
    assert !IsNoOp(e) ==> |emitted| == 1 && r[|r| - 1] == emitted[0];
    Ok(r)
  }

  /** Compile the sub-expressions a node carries, left to right, appending to `acc`. */
  function VisitOperands(env: Collaborators, schema: DataSchema, e: Expression, acc: seq<Action>): (r: Result<seq<Action>>)
    decreases e, 0
    ensures r.Ok? ==> acc <= r.value
  {
    match e
    case Alias(_, sub) => Visit(env, schema, sub, acc)
    case UnaryExpression(_, x) => Visit(env, schema, x, acc)
    case BinaryExpression(_, l, r) =>
      (var afterLeft :- Visit(env, schema, l, acc); Visit(env, schema, r, afterLeft))
    case ScalarFunction(_, args) => VisitAll(env, schema, args, acc)
    case AggregateFunction(_, _, _, args) => VisitAll(env, schema, args, acc)
    case Sort(x, _, _) => Visit(env, schema, x, acc)
    case Cast(x, _) => Visit(env, schema, x, acc)
    case MapAccess(_, args) => VisitAll(env, schema, args, acc)
    case _ => Ok(acc)
  }

  /** Compile each expression of `es` in order, appending to `acc`; stop at the first error. */
  function VisitAll(env: Collaborators, schema: DataSchema, es: seq<Expression>, acc: seq<Action>): (r: Result<seq<Action>>)
    decreases es
    ensures r.Ok? ==> acc <= r.value
  {
    if |es| == 0 then Ok(acc)
    else
      var next :- Visit(env, schema, es[0], acc);
      VisitAll(env, schema, es[1..], next)
  }

  /** The actions of one expression compiled on its own. */
  function Compile(env: Collaborators, schema: DataSchema, e: Expression): Result<seq<Action>> {
    Visit(env, schema, e, [])
  }

  /**
    Reference definition of compiling a list: every expression compiled on its
    own, the action lists concatenated in list order, the first failure
    reported.
   */
  function CompileEach(env: Collaborators, schema: DataSchema, es: seq<Expression>): (r: Result<seq<Action>>)
    ensures r.Ok? <==> forall i :: 0 <= i < |es| ==> Compile(env, schema, es[i]).Ok?
    ensures r.Err? ==> exists i :: 0 <= i < |es| && Compile(env, schema, es[i]) == Err(r.error)
                                   && forall j :: 0 <= j < i ==> Compile(env, schema, es[j]).Ok?
  {
    if |es| == 0 then Ok([])
    else
      var first :- Compile(env, schema, es[0]);
      var rest :- CompileEach(env, schema, es[1..]);
      Ok(first + rest)
  }

  /** `ExpressionChain::try_create`: compile the expressions in order into one chain. */
  function TryCreate(env: Collaborators, schema: DataSchema, exprs: seq<Expression>): (r: Result<ExpressionChain>)
    ensures r.Ok? <==> forall i :: 0 <= i < |exprs| ==> Compile(env, schema, exprs[i]).Ok?
    ensures r.Ok? ==> r.value.schema == schema && CompileEach(env, schema, exprs) == Ok(r.value.actions)
    ensures r.Err? ==> CompileEach(env, schema, exprs) == Err(r.error)
  {
    VisitAllIsCompileEach(env, schema, exprs, []);
    assert forall x: seq<Action> :: [] + x == x;
    var actions :- VisitAll(env, schema, exprs, []);
    Ok(ExpressionChain(schema, actions))
  }

  // ---------------------------------------------------------------------------
  // Reference semantics: the nodes in visiting order, folded through AddExpr.
  // ---------------------------------------------------------------------------

  /** Every node of `e`, sub-expressions before the node, left to right. */
  function PostOrder(e: Expression): (r: seq<Expression>)
    decreases e
    ensures |r| > 0 && r[|r| - 1] == e
  {
    var below := match e
      case Alias(_, sub) => PostOrder(sub)
      case UnaryExpression(_, x) => PostOrder(x)
      case BinaryExpression(_, l, r) => PostOrder(l) + PostOrder(r)
      case ScalarFunction(_, args) => PostOrderAll(args)
      case AggregateFunction(_, _, _, args) => PostOrderAll(args)
      case Sort(x, _, _) => PostOrder(x)
      case Cast(x, _) => PostOrder(x)
      case MapAccess(_, args) => PostOrderAll(args)
      case _ => [];
    below + [e]
  }

  function PostOrderAll(es: seq<Expression>): seq<Expression>
    decreases es
  {
    if |es| == 0 then [] else PostOrder(es[0]) + PostOrderAll(es[1..])
  }

  /** Add the nodes' actions one after the other. */
  function FoldAdd(env: Collaborators, schema: DataSchema, nodes: seq<Expression>, acc: seq<Action>): Result<seq<Action>>
    decreases |nodes|
  {
    if |nodes| == 0 then Ok(acc)
    else
      var emitted :- AddExpr(env, schema, nodes[0]);
      FoldAdd(env, schema, nodes[1..], acc + emitted)
  }

  /** A successful result with `pre` put in front; an error unchanged. */
  function Prepend(pre: seq<Action>, r: Result<seq<Action>>): Result<seq<Action>> {
    if r.Ok? then Ok(pre + r.value) else r
  }

  /** The number of nodes that append an action. */
  function EmitCount(nodes: seq<Expression>): nat {
    if |nodes| == 0 then 0 else (if IsNoOp(nodes[0]) then 0 else 1) + EmitCount(nodes[1..])
  }

  lemma {:induction false} FoldAddConcat(env: Collaborators, schema: DataSchema, xs: seq<Expression>,
                                         ys: seq<Expression>, acc: seq<Action>)
    ensures FoldAdd(env, schema, xs + ys, acc) ==
            (var r := FoldAdd(env, schema, xs, acc); if r.Ok? then FoldAdd(env, schema, ys, r.value) else r)
    decreases |xs|
  {
    if |xs| == 0 {
      assert xs + ys == ys;
    } else {
      assert (xs + ys)[1..] == xs[1..] + ys;
      var emitted := AddExpr(env, schema, xs[0]);
      if emitted.Ok? {
        FoldAddConcat(env, schema, xs[1..], ys, acc + emitted.value);
      }
    }
  }

  /** What is already in the accumulator plays no part in the fold. */
  lemma {:induction false} FoldAddPrepend(env: Collaborators, schema: DataSchema, nodes: seq<Expression>,
                                          pre: seq<Action>, acc: seq<Action>)
    ensures FoldAdd(env, schema, nodes, pre + acc) == Prepend(pre, FoldAdd(env, schema, nodes, acc))
    decreases |nodes|
  {
    if |nodes| > 0 {
      var emitted := AddExpr(env, schema, nodes[0]);
      if emitted.Ok? {
        assert pre + acc + emitted.value == pre + (acc + emitted.value);
        FoldAddPrepend(env, schema, nodes[1..], pre, acc + emitted.value);
      }
    }
  }

  /** The recursive walk is the fold of AddExpr over the post-order node list. */
  lemma {:induction false} VisitIsFold(env: Collaborators, schema: DataSchema, e: Expression, acc: seq<Action>)
    ensures Visit(env, schema, e, acc) == FoldAdd(env, schema, PostOrder(e), acc)
    decreases e, 1
  {
    var self := [e];
    var single := FoldAdd(env, schema, self, acc);
    match e
    case Alias(_, sub) =>
      VisitIsFold(env, schema, sub, acc);
      VisitThenSelf(env, schema, e, PostOrder(sub), acc);
    case UnaryExpression(_, x) =>
      VisitIsFold(env, schema, x, acc);
      VisitThenSelf(env, schema, e, PostOrder(x), acc);
    case BinaryExpression(_, l, r) =>
      VisitIsFold(env, schema, l, acc);
      FoldAddConcat(env, schema, PostOrder(l), PostOrder(r), acc);
      var afterLeft := Visit(env, schema, l, acc);
      if afterLeft.Ok? {
        VisitIsFold(env, schema, r, afterLeft.value);
      }
      VisitThenSelf(env, schema, e, PostOrder(l) + PostOrder(r), acc);
    case ScalarFunction(_, args) =>
      VisitAllIsFold(env, schema, args, acc);
      VisitThenSelf(env, schema, e, PostOrderAll(args), acc);
    case AggregateFunction(_, _, _, args) =>
      VisitAllIsFold(env, schema, args, acc);
      VisitThenSelf(env, schema, e, PostOrderAll(args), acc);
    case Sort(x, _, _) =>
      VisitIsFold(env, schema, x, acc);
      VisitThenSelf(env, schema, e, PostOrder(x), acc);
    case Cast(x, _) =>
      VisitIsFold(env, schema, x, acc);
      VisitThenSelf(env, schema, e, PostOrder(x), acc);
    case MapAccess(_, args) =>
      VisitAllIsFold(env, schema, args, acc);
      VisitThenSelf(env, schema, e, PostOrderAll(args), acc);
    case Column(_) =>
      VisitThenSelf(env, schema, e, [], acc);
    case QualifiedColumn(_) =>
      VisitThenSelf(env, schema, e, [], acc);
    case Literal(_, _, _) =>
      VisitThenSelf(env, schema, e, [], acc);
    case Wildcard =>
      VisitThenSelf(env, schema, e, [], acc);
  }

  /** Folding `below` and then the node itself is folding `below + [e]`. */
  lemma VisitThenSelf(env: Collaborators, schema: DataSchema, e: Expression, below: seq<Expression>, acc: seq<Action>)
    ensures FoldAdd(env, schema, below + [e], acc) ==
            (var r := FoldAdd(env, schema, below, acc);
             if r.Ok? then (var emitted := AddExpr(env, schema, e);
                            if emitted.Ok? then Ok(r.value + emitted.value) else Err(emitted.error))
             else r)
  {
    FoldAddConcat(env, schema, below, [e], acc);
  }

  lemma {:induction false} VisitAllIsFold(env: Collaborators, schema: DataSchema, es: seq<Expression>, acc: seq<Action>)
    ensures VisitAll(env, schema, es, acc) == FoldAdd(env, schema, PostOrderAll(es), acc)
    decreases es, 0
  {
    if |es| > 0 {
      VisitIsFold(env, schema, es[0], acc);
      FoldAddConcat(env, schema, PostOrder(es[0]), PostOrderAll(es[1..]), acc);
      var next := Visit(env, schema, es[0], acc);
      if next.Ok? {
        VisitAllIsFold(env, schema, es[1..], next.value);
      }
    }
  }

  /** Compiling onto a non-empty list appends exactly what compiling on its own yields. */
  lemma VisitPrepend(env: Collaborators, schema: DataSchema, e: Expression, acc: seq<Action>)
    ensures Visit(env, schema, e, acc) == Prepend(acc, Compile(env, schema, e))
  {
    VisitIsFold(env, schema, e, acc);
    VisitIsFold(env, schema, e, []);
    assert acc + [] == acc;
    FoldAddPrepend(env, schema, PostOrder(e), acc, []);
  }

  lemma {:induction false} VisitAllIsCompileEach(env: Collaborators, schema: DataSchema, es: seq<Expression>, acc: seq<Action>)
    ensures VisitAll(env, schema, es, acc) == Prepend(acc, CompileEach(env, schema, es))
    decreases |es|
  {
    if |es| > 0 {
      VisitPrepend(env, schema, es[0], acc);
      var first := Compile(env, schema, es[0]);
      if first.Ok? {
        VisitAllIsCompileEach(env, schema, es[1..], acc + first.value);
        PrependAssociates(acc, first.value, CompileEach(env, schema, es[1..]));
      }
      VisitAllStep(env, schema, es, acc);
      CompileEachStep(env, schema, es);
    } else {
      assert acc + [] == acc;
    }
  }

  lemma PrependAssociates(a: seq<Action>, b: seq<Action>, r: Result<seq<Action>>)
    ensures Prepend(a + b, r) == Prepend(a, Prepend(b, r))
  {
    if r.Ok? {
      assert a + b + r.value == a + (b + r.value);
    }
  }

  lemma VisitAllStep(env: Collaborators, schema: DataSchema, es: seq<Expression>, acc: seq<Action>)
    requires |es| > 0
    ensures VisitAll(env, schema, es, acc) ==
            (var next := Visit(env, schema, es[0], acc);
             if next.Ok? then VisitAll(env, schema, es[1..], next.value) else Err(next.error))
  {
  }

  lemma CompileEachStep(env: Collaborators, schema: DataSchema, es: seq<Expression>)
    requires |es| > 0
    ensures CompileEach(env, schema, es) ==
            (var first := Compile(env, schema, es[0]);
             if first.Ok? then Prepend(first.value, CompileEach(env, schema, es[1..])) else Err(first.error))
  {
  }

  // ---------------------------------------------------------------------------
  // Properties of the compiled action list.
  // ---------------------------------------------------------------------------

  /** Each node that is not a no-op appends exactly one action. */
  lemma {:induction false} FoldAddCount(env: Collaborators, schema: DataSchema, nodes: seq<Expression>, acc: seq<Action>)
    requires FoldAdd(env, schema, nodes, acc).Ok?
    ensures |FoldAdd(env, schema, nodes, acc).value| == |acc| + EmitCount(nodes)
    decreases |nodes|
  {
    if |nodes| > 0 {
      var emitted := AddExpr(env, schema, nodes[0]);
      FoldAddCount(env, schema, nodes[1..], acc + emitted.value);
    }
  }

  /** A compiled expression has one action per node that is neither a Wildcard nor a Sort. */
  lemma CompileCount(env: Collaborators, schema: DataSchema, e: Expression)
    requires Compile(env, schema, e).Ok?
    ensures |Compile(env, schema, e).value| == EmitCount(PostOrder(e))
  {
    VisitIsFold(env, schema, e, []);
    FoldAddCount(env, schema, PostOrder(e), []);
  }

  /** The fold fails exactly when some node fails, and with the error of the first node that fails. */
  lemma {:induction false} FoldAddFirstError(env: Collaborators, schema: DataSchema, nodes: seq<Expression>,
                                             acc: seq<Action>, err: ErrorCode)
    ensures FoldAdd(env, schema, nodes, acc) == Err(err) <==>
            exists i :: 0 <= i < |nodes| && AddExpr(env, schema, nodes[i]) == Err(err)
                        && forall j :: 0 <= j < i ==> AddExpr(env, schema, nodes[j]).Ok?
    decreases |nodes|
  {
    if |nodes| > 0 {
      var emitted := AddExpr(env, schema, nodes[0]);
      if emitted.Ok? {
        FoldAddFirstError(env, schema, nodes[1..], acc + emitted.value, err);
        if FoldAdd(env, schema, nodes, acc) == Err(err) {
          var i :| 0 <= i < |nodes[1..]| && AddExpr(env, schema, nodes[1..][i]) == Err(err)
                   && forall j :: 0 <= j < i ==> AddExpr(env, schema, nodes[1..][j]).Ok?;
          assert AddExpr(env, schema, nodes[i + 1]) == Err(err);
          forall j | 0 <= j < i + 1
            ensures AddExpr(env, schema, nodes[j]).Ok?
          {
            if j > 0 {
              assert nodes[j] == nodes[1..][j - 1];
            }
          }
        }
        if exists i :: 0 <= i < |nodes| && AddExpr(env, schema, nodes[i]) == Err(err)
                       && forall j :: 0 <= j < i ==> AddExpr(env, schema, nodes[j]).Ok? {
          var i :| 0 <= i < |nodes| && AddExpr(env, schema, nodes[i]) == Err(err)
                   && forall j :: 0 <= j < i ==> AddExpr(env, schema, nodes[j]).Ok?;
          assert i > 0;
          assert AddExpr(env, schema, nodes[1..][i - 1]) == Err(err);
          forall j | 0 <= j < i - 1
            ensures AddExpr(env, schema, nodes[1..][j]).Ok?
          {
            assert nodes[1..][j] == nodes[j + 1];
          }
        }
      } else {
        if exists i :: 0 <= i < |nodes| && AddExpr(env, schema, nodes[i]) == Err(err)
                       && forall j :: 0 <= j < i ==> AddExpr(env, schema, nodes[j]).Ok? {
          var i :| 0 <= i < |nodes| && AddExpr(env, schema, nodes[i]) == Err(err)
                   && forall j :: 0 <= j < i ==> AddExpr(env, schema, nodes[j]).Ok?;
          assert i == 0;
        }
      }
    }
  }

  /**
    Compiling an expression fails exactly when one of its nodes fails, and the
    error is that of the first failing node in visiting order.
   */
  lemma CompileFirstError(env: Collaborators, schema: DataSchema, e: Expression, err: ErrorCode)
    ensures Compile(env, schema, e) == Err(err) <==>
            exists i :: 0 <= i < |PostOrder(e)| && AddExpr(env, schema, PostOrder(e)[i]) == Err(err)
                        && forall j :: 0 <= j < i ==> AddExpr(env, schema, PostOrder(e)[j]).Ok?
  {
    VisitIsFold(env, schema, e, []);
    FoldAddFirstError(env, schema, PostOrder(e), [], err);
  }

  /** A qualified column or an aggregate anywhere in the tree makes compilation fail. */
  lemma CompileRejectsUnresolved(env: Collaborators, schema: DataSchema, e: Expression, k: nat)
    requires k < |PostOrder(e)|
    requires PostOrder(e)[k].QualifiedColumn? || PostOrder(e)[k].AggregateFunction?
    ensures Compile(env, schema, e).Err?
    ensures (forall j :: 0 <= j < k ==> AddExpr(env, schema, PostOrder(e)[j]).Ok?) ==>
              Compile(env, schema, e).error.LogicalError?
  {
    var nodes := PostOrder(e);
    FirstFailureExists(env, schema, nodes, k);
    var first :| 0 <= first <= k && AddExpr(env, schema, nodes[first]).Err?
                  && forall j :: 0 <= j < first ==> AddExpr(env, schema, nodes[j]).Ok?;
    var err := AddExpr(env, schema, nodes[first]).error;
    CompileFirstError(env, schema, e, err);
    assert Compile(env, schema, e) == Err(err);
    if forall j :: 0 <= j < k ==> AddExpr(env, schema, nodes[j]).Ok? {
      assert first == k;
    }
  }

  /** Below a failing node lies a first failing node. */
  lemma {:induction false} FirstFailureExists(env: Collaborators, schema: DataSchema, nodes: seq<Expression>, k: nat)
    requires k < |nodes| && AddExpr(env, schema, nodes[k]).Err?
    ensures exists first :: 0 <= first <= k && AddExpr(env, schema, nodes[first]).Err?
                            && forall j :: 0 <= j < first ==> AddExpr(env, schema, nodes[j]).Ok?
    decreases k
  {
    if exists j :: 0 <= j < k && AddExpr(env, schema, nodes[j]).Err? {
      var j :| 0 <= j < k && AddExpr(env, schema, nodes[j]).Err?;
      FirstFailureExists(env, schema, nodes, j);
    }
  }

  /** Every sub-expression that compiles to an action is named by an action appended by `VisitAll`. */
  lemma {:induction false} VisitAllNames(env: Collaborators, schema: DataSchema, es: seq<Expression>, acc: seq<Action>)
    requires VisitAll(env, schema, es, acc).Ok?
    ensures var r := VisitAll(env, schema, es, acc).value;
            forall i :: 0 <= i < |es| && !IsNoOp(es[i]) ==>
              exists j :: |acc| <= j < |r| && r[j].name == ColumnName(env, es[i])
    decreases |es|
  {
    if |es| > 0 {
      var next := Visit(env, schema, es[0], acc).value;
      var r := VisitAll(env, schema, es, acc).value;
      VisitAllNames(env, schema, es[1..], next);
      assert next <= r;
      forall i | 0 <= i < |es| && !IsNoOp(es[i])
        ensures exists j :: |acc| <= j < |r| && r[j].name == ColumnName(env, es[i])
      {
        if i == 0 {
          assert r[|next| - 1] == next[|next| - 1];
        } else {
          assert es[i] == es[1..][i - 1];
        }
      }
    }
  }

  /**
    Dependency order: the action of a node is the last one its visit appends,
    and every sub-expression that has an action is named by an action placed
    strictly before it.
   */
  lemma ActionsFollowSubExpressions(env: Collaborators, schema: DataSchema, e: Expression, acc: seq<Action>)
    requires Visit(env, schema, e, acc).Ok?
    requires !IsNoOp(e)
    ensures var r := Visit(env, schema, e, acc).value;
            && |r| > |acc|
            && r[|r| - 1].name == ColumnName(env, e)
            && r[|r| - 1] == AddExpr(env, schema, e).value[0]
            && forall c :: c in Children(e) && !IsNoOp(c) ==>
                 exists j :: |acc| <= j < |r| - 1 && r[j].name == ColumnName(env, c)
  {
    if e.BinaryExpression? {
      BinaryChildrenFirst(env, schema, e, acc);
    } else if e.ScalarFunction? || e.MapAccess? {
      ArgumentsFirst(env, schema, e, acc);
    } else if e.Alias? || e.UnaryExpression? || e.Cast? {
      OperandFirst(env, schema, e, acc);
    }
  }

  lemma BinaryChildrenFirst(env: Collaborators, schema: DataSchema, e: Expression, acc: seq<Action>)
    requires e.BinaryExpression? && Visit(env, schema, e, acc).Ok?
    ensures var r := Visit(env, schema, e, acc).value;
            forall c :: c in Children(e) && !IsNoOp(c) ==>
              exists j :: |acc| <= j < |r| - 1 && r[j].name == ColumnName(env, c)
  {
    var r := Visit(env, schema, e, acc).value;
    var afterLeft := Visit(env, schema, e.left, acc).value;
    var visited := Visit(env, schema, e.right, afterLeft).value;
    assert visited <= r[..|r| - 1];
    OneChild(env, schema, e.left, acc, r);
    OneChild(env, schema, e.right, afterLeft, r);
  }

  lemma ArgumentsFirst(env: Collaborators, schema: DataSchema, e: Expression, acc: seq<Action>)
    requires (e.ScalarFunction? || e.MapAccess?) && Visit(env, schema, e, acc).Ok?
    ensures var r := Visit(env, schema, e, acc).value;
            forall c :: c in Children(e) && !IsNoOp(c) ==>
              exists j :: |acc| <= j < |r| - 1 && r[j].name == ColumnName(env, c)
  {
    var r := Visit(env, schema, e, acc).value;
    VisitAllNames(env, schema, e.args, acc);
    ChildrenOfSeq(env, schema, e.args, acc, r);
  }

  lemma OperandFirst(env: Collaborators, schema: DataSchema, e: Expression, acc: seq<Action>)
    requires (e.Alias? || e.UnaryExpression? || e.Cast?) && Visit(env, schema, e, acc).Ok?
    ensures var r := Visit(env, schema, e, acc).value;
            forall c :: c in Children(e) && !IsNoOp(c) ==>
              exists j :: |acc| <= j < |r| - 1 && r[j].name == ColumnName(env, c)
  {
    var r := Visit(env, schema, e, acc).value;
    var operand := if e.Alias? then e.sub else e.expr;
    OneChild(env, schema, operand, acc, r);
  }

  lemma OneChild(env: Collaborators, schema: DataSchema, c: Expression, acc: seq<Action>, r: seq<Action>)
    requires Visit(env, schema, c, acc).Ok?
    requires |r| > 0 && Visit(env, schema, c, acc).value <= r[..|r| - 1]
    ensures !IsNoOp(c) ==> exists j :: |acc| <= j < |r| - 1 && r[j].name == ColumnName(env, c)
  {
    var visited := Visit(env, schema, c, acc).value;
    if !IsNoOp(c) {
      assert r[|visited| - 1] == visited[|visited| - 1];
    }
  }

  lemma ChildrenOfSeq(env: Collaborators, schema: DataSchema, args: seq<Expression>, acc: seq<Action>, r: seq<Action>)
    requires VisitAll(env, schema, args, acc).Ok?
    requires |r| > 0 && VisitAll(env, schema, args, acc).value == r[..|r| - 1]
    requires var v := VisitAll(env, schema, args, acc).value;
             forall i :: 0 <= i < |args| && !IsNoOp(args[i]) ==>
               exists j :: |acc| <= j < |v| && v[j].name == ColumnName(env, args[i])
    ensures forall c :: c in args && !IsNoOp(c) ==> exists j :: |acc| <= j < |r| - 1 && r[j].name == ColumnName(env, c)
  {
    var v := VisitAll(env, schema, args, acc).value;
    forall c | c in args && !IsNoOp(c)
      ensures exists j :: |acc| <= j < |r| - 1 && r[j].name == ColumnName(env, c)
    {
      var i :| 0 <= i < |args| && args[i] == c;
      var j :| |acc| <= j < |v| && v[j].name == ColumnName(env, args[i]);
      assert r[j] == v[j];
    }
  }
}
