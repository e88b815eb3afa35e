/**
  The final aggregation transform: it drains the serialized partial states
  its single upstream produces, merges them into one accumulator per
  aggregate function, and emits exactly one block holding each function's
  final result.

  An accumulator is a value of the type parameter `S`. Extracting a value from
  a block, decoding a serialized state, merging and finalizing are the
  functions of `Merger`; the upstream's asynchronous stream is a finite
  sequence of blocks or errors, obtained from the input by `run`.
 */
module AggregatorFinalTransform {
  import opened Wrappers
  import opened Exception
  import opened DataValues

  /** An upstream processor; `EmptyProcessor` is the placeholder before wiring. */
  datatype Processor = EmptyProcessor | Upstream(id: nat)

  type Column = seq<DataValue>

  datatype DataBlock = DataBlock(schema: DataSchema, columns: seq<Column>)

  datatype Transform<S> = Transform(funcs: seq<S>, schema: DataSchema, input: Processor)

  datatype Merger<!S> = Merger(
    // `DataValue::try_from_array(block.column(0), i)`
    valueAt: (DataBlock, nat) -> Result<DataValue>,
    // `serde_json::from_str`
    decode: string -> Result<DataValue>,
    // `IFunction::merge`
    merge: (S, seq<DataValue>) -> Result<S>,
    // `IFunction::merge_result`
    mergeResult: S -> Result<DataValue>)

  /**
    `AggregatorFinalTransform::try_create`: one function per expression, in
    order, failing on the first expression that does not convert; the input
    starts as the empty processor.
   */
  function TryCreate<E, S>(schema: DataSchema, exprs: seq<E>, toFunction: E -> Result<S>): (r: Result<Transform<S>>)
    ensures r.Ok? ==> r.value.schema == schema && r.value.input == EmptyProcessor
    ensures r.Ok? ==> |r.value.funcs| == |exprs|
                      && forall i :: 0 <= i < |exprs| ==> toFunction(exprs[i]) == Ok(r.value.funcs[i])
    ensures r.Ok? <==> forall i :: 0 <= i < |exprs| ==> toFunction(exprs[i]).Ok?
    ensures r.Err? ==> exists i :: 0 <= i < |exprs| && toFunction(exprs[i]) == Err(r.error)
                                   && forall j :: 0 <= j < i ==> toFunction(exprs[j]).Ok?
  {
    var funcs :- ToFunctions(exprs, toFunction);
    Ok(Transform(funcs, schema, EmptyProcessor))
  }

  function ToFunctions<E, S>(exprs: seq<E>, toFunction: E -> Result<S>): (r: Result<seq<S>>)
    ensures r.Ok? ==> |r.value| == |exprs|
                      && forall i :: 0 <= i < |exprs| ==> toFunction(exprs[i]) == Ok(r.value[i])
    ensures r.Ok? <==> forall i :: 0 <= i < |exprs| ==> toFunction(exprs[i]).Ok?
    ensures r.Err? ==> exists i :: 0 <= i < |exprs| && toFunction(exprs[i]) == Err(r.error)
                                   && forall j :: 0 <= j < i ==> toFunction(exprs[j]).Ok?
  {
    if |exprs| == 0 then Ok([])
    else
      var f :- toFunction(exprs[0]);
      var fs :- ToFunctions(exprs[1..], toFunction);
      Ok([f] + fs)
  }

  /** `connect_to`: the new input replaces the old one; nothing else changes. */
  function ConnectTo<S>(t: Transform<S>, input: Processor): (r: Transform<S>)
    ensures Inputs(r) == [input]
    ensures r.funcs == t.funcs && r.schema == t.schema
  {
    t.(input := input)
  }

  /** `inputs`: the single input. */
  function Inputs<S>(t: Transform<S>): seq<Processor> {
    [t.input]
  }

  /**
    The states a value contributes: a non-null string that decodes to a struct
    contributes the struct's fields; any other value contributes nothing.
   */
  function Mergeable<S>(m: Merger<S>, v: DataValue): Option<seq<DataValue>> {
    if v.String? && v.s.Some? && m.decode(v.s.value).Ok? && m.decode(v.s.value).value.Struct?
    then Some(m.decode(v.s.value).value.fields)
    else None
  }

  /** Merge one extracted value into one accumulator. */
  function MergeValue<S>(m: Merger<S>, f: S, v: DataValue): (r: Result<S>)
    ensures Mergeable(m, v).None? && !(v.String? && v.s.Some? && m.decode(v.s.value).Err?) ==> r == Ok(f)
    ensures Mergeable(m, v).Some? ==> r == m.merge(f, Mergeable(m, v).value)
    ensures v.String? && v.s.Some? && m.decode(v.s.value).Err? ==> r == Err(m.decode(v.s.value).error)
  {
    match v
    case String(Some(ser)) =>
      var de :- m.decode(ser);
      (match de
       case Struct(states) => m.merge(f, states)
       case _ => Ok(f))
    case _ => Ok(f)
  }

  /**
    The inner loop over one block: for each function index `i` from `from` on,
    row `i` of the block is merged into function `i`.
   */
  function MergeBlock<S>(m: Merger<S>, funcs: seq<S>, block: DataBlock, from: nat): (r: Result<seq<S>>)
    requires from <= |funcs|
    ensures r.Ok? ==> |r.value| == |funcs|
    ensures r.Ok? ==> forall i :: 0 <= i < from ==> r.value[i] == funcs[i]
    ensures r.Ok? ==> forall i :: from <= i < |funcs| ==>
                        m.valueAt(block, i).Ok? && MergeValue(m, funcs[i], m.valueAt(block, i).value) == Ok(r.value[i])
    ensures r.Ok? <==> forall i :: from <= i < |funcs| ==>
                         m.valueAt(block, i).Ok? && MergeValue(m, funcs[i], m.valueAt(block, i).value).Ok?
    decreases |funcs| - from
  {
    if from == |funcs| then Ok(funcs)
    else
      var v :- m.valueAt(block, from);
      var f :- MergeValue(m, funcs[from], v);
      MergeBlock(m, funcs[from := f], block, from + 1)
  }

  /** The drain loop: every block, in stream order; the first error aborts. */
  function Drain<S>(m: Merger<S>, funcs: seq<S>, stream: seq<Result<DataBlock>>): (r: Result<seq<S>>)
    ensures r.Ok? ==> |r.value| == |funcs|
    ensures r.Ok? ==> forall k :: 0 <= k < |stream| ==> stream[k].Ok?
    decreases |stream|
  {
    if |stream| == 0 then Ok(funcs)
    else
      var block :- stream[0];
      var merged :- MergeBlock(m, funcs, block, 0);
      Drain(m, merged, stream[1..])
  }

  /** Each function's final result as a one-row column, in function order. */
  function Finalize<S>(m: Merger<S>, funcs: seq<S>): (r: Result<seq<Column>>)
    ensures r.Ok? ==> |r.value| == |funcs|
    ensures r.Ok? ==> forall i :: 0 <= i < |funcs| ==> m.mergeResult(funcs[i]).Ok?
                                                       && r.value[i] == [m.mergeResult(funcs[i]).value]
    ensures r.Ok? <==> forall i :: 0 <= i < |funcs| ==> m.mergeResult(funcs[i]).Ok?
  {
    if |funcs| == 0 then Ok([])
    else
      var v :- m.mergeResult(funcs[0]);
      var rest :- Finalize(m, funcs[1..]);
      Ok([[v]] + rest)
  }

  /**
    `execute`: merge the upstream into copies of the transform's functions and
    emit one block of final results. The transform itself is a value and is not
    changed by executing it.
   */
  function Execute<S>(t: Transform<S>, m: Merger<S>, run: Processor -> Result<seq<Result<DataBlock>>>): (r: Result<seq<DataBlock>>)
    ensures r.Ok? ==> |r.value| == 1
    ensures r.Ok? ==> r.value[0].schema == t.schema && |r.value[0].columns| == |t.funcs|
    ensures r.Ok? ==> forall i :: 0 <= i < |t.funcs| ==> |r.value[0].columns[i]| == 1
    ensures r.Ok? ==> run(t.input).Ok? && forall k :: 0 <= k < |run(t.input).value| ==> run(t.input).value[k].Ok?
    ensures run(t.input) == Ok([]) ==>
              (r.Ok? <==> forall i :: 0 <= i < |t.funcs| ==> m.mergeResult(t.funcs[i]).Ok?)
    ensures run(t.input) == Ok([]) && r.Ok? ==>
              forall i :: 0 <= i < |t.funcs| ==> r.value[0].columns[i] == [m.mergeResult(t.funcs[i]).value]
  {
    var stream :- run(t.input);
    var funcs :- Drain(m, t.funcs, stream);
    var columns :- Finalize(m, funcs);
    Ok([DataBlock(t.schema, columns)])
  }

  // ---------------------------------------------------------------------------
  // Reference semantics: each function folds its own states in stream order.
  // ---------------------------------------------------------------------------

  /** The states that function `i` receives from the blocks, in stream order. */
  function StatesFor<S>(m: Merger<S>, stream: seq<Result<DataBlock>>, i: nat): seq<seq<DataValue>>
    decreases |stream|
  {
    if |stream| == 0 then []
    else
      var here :=
        if stream[0].Ok? && m.valueAt(stream[0].value, i).Ok? && Mergeable(m, m.valueAt(stream[0].value, i).value).Some?
        then [Mergeable(m, m.valueAt(stream[0].value, i).value).value]
        else [];
      here + StatesFor(m, stream[1..], i)
  }

  /** Merge the states into one accumulator, one after the other. */
  function FoldMerge<S>(m: Merger<S>, f: S, states: seq<seq<DataValue>>): Result<S>
    decreases |states|
  {
    if |states| == 0 then Ok(f)
    else
      var g :- m.merge(f, states[0]);
      FoldMerge(m, g, states[1..])
  }

  /**
    Merging block by block, every function in turn, gives each function the
    fold of just its own states: the final state of function `i` is its
    initial state with every struct found for it merged in, in stream order,
    and every other value skipped.
   */
  lemma {:induction false} DrainIsPerFunctionFold<S>(m: Merger<S>, funcs: seq<S>, stream: seq<Result<DataBlock>>)
    requires Drain(m, funcs, stream).Ok?
    ensures forall i :: 0 <= i < |funcs| ==>
              FoldMerge(m, funcs[i], StatesFor(m, stream, i)) == Ok(Drain(m, funcs, stream).value[i])
    decreases |stream|
  {
    if |stream| > 0 {
      var block := stream[0].value;
      var merged := MergeBlock(m, funcs, block, 0).value;
      var r := Drain(m, funcs, stream).value;
      DrainIsPerFunctionFold(m, merged, stream[1..]);
      forall i | 0 <= i < |funcs|
        ensures FoldMerge(m, funcs[i], StatesFor(m, stream, i)) == Ok(r[i])
      {
        var v := m.valueAt(block, i).value;
        var rest := StatesFor(m, stream[1..], i);
        if Mergeable(m, v).Some? {
          assert StatesFor(m, stream, i) == [Mergeable(m, v).value] + rest;
          assert m.merge(funcs[i], Mergeable(m, v).value) == Ok(merged[i]);
          assert ([Mergeable(m, v).value] + rest)[1..] == rest;
        } else {
          assert StatesFor(m, stream, i) == rest;
          assert merged[i] == funcs[i];
        }
      }
    }
  }

  /**
    On success the one output block holds, for each function, the final result
    of folding exactly that function's states.
   */
  lemma ExecuteIsPerFunctionFold<S>(t: Transform<S>, m: Merger<S>, run: Processor -> Result<seq<Result<DataBlock>>>)
    requires Execute(t, m, run).Ok?
    ensures var stream := run(t.input).value;
            var block := Execute(t, m, run).value[0];
            forall i :: 0 <= i < |t.funcs| ==>
              exists f :: FoldMerge(m, t.funcs[i], StatesFor(m, stream, i)) == Ok(f)
                          && m.mergeResult(f).Ok? && block.columns[i] == [m.mergeResult(f).value]
  {
    var stream := run(t.input).value;
    var funcs := Drain(m, t.funcs, stream).value;
    DrainIsPerFunctionFold(m, t.funcs, stream);
    forall i | 0 <= i < |t.funcs|
      ensures exists f :: FoldMerge(m, t.funcs[i], StatesFor(m, stream, i)) == Ok(f)
                          && m.mergeResult(f).Ok? && Execute(t, m, run).value[0].columns[i] == [m.mergeResult(f).value]
    {
      assert FoldMerge(m, t.funcs[i], StatesFor(m, stream, i)) == Ok(funcs[i]);
    }
  }

  /**
    No error is skipped: a value that cannot be extracted, or a string that
    does not decode, anywhere in the stream fails the whole execution.
   */
  lemma {:induction false} DrainFailsOnBadState<S>(m: Merger<S>, funcs: seq<S>, stream: seq<Result<DataBlock>>,
                                                   k: nat, i: nat)
    requires k < |stream| && stream[k].Ok? && i < |funcs|
    requires || m.valueAt(stream[k].value, i).Err?
             || (var v := m.valueAt(stream[k].value, i).value; v.String? && v.s.Some? && m.decode(v.s.value).Err?)
    ensures Drain(m, funcs, stream).Err?
    decreases |stream|
  {
    var block := stream[0];
    if block.Ok? {
      var merged := MergeBlock(m, funcs, block.value, 0);
      if merged.Ok? {
        if k == 0 {
          assert false;
        } else {
          DrainFailsOnBadState(m, merged.value, stream[1..], k - 1, i);
        }
      }
    }
  }

  /**
    A `merge` failure anywhere in a function's fold fails the whole drain: no
    merge error is skipped either.
   */
  lemma MergeErrorFailsDrain<S>(m: Merger<S>, funcs: seq<S>, stream: seq<Result<DataBlock>>, i: nat)
    requires i < |funcs| && FoldMerge(m, funcs[i], StatesFor(m, stream, i)).Err?
    ensures Drain(m, funcs, stream).Err?
  {
    if Drain(m, funcs, stream).Ok? {
      DrainIsPerFunctionFold(m, funcs, stream);
    }
  }
}
