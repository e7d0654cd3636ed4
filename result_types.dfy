/** Compile-time classification of the awaitables handed to `when_all` and
    `when_any`: which result type each one yields, which combinator variant is
    instantiated, and which argument lists are rejected by a `static_assert`
    or fail to instantiate. */
module ResultTypes {
  import opened Outcomes

  /** The name of a C++ result type `T` of an `IAsyncOperation<T>`. */
  type TypeName = string

  /** The two kinds of awaitable the library accepts. */
  datatype Awaitable = AsyncAction | AsyncOperation(result: TypeName)

  /** `void_type` for an action, `result_type<T>` for an operation of `T`. */
  datatype ResultType = VoidType | ResultTypeOf(t: TypeName)

  /** The `when_all` instantiation: `when_all_awaitable_void`, or
      `when_all_awaitable_value` with its positional results tuple. */
  datatype AllVariant = AllVoid | AllValue(results: seq<TypeName>)

  /** The `when_any` instantiation: the void block (yields an index) or the
      value block (yields a `T`). */
  datatype AnyVariant = AnyVoid | AnyValue(result: TypeName)

  /** Argument lists that do not compile. */
  datatype ConstructionError =
    | NoArguments                 // the `sizeof... != 0` static_assert
    | ActionInValueVariant(position: nat)  // `void_type` has no `::type` for the results tuple
    | MixedResultTypes            // the `are_all_same_v` static_assert

  function GetResultType(a: Awaitable): ResultType
  {
    match a
    case AsyncAction => VoidType
    case AsyncOperation(t) => ResultTypeOf(t)
  }

  /** The result type decides the kind of awaitable and the payload type. */
  lemma GetResultTypeInjective(a: Awaitable, b: Awaitable)
    ensures GetResultType(a) == GetResultType(b) <==> a == b
    ensures GetResultType(a) == VoidType <==> a.AsyncAction?
  {
  }

  /** The result type of the first awaitable of a non-empty pack. */
  function GetFirstResultType(awaitables: seq<Awaitable>): ResultType
    requires |awaitables| > 0
  {
    GetResultType(awaitables[0])
  }

  /** `std::conjunction<std::is_same<first, Ts>...>`: every element, taken
      from the first one on, equals the first. */
  function AreAllSame(ts: seq<ResultType>): bool
    requires |ts| > 0
  {
    AllEqualTo(ts[0], ts)
  }

  /** The fold behind `std::conjunction`. */
  function AllEqualTo(first: ResultType, ts: seq<ResultType>): bool
  {
    ts == [] || (ts[0] == first && AllEqualTo(first, ts[1..]))
  }

  /** The conjunction against the first element holds exactly when the
      elements are pairwise equal. */
  lemma {:induction false} AreAllSamePairwise(ts: seq<ResultType>)
    requires |ts| > 0
    ensures AreAllSame(ts) <==> forall i, j :: 0 <= i < |ts| && 0 <= j < |ts| ==> ts[i] == ts[j]
  {
    AllEqualToEach(ts[0], ts);
  }

  lemma {:induction false} AllEqualToEach(first: ResultType, ts: seq<ResultType>)
    ensures AllEqualTo(first, ts) <==> forall i :: 0 <= i < |ts| ==> ts[i] == first
  {
    if ts != [] {
      AllEqualToEach(first, ts[1..]);
      assert forall i :: 1 <= i < |ts| ==> ts[i] == ts[1..][i - 1];
    }
  }

  function ResultTypes(awaitables: seq<Awaitable>): (ts: seq<ResultType>)
    ensures |ts| == |awaitables|
    ensures forall i :: 0 <= i < |ts| ==> ts[i] == GetResultType(awaitables[i])
  {
    seq(|awaitables|, i requires 0 <= i < |awaitables| => GetResultType(awaitables[i]))
  }

  /** The first position of an action, if there is one. */
  function FirstAction(awaitables: seq<Awaitable>): (r: Option<nat>)
    ensures r.None? <==> forall i :: 0 <= i < |awaitables| ==> awaitables[i].AsyncOperation?
    ensures r.Some? ==>
      (r.value < |awaitables| && awaitables[r.value].AsyncAction?
       && forall i :: 0 <= i < r.value ==> awaitables[i].AsyncOperation?)
  {
    if awaitables == [] then None
    else if awaitables[0].AsyncAction? then Some(0)
    else match FirstAction(awaitables[1..])
      case None => None
      case Some(k) => Some(k + 1)
  }

  /** `when_all`: the variant is picked from the first awaitable alone. A
      first action selects the void variant, which discards every payload.
      A first operation selects the value variant, whose results tuple needs
      `result_type<T>::type` of every awaitable, so any later action fails to
      instantiate. */
  function WhenAll(awaitables: seq<Awaitable>): (r: Result<AllVariant, ConstructionError>)
    ensures r == Failure(NoArguments) <==> |awaitables| == 0
    ensures r.Success? <==>
      (|awaitables| > 0
       && (awaitables[0].AsyncAction? || forall i :: 0 <= i < |awaitables| ==> awaitables[i].AsyncOperation?))
    ensures r.Success? ==> (r.value.AllVoid? <==> awaitables[0].AsyncAction?)
    ensures r.Success? && r.value.AllValue? ==>
      |r.value.results| == |awaitables|
      && forall i :: 0 <= i < |awaitables| ==> awaitables[i] == AsyncOperation(r.value.results[i])
    ensures r.Failure? && r.error.ActionInValueVariant? ==>
      r.error.position < |awaitables| && awaitables[r.error.position].AsyncAction?
  {
    if |awaitables| == 0 then Failure(NoArguments)
    else match GetFirstResultType(awaitables)
      case VoidType => Success(AllVoid)
      case ResultTypeOf(_) =>
        match FirstAction(awaitables)
        case Some(k) => Failure(ActionInValueVariant(k))
        case None => Success(AllValue(seq(|awaitables|, i requires 0 <= i < |awaitables| => awaitables[i].result)))
  }

  /** The result type a `when_any` variant yields to its waiter. */
  function AnyResultType(v: AnyVariant): ResultType
  {
    match v
    case AnyVoid => VoidType
    case AnyValue(t) => ResultTypeOf(t)
  }

  /** `when_any`: rejects an empty pack and differing result types, then picks
      the variant from the first awaitable. */
  function WhenAny(awaitables: seq<Awaitable>): (r: Result<AnyVariant, ConstructionError>)
    ensures r == Failure(NoArguments) <==> |awaitables| == 0
    ensures r.Success? <==>
      (|awaitables| > 0
       && forall i, j :: 0 <= i < |awaitables| && 0 <= j < |awaitables| ==> awaitables[i] == awaitables[j])
    ensures r.Success? ==> forall i :: 0 <= i < |awaitables| ==> GetResultType(awaitables[i]) == AnyResultType(r.value)
  {
    if |awaitables| == 0 then Failure(NoArguments)
    else
      var ts := ResultTypes(awaitables);
      AreAllSamePairwise(ts);
      if !AreAllSame(ts) then
        assert exists i, j :: 0 <= i < |ts| && 0 <= j < |ts| && ts[i] != ts[j];
        Failure(MixedResultTypes)
      else
        assert forall i :: 0 <= i < |ts| ==> ts[i] == ts[0];
        match GetFirstResultType(awaitables)
        case VoidType => Success(AnyVoid)
        case ResultTypeOf(t) => Success(AnyValue(t))
  }
}
