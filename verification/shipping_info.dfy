/** The shipping-info store slice: its state, its actions, and the reducer that
    folds one action into the next state.

    The reducer treats its state as an array in some branches and as an object
    carrying a `shippingInfo` array in others, so the state is a small sum type
    and a branch that would throw a JavaScript TypeError yields `Throws`. */
module ShippingInfoStore {
  import opened Sequences

  /** Record ids are compared with strict equality. */
  type Id = int

  /** A shipping-info record as the server returns it; only `id` is inspected. */
  datatype Record = Record(id: Id, details: string)

  /** The shapes the slice can take. */
  datatype State =
    | List(items: seq<Record>)                 // a bare array of records
    | Single(record: Record)                   // one record object, no `shippingInfo` field
    | Wrapped(shippingInfo: seq<Record>)       // an object whose `shippingInfo` is an array

  /** The slice's state before any action has been applied. */
  const Initial: State := List([])

  /** The five action type strings. */
  const GetShippingInfoType: string := "GET_SHIPPING_INFO"
  const GetSingleShippingInfoType: string := "GET_SINGLE_SHIPPING_INFO"
  const AddShippingInfoType: string := "ADD_SHIPPING_INFO"
  const UpdateShippingInfoType: string := "UPDATE_SHIPPING_INFO"
  const DeleteShippingInfoType: string := "DELETE_SHIPPING_INFO"

  /** A type string the reducer does not recognise. */
  type UnknownType = t: string |
    && t != GetShippingInfoType && t != GetSingleShippingInfoType
    && t != AddShippingInfoType && t != UpdateShippingInfoType
    && t != DeleteShippingInfoType
    witness ""

  /** The five action kinds the action creators build, and every other
      action, whose type string is none of the five. A fetch-all payload is
      the server's response body returned verbatim, whatever its shape. */
  datatype Action =
    | GetShippingInfo(shippingInfo: State)
    | GetSingleShippingInfo(singleShippingInfo: Record)
    | AddShippingInfo(singleShippingInfo: Record)
    | UpdateShippingInfo(singleShippingInfo: Record)
    | DeleteShippingInfo(singleShippingInfoId: Id)
    | Other(tag: UnknownType)

  /** The TypeErrors a reducer branch can raise. */
  datatype TypeError =
    | NotIterable              // spreading an object that is not an array
    | UndefinedShippingInfo    // calling `map`/`filter` on a missing `shippingInfo`
    | NotAnArray               // calling `map`/`filter` on an object that is not an array

  /** What one reducer call does: produce the next state, or throw. */
  datatype Outcome = Next(state: State) | Throws(error: TypeError)

  /** True iff some record in `xs` has id `id`. */
  predicate HasId(xs: seq<Record>, id: Id) {
    exists i :: 0 <= i < |xs| && xs[i].id == id
  }

  /** The number of records in `xs` whose id is `id`. */
  function CountId(xs: seq<Record>, id: Id): (n: nat)
    ensures n <= |xs|
    ensures n == 0 <==> !HasId(xs, id)
  {
    if |xs| == 0 then 0
    else (if xs[0].id == id then 1 else 0) + CountId(xs[1..], id)
  }

  /** The update branch's `map`: every record with the payload's id becomes
      the payload, every other record passes through. */
  function ReplaceById(xs: seq<Record>, rec: Record): (r: seq<Record>)
    ensures |r| == |xs|
    ensures forall i :: 0 <= i < |xs| && xs[i].id == rec.id ==> r[i] == rec
    ensures forall i :: 0 <= i < |xs| && xs[i].id != rec.id ==> r[i] == xs[i]
  {
    if |xs| == 0 then []
    else [if xs[0].id == rec.id then rec else xs[0]] + ReplaceById(xs[1..], rec)
  }

  /** The delete branch's `filter`: keeps exactly the records whose id is not
      `id`, in their original relative order. */
  function RemoveById(xs: seq<Record>, id: Id): (r: seq<Record>)
    ensures forall x :: x in r <==> x in xs && x.id != id
    ensures |r| == |xs| - CountId(xs, id)
    ensures Subseq(r, xs)
  {
    if |xs| == 0 then []
    else
      var rest := RemoveById(xs[1..], id);
      if xs[0].id != id then
        assert ([xs[0]] + rest)[1..] == rest;
        [xs[0]] + rest
      else rest
  }

  /** The reducer as written. Fetch-all returns its payload, fetch-one
      overwrites the state with one record, add spreads the state as an array,
      update and delete read the state's `shippingInfo` field and return a
      bare array, and any other action leaves the state alone. */
  function Reduce(s: State, a: Action): (r: Outcome)
    ensures r.Throws? <==>
              (a.AddShippingInfo? && !s.List?)
              || ((a.UpdateShippingInfo? || a.DeleteShippingInfo?) && !s.Wrapped?)
    ensures a.AddShippingInfo? && r.Next? ==>
              && r.state.List?
              && |r.state.items| == |s.items| + 1
              && r.state.items[..|s.items|] == s.items
              && r.state.items[|s.items|] == a.singleShippingInfo
    ensures a.UpdateShippingInfo? && r.Next? ==>
              && r.state.List?
              && |r.state.items| == |s.shippingInfo|
              && (forall i :: 0 <= i < |s.shippingInfo| ==>
                    r.state.items[i] ==
                      (if s.shippingInfo[i].id == a.singleShippingInfo.id
                       then a.singleShippingInfo else s.shippingInfo[i]))
    ensures a.DeleteShippingInfo? && r.Next? ==>
              && r.state.List?
              && !HasId(r.state.items, a.singleShippingInfoId)
              && Subseq(r.state.items, s.shippingInfo)
              && |r.state.items| == |s.shippingInfo| - CountId(s.shippingInfo, a.singleShippingInfoId)
  {
    match a
    case GetShippingInfo(payload) => Next(payload)
    case GetSingleShippingInfo(rec) => Next(Single(rec))
    case AddShippingInfo(rec) =>
      if s.List? then Next(List(s.items + [rec])) else Throws(NotIterable)
    case UpdateShippingInfo(rec) =>
      if s.Wrapped? then Next(List(ReplaceById(s.shippingInfo, rec)))
      else Throws(UndefinedShippingInfo)
    case DeleteShippingInfo(id) =>
      if s.Wrapped? then
        var r := RemoveById(s.shippingInfo, id);
        assert forall i :: 0 <= i < |r| ==> r[i] in r;
        Next(List(r))
      else Throws(UndefinedShippingInfo)
    case Other(_) => Next(s)
  }

  /** The reducer as evidently intended: update and delete map and filter the
      state array itself, as add does. Every other branch is unchanged. */
  function ReduceIntended(s: State, a: Action): (r: Outcome)
    ensures r.Throws? <==>
              (a.AddShippingInfo? || a.UpdateShippingInfo? || a.DeleteShippingInfo?) && !s.List?
    ensures a.UpdateShippingInfo? && r.Next? ==>
              && r.state.List?
              && |r.state.items| == |s.items|
              && (forall i :: 0 <= i < |s.items| ==>
                    r.state.items[i] ==
                      (if s.items[i].id == a.singleShippingInfo.id
                       then a.singleShippingInfo else s.items[i]))
    ensures a.DeleteShippingInfo? && r.Next? ==>
              && r.state.List?
              && !HasId(r.state.items, a.singleShippingInfoId)
              && Subseq(r.state.items, s.items)
              && |r.state.items| == |s.items| - CountId(s.items, a.singleShippingInfoId)
  {
    match a
    case UpdateShippingInfo(rec) =>
      if s.List? then Next(List(ReplaceById(s.items, rec))) else Throws(NotAnArray)
    case DeleteShippingInfo(id) =>
      if s.List? then
        var r := RemoveById(s.items, id);
        assert forall i :: 0 <= i < |r| ==> r[i] in r;
        Next(List(r))
      else Throws(NotAnArray)
    case _ => Reduce(s, a)
  }

  /** Applies `acts` in order with `step`, stopping at the first action that
      throws. */
  function Run(step: (State, Action) -> Outcome, s: State, acts: seq<Action>): (r: Outcome)
    decreases |acts|
  {
    if |acts| == 0 then Next(s)
    else
      match step(s, acts[0])
      case Throws(e) => Throws(e)
      case Next(s') => Run(step, s', acts[1..])
  }

  /** A run of the reducer throws only if it contains an add, update or
      delete: the other actions never throw. */
  lemma {:induction false} OnlyMutationsThrow(s: State, acts: seq<Action>)
    requires forall i :: 0 <= i < |acts| ==>
               !acts[i].AddShippingInfo? && !acts[i].UpdateShippingInfo? && !acts[i].DeleteShippingInfo?
    ensures Run(Reduce, s, acts).Next?
    decreases |acts|
  {
    if |acts| != 0 {
      OnlyMutationsThrow(Reduce(s, acts[0]).state, acts[1..]);
    }
  }

  // ---------------------------------------------------------------------
  // Properties of single branches

  /** An action of any other type returns the state unchanged. */
  lemma UnknownActionIsIdentity(s: State, tag: UnknownType)
    ensures Reduce(s, Other(tag)) == Next(s)
  {
  }

  /** On an array, the intended update and delete do exactly what the
      written ones do on an object's `shippingInfo` array. */
  lemma IntendedMatchesWrittenOnInnerList(xs: seq<Record>, a: Action)
    requires a.UpdateShippingInfo? || a.DeleteShippingInfo?
    ensures ReduceIntended(List(xs), a) == Reduce(Wrapped(xs), a)
  {
  }

  /** Fetch-all yields exactly its payload whatever the prior state, and
      applying it twice is the same as applying it once. */
  lemma GetIsIdempotent(s: State, payload: State)
    ensures Reduce(s, GetShippingInfo(payload)) == Next(payload)
    ensures Run(Reduce, s, [GetShippingInfo(payload), GetShippingInfo(payload)])
            == Run(Reduce, s, [GetShippingInfo(payload)])
  {
    assert [GetShippingInfo(payload), GetShippingInfo(payload)][1..] == [GetShippingInfo(payload)];
  }

  /** Fetch-one discards the whole state, list included, and leaves a single
      record on which add, update and delete all throw. */
  lemma GetSingleOverwrites(s: State, rec: Record, other: Record, id: Id)
    ensures Reduce(s, GetSingleShippingInfo(rec)) == Next(Single(rec))
    ensures Reduce(Single(rec), AddShippingInfo(other)) == Throws(NotIterable)
    ensures Reduce(Single(rec), UpdateShippingInfo(other)) == Throws(UndefinedShippingInfo)
    ensures Reduce(Single(rec), DeleteShippingInfo(id)) == Throws(UndefinedShippingInfo)
  {
  }

  /** Update and delete on an array-shaped state (the initial state, or the
      result of an add, update or delete) throw instead of producing a list. */
  lemma MutationsFailOnArrays(xs: seq<Record>, rec: Record, id: Id)
    ensures Reduce(List(xs), UpdateShippingInfo(rec)) == Throws(UndefinedShippingInfo)
    ensures Reduce(List(xs), DeleteShippingInfo(id)) == Throws(UndefinedShippingInfo)
    ensures Reduce(Initial, UpdateShippingInfo(rec)).Throws?
    ensures Reduce(Initial, DeleteShippingInfo(id)).Throws?
  {
  }

  /** A list without id `id` starts with a record of another id and its
      tail has no record of id `id` either. */
  lemma NoIdInTail(xs: seq<Record>, id: Id)
    requires |xs| != 0 && !HasId(xs, id)
    ensures xs[0].id != id
    ensures !HasId(xs[1..], id)
  {
    forall i | 0 <= i < |xs[1..]|
      ensures xs[1..][i].id != id
    {
      assert xs[1..][i] == xs[i + 1];
    }
  }

  /** Updating with an id no record has leaves the list as it was. */
  lemma {:induction false} ReplaceAbsentIsIdentity(xs: seq<Record>, rec: Record)
    requires !HasId(xs, rec.id)
    ensures ReplaceById(xs, rec) == xs
  {
    var r := ReplaceById(xs, rec);
    forall i | 0 <= i < |xs|
      ensures r[i] == xs[i]
    {
      assert xs[i].id != rec.id;
    }
  }

  /** Deleting an id no record has leaves the list as it was. */
  lemma {:induction false} RemoveAbsentIsIdentity(xs: seq<Record>, id: Id)
    requires !HasId(xs, id)
    ensures RemoveById(xs, id) == xs
    decreases |xs|
  {
    if |xs| != 0 {
      NoIdInTail(xs, id);
      RemoveAbsentIsIdentity(xs[1..], id);
      assert xs == [xs[0]] + xs[1..];
    }
  }

  /** Deleting the same id twice is the same as deleting it once. */
  lemma RemoveIsIdempotent(xs: seq<Record>, id: Id)
    ensures RemoveById(RemoveById(xs, id), id) == RemoveById(xs, id)
  {
    var r := RemoveById(xs, id);
    forall i | 0 <= i < |r|
      ensures r[i].id != id
    {
      assert r[i] in r;
    }
    RemoveAbsentIsIdentity(r, id);
  }

  /** A subsequence of `xs` with no record of id `id` has at most as many
      records as `xs` has records of other ids. */
  lemma {:induction false} KeptSubseqBound(r: seq<Record>, xs: seq<Record>, id: Id)
    requires Subseq(r, xs)
    requires !HasId(r, id)
    ensures |r| <= |xs| - CountId(xs, id)
    decreases |xs|
  {
    if |r| == 0 {
    } else if r[0] == xs[0] && Subseq(r[1..], xs[1..]) {
      NoIdInTail(r, id);
      KeptSubseqBound(r[1..], xs[1..], id);
    } else {
      KeptSubseqBound(r, xs[1..], id);
    }
  }

  /** The delete branch's result is the ONLY subsequence of the list that
      avoids the id and has as many records as the list has of other ids: so
      it keeps exactly the non-matching records, in their original order. */
  lemma {:induction false} RemoveByIdIsUnique(r: seq<Record>, xs: seq<Record>, id: Id)
    requires Subseq(r, xs)
    requires !HasId(r, id)
    requires |r| == |xs| - CountId(xs, id)
    ensures r == RemoveById(xs, id)
    decreases |xs|
  {
    if |xs| == 0 {
    } else if xs[0].id == id {
      // xs[0] cannot be r[0], so r is a subsequence of the tail.
      if |r| != 0 {
        NoIdInTail(r, id);
      }
      assert Subseq(r, xs[1..]);
      RemoveByIdIsUnique(r, xs[1..], id);
    } else {
      assert |r| != 0;
      if r[0] == xs[0] && Subseq(r[1..], xs[1..]) {
        NoIdInTail(r, id);
        RemoveByIdIsUnique(r[1..], xs[1..], id);
        assert r == [r[0]] + r[1..];
      } else {
        KeptSubseqBound(r, xs[1..], id);
        assert false;
      }
    }
  }

  // ---------------------------------------------------------------------
  // The update/delete defect over whole runs

  /** True iff every fetch-all in `acts` carries a bare array, as the list
      endpoint returns. */
  predicate ArrayPayloads(acts: seq<Action>) {
    forall i :: 0 <= i < |acts| && acts[i].GetShippingInfo? ==> acts[i].shippingInfo.List?
  }

  /** Unless some fetch-all hands the reducer an object with a `shippingInfo`
      field, no run from a state of another shape can ever update or delete:
      the first update or delete throws. */
  lemma {:induction false} UpdateAndDeleteAlwaysThrow(s: State, acts: seq<Action>, k: nat)
    requires !s.Wrapped?
    requires ArrayPayloads(acts)
    requires k < |acts| && (acts[k].UpdateShippingInfo? || acts[k].DeleteShippingInfo?)
    ensures Run(Reduce, s, acts).Throws?
    decreases |acts|
  {
    match Reduce(s, acts[0])
    case Throws(_) =>
    case Next(s') =>
      assert k != 0;
      assert !s'.Wrapped?;
      assert ArrayPayloads(acts[1..]) by {
        forall i | 0 <= i < |acts[1..]| && acts[1..][i].GetShippingInfo?
          ensures acts[1..][i].shippingInfo.List?
        {
          assert acts[1..][i] == acts[i + 1];
        }
      }
      assert acts[1..][k - 1] == acts[k];
      UpdateAndDeleteAlwaysThrow(s', acts[1..], k - 1);
  }

  /** A concrete run that shows the defect: after adding a record to the
      initial state, updating it throws, where the intended reducer replaces
      it. */
  lemma AddThenUpdateThrows()
    ensures Run(Reduce, Initial, [AddShippingInfo(Record(1, "old")), UpdateShippingInfo(Record(1, "new"))])
            == Throws(UndefinedShippingInfo)
    ensures Run(ReduceIntended, Initial, [AddShippingInfo(Record(1, "old")), UpdateShippingInfo(Record(1, "new"))])
            == Next(List([Record(1, "new")]))
  {
    var acts := [AddShippingInfo(Record(1, "old")), UpdateShippingInfo(Record(1, "new"))];
    assert acts[1..] == [UpdateShippingInfo(Record(1, "new"))];
    assert acts[1..][1..] == [];
    assert ReplaceById([Record(1, "old")], Record(1, "new")) == [Record(1, "new")];
  }

  /** With the intended reducer, a run from an array-shaped state whose
      fetch-alls carry arrays and that never fetches a single record never
      throws and always ends on an array. */
  lemma {:induction false} IntendedRunsNeverThrow(s: State, acts: seq<Action>)
    requires s.List?
    requires ArrayPayloads(acts)
    requires forall i :: 0 <= i < |acts| ==> !acts[i].GetSingleShippingInfo?
    ensures Run(ReduceIntended, s, acts).Next?
    ensures Run(ReduceIntended, s, acts).state.List?
    decreases |acts|
  {
    if |acts| != 0 {
      var r := ReduceIntended(s, acts[0]);
      assert r.Next? && r.state.List? by {
        if acts[0].GetShippingInfo? {
          assert acts[0].shippingInfo.List?;
        }
      }
      assert ArrayPayloads(acts[1..]) by {
        forall i | 0 <= i < |acts[1..]| && acts[1..][i].GetShippingInfo?
          ensures acts[1..][i].shippingInfo.List?
        {
          assert acts[1..][i] == acts[i + 1];
        }
      }
      assert forall i :: 0 <= i < |acts[1..]| ==> !acts[1..][i].GetSingleShippingInfo? by {
        forall i | 0 <= i < |acts[1..]|
          ensures !acts[1..][i].GetSingleShippingInfo?
        {
          assert acts[1..][i] == acts[i + 1];
        }
      }
      IntendedRunsNeverThrow(r.state, acts[1..]);
    }
  }

  /** With the intended reducer, adding a record with a fresh id and then
      deleting that id restores the list. */
  lemma IntendedAddThenDeleteRestores(xs: seq<Record>, rec: Record)
    requires !HasId(xs, rec.id)
    ensures Run(ReduceIntended, List(xs), [AddShippingInfo(rec), DeleteShippingInfo(rec.id)])
            == Next(List(xs))
  {
    var acts := [AddShippingInfo(rec), DeleteShippingInfo(rec.id)];
    assert acts[1..] == [DeleteShippingInfo(rec.id)];
    assert acts[1..][1..] == [];
    var added := xs + [rec];
    assert ReduceIntended(List(xs), acts[0]) == Next(List(added));
    RemoveAppend(xs, [rec], rec.id);
    RemoveAbsentIsIdentity(xs, rec.id);
    assert RemoveById([rec], rec.id) == [];
    assert RemoveById(added, rec.id) == xs;
    assert ReduceIntended(List(added), acts[1]) == Next(List(xs));
    assert Run(ReduceIntended, List(xs), acts) == Run(ReduceIntended, List(added), acts[1..]);
  }

  /** Deleting from a concatenation deletes from each part. */
  lemma {:induction false} RemoveAppend(xs: seq<Record>, ys: seq<Record>, id: Id)
    ensures RemoveById(xs + ys, id) == RemoveById(xs, id) + RemoveById(ys, id)
    decreases |xs|
  {
    if |xs| == 0 {
      assert xs + ys == ys;
    } else {
      assert (xs + ys)[1..] == xs[1..] + ys;
      assert (xs + ys)[0] == xs[0];
      RemoveAppend(xs[1..], ys, id);
    }
  }
}
