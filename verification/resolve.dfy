/** The existence-then-visibility gate shared by the single-element and full
    handlers: select the requested id among existing ones, fail with `NotFound`
    when there is none, then check each selected id's visibility in order. */
module Resolve {
  import opened Wrappers
  import opened Osm
  import opened Db

  /** Every id is reported visible without error. */
  predicate AllVisible(isVisible: Id -> Result<bool, Error>, ids: seq<Id>) {
    forall i :: 0 <= i < |ids| ==> isVisible(ids[i]) == Success(true)
  }

  /** Position `k` is the first id whose check did not report "visible". */
  predicate FirstBlockedAt(isVisible: Id -> Result<bool, Error>, ids: seq<Id>, k: int) {
    && 0 <= k < |ids|
    && isVisible(ids[k]) != Success(true)
    && forall i :: 0 <= i < k ==> isVisible(ids[i]) == Success(true)
  }

  /** What a failed visibility check turns into: the store's error, or
      `Deleted` for an invisible element. */
  function Blocker(v: Result<bool, Error>): Error {
    match v
    case Failure(e) => e
    case Success(_) => Deleted
  }

  /** The visibility loop: the first id that errs or is invisible decides the
      outcome; if there is none, the check passes. */
  function CheckVisible(isVisible: Id -> Result<bool, Error>, ids: seq<Id>): (r: Result<(), Error>)
    ensures r.Success? <==> AllVisible(isVisible, ids)
    ensures forall k :: FirstBlockedAt(isVisible, ids, k) ==> r == Failure(Blocker(isVisible(ids[k])))
    decreases |ids|
  {
    if |ids| == 0 then Success(())
    else
      match isVisible(ids[0])
      case Failure(e) => Failure(e)
      case Success(visible) =>
        if !visible then Failure(Deleted)
        else
          var rest := CheckVisible(isVisible, ids[1..]);
          assert forall k :: FirstBlockedAt(isVisible, ids, k) ==> k > 0 && FirstBlockedAt(isVisible, ids[1..], k - 1);
          rest
  }

  /** The selection found the id and every selected id is visible. */
  predicate Admitted(select: Id -> Result<seq<Id>, Error>, isVisible: Id -> Result<bool, Error>, id: Id) {
    select(id).Success? && |select(id).value| > 0 && AllVisible(isVisible, select(id).value)
  }

  /** `r` is what the gate prescribes whenever the gate does not admit `id`:
      a selection error is passed on, an empty selection is `NotFound`, the first
      visibility error or invisible element wins; and `r` succeeds only if admitted. */
  ghost predicate GateRespected<T>(select: Id -> Result<seq<Id>, Error>, isVisible: Id -> Result<bool, Error>,
                             id: Id, r: Result<T, Error>) {
    && (select(id).Failure? ==> r == Failure(select(id).error))
    && (select(id) == Success([]) ==> r == Failure(NotFound))
    && (forall k :: select(id).Success? && FirstBlockedAt(isVisible, select(id).value, k) ==>
          r == Failure(Blocker(isVisible(select(id).value[k]))))
    && (r.Success? ==> Admitted(select, isVisible, id))
  }

  /** Select, require a non-empty selection, check visibility. */
  function ResolveVisible(select: Id -> Result<seq<Id>, Error>, isVisible: Id -> Result<bool, Error>, id: Id)
    : (r: Result<seq<Id>, Error>)
    ensures GateRespected(select, isVisible, id, r)
    ensures Admitted(select, isVisible, id) ==> r == Success(select(id).value)
  {
    var ids :- select(id);
    if |ids| == 0 then Failure(NotFound)
    else
      var _ :- CheckVisible(isVisible, ids);
      Success(ids)
  }
}
