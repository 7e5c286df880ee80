/**
 The EAP identifier generator of the authenticator state machine.

 The next identifier is a function of the state machine's `currentId` alone:
 with no identifier yet it is 116; otherwise it is `currentId + 1`, unless
 that would pass 255, in which case a fresh value is drawn uniformly from
 0..200 (both ends included) instead of wrapping. The values feed the
 one-octet Identifier field of an EAP packet (section 4 of RFC 3748).

 The random draw is an argument: `draw` is the value `random.randint(0, 200)`
 would return if the generator asked for one.
 */
module EapId {
  import opened Optional
  import opened Octet

  /** The identifier issued when the state machine has none yet. */
  const FirstId: int := 116

  /** The largest value a reseeding draw can return. */
  const ReseedMax: int := 200

  /** A value `random.randint(0, 200)` can return. */
  predicate IsDraw(d: int) {
    0 <= d <= ReseedMax
  }

  predicate AllDraws(draws: seq<int>) {
    forall i :: 0 <= i < |draws| ==> IsDraw(draws[i])
  }

  /** A `currentId` the state machine can hold: none yet, or a one-octet identifier. */
  predicate IsCurrent(cur: Option<int>) {
    cur.None? || IsOctet(cur.value)
  }

  /** The state machine: its current identifier and everything else it holds. */
  datatype StateMachine<T> = StateMachine(currentId: Option<int>, rest: T)

  /** The identifier for the state machine's next request. */
  function NextId<T>(sm: StateMachine<T>, draw: int): (r: int)
    requires IsDraw(draw)
    // seeding
    ensures sm.currentId.None? ==> r == FirstId
    // counting up
    ensures sm.currentId.Some? && sm.currentId.value + 1 <= MaxId ==> r == sm.currentId.value + 1
    // reseeding: the draw itself, never a wrap to 0 and never 256
    ensures sm.currentId.Some? && sm.currentId.value + 1 > MaxId ==> r == draw && IsDraw(r)
    // the result is an octet exactly when the current identifier is not below -1
    ensures IsOctet(r) <==> (sm.currentId.None? || sm.currentId.value >= -1)
    ensures IsCurrent(sm.currentId) ==> IsOctet(r)
  {
    match sm.currentId
    case None => FirstId
    case Some(c) =>
      var id := c + 1;
      if id > MaxId then draw else id
  }

  /** The generator reads nothing of the state machine but `currentId`. */
  lemma NextIdReadsOnlyCurrentId<T, U>(sm: StateMachine<T>, other: StateMachine<U>, draw: int)
    requires IsDraw(draw)
    requires sm.currentId == other.currentId
    ensures NextId(sm, draw) == NextId(other, draw)
  {
  }

  /**
   The identifiers of successive requests when the caller stores each one as
   `currentId`; `draws[i]` is the value the i-th request's draw would return.
   */
  function Series<T>(sm: StateMachine<T>, draws: seq<int>): (ids: seq<int>)
    requires AllDraws(draws)
    ensures |ids| == |draws|
    decreases |draws|
  {
    if draws == [] then []
    else
      var id := NextId(sm, draws[0]);
      [id] + Series(sm.(currentId := Some(id)), draws[1..])
  }

  /** Every identifier of a series started from a valid state is one octet. */
  lemma {:induction false} SeriesInRange<T>(sm: StateMachine<T>, draws: seq<int>)
    requires AllDraws(draws)
    requires IsCurrent(sm.currentId)
    ensures forall i :: 0 <= i < |draws| ==> IsOctet(Series(sm, draws)[i])
    decreases |draws|
  {
    if draws != [] {
      var id := NextId(sm, draws[0]);
      SeriesInRange(sm.(currentId := Some(id)), draws[1..]);
    }
  }

  /**
   Along a series, each identifier after the first is the previous one plus
   one while that stays within 255, and the draw of its own request otherwise.
   */
  lemma {:induction false} SeriesSteps<T>(sm: StateMachine<T>, draws: seq<int>)
    requires AllDraws(draws)
    ensures |draws| > 0 ==> Series(sm, draws)[0] == NextId(sm, draws[0])
    ensures forall i :: 0 <= i < |draws| - 1 ==>
      var ids := Series(sm, draws);
      ids[i + 1] == if ids[i] + 1 <= MaxId then ids[i] + 1 else draws[i + 1]
    decreases |draws|
  {
    if draws != [] {
      var id := NextId(sm, draws[0]);
      var sm' := sm.(currentId := Some(id));
      SeriesSteps(sm', draws[1..]);
      var ids := Series(sm, draws);
      forall i | 0 <= i < |draws| - 1
        ensures ids[i + 1] == if ids[i] + 1 <= MaxId then ids[i] + 1 else draws[i + 1]
      {
        if i > 0 {
          assert ids[i] == Series(sm', draws[1..])[i - 1];
          assert ids[i + 1] == Series(sm', draws[1..])[i];
        }
      }
    }
  }

  /**
   From a current identifier c, the first 255 - c requests count up from
   c + 1 to 255 whatever the draws, and the next one takes its draw.
   */
  lemma {:induction false} CountsUpToMax<T>(sm: StateMachine<T>, draws: seq<int>)
    requires AllDraws(draws)
    requires sm.currentId.Some? && IsOctet(sm.currentId.value)
    ensures forall i :: 0 <= i < |draws| && i < MaxId - sm.currentId.value ==>
      Series(sm, draws)[i] == sm.currentId.value + 1 + i
    ensures MaxId - sm.currentId.value < |draws| ==>
      Series(sm, draws)[MaxId - sm.currentId.value] == draws[MaxId - sm.currentId.value]
    decreases |draws|
  {
    if draws != [] {
      var c := sm.currentId.value;
      var id := NextId(sm, draws[0]);
      var sm' := sm.(currentId := Some(id));
      var ids := Series(sm, draws);
      if c < MaxId {
        CountsUpToMax(sm', draws[1..]);
        forall i | 1 <= i < |draws| && i < MaxId - c
          ensures ids[i] == c + 1 + i
        {
          assert ids[i] == Series(sm', draws[1..])[i - 1];
        }
        if MaxId - c < |draws| {
          assert ids[MaxId - c] == Series(sm', draws[1..])[MaxId - c - 1];
        }
      }
    }
  }

  /**
   A fresh state machine issues 116, 117, ..., 255 for its first 140
   requests, and its 141st request takes its draw.
   */
  lemma FreshSeries<T>(sm: StateMachine<T>, draws: seq<int>)
    requires AllDraws(draws)
    requires sm.currentId.None?
    ensures forall i :: 0 <= i < |draws| && i <= MaxId - FirstId ==> Series(sm, draws)[i] == FirstId + i
    ensures MaxId - FirstId + 1 < |draws| ==>
      Series(sm, draws)[MaxId - FirstId + 1] == draws[MaxId - FirstId + 1]
  {
    if draws != [] {
      var sm' := sm.(currentId := Some(FirstId));
      var ids := Series(sm, draws);
      CountsUpToMax(sm', draws[1..]);
      forall i | 1 <= i < |draws| && i <= MaxId - FirstId
        ensures ids[i] == FirstId + i
      {
        assert ids[i] == Series(sm', draws[1..])[i - 1];
      }
      if MaxId - FirstId + 1 < |draws| {
        assert ids[MaxId - FirstId + 1] == Series(sm', draws[1..])[MaxId - FirstId];
      }
    }
  }
}
