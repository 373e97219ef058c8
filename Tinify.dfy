/**
 * The quota-aware compression client (ContentManagement/TinifyClient.cs).
 *
 * The C# class keeps its state in static fields; here it is one object. The
 * remote service is reached through two oracles passed in by the caller:
 *  - `usage(i)` is what validating the i-th API key reports: `None` when the
 *    validation fails or reports no compression count, `Some(n)` when the key
 *    is valid and has already been used for n compressions;
 *  - `exchange(bytes, width, height)` is the resize-and-compress round trip:
 *    `Some(result)` on success, `None` when the transfer fails.
 * Each key is validated at most once per process (the cursor never moves
 * back), so one answer per key index describes every run.
 */
module Tinify {
  import opened Wrappers

  type Bytes = seq<bv8>

  type UsageOracle = nat -> Option<int>

  type Exchange = (Bytes, int, int) -> Option<Bytes>

  /** The two ways `Fit` fails: every key is spent, or the transfer itself fails. */
  datatype FitError = QuotaExhausted | TransportFailure

  /** One request handed to the remote service: the payload and the box it must fit. */
  datatype Request = Request(image: Bytes, width: int, height: int)

  /**
   * The state the key rotation works on: the cursor `_activeKeyIndex`, the
   * counter `_remainingRequests` and the key last given to the library (`Tinify.Key`).
   */
  datatype KeyState = KeyState(index: nat, remaining: int, key: Option<string>)

  /** What one run of the rotation loop ends in: the new state, whether a key serves the request, how many iterations ran. */
  datatype Selection = Selection(state: KeyState, served: bool, rounds: nat)

  /** A key can serve a request when it validates and, after this request, its quota is not overdrawn. */
  predicate Usable(limit: int, usage: UsageOracle, i: nat) {
    usage(i).Some? && limit - usage(i).value - 1 >= 0
  }

  function Later(r: Selection): Selection {
    r.(rounds := r.rounds + 1)
  }

  /**
   * One rotation step: the counter is decremented, the key at the cursor is
   * set and the cursor moves past it; a key that validates resets the
   * counter to the limit minus the reported usage, less one for this request.
   */
  function Advance(keys: seq<string>, limit: int, usage: UsageOracle, s: KeyState): (t: KeyState)
    requires s.index < |keys|
    ensures t.index == s.index + 1 && t.key == Some(keys[s.index])
  {
    match usage(s.index)
    case None => KeyState(s.index + 1, s.remaining - 1, Some(keys[s.index]))
    case Some(count) => KeyState(s.index + 1, limit - count - 1, Some(keys[s.index]))
  }

  /**
   * The rotation loop of SetApiKey as a function of the state it starts from:
   * the loop guard is tested first, then the fast path (the counter,
   * decremented, is still non-negative), then a rotation step; a key that
   * validates with its quota not overdrawn serves the request, otherwise the
   * loop goes round again.
   */
  function Select(keys: seq<string>, limit: int, usage: UsageOracle, s: KeyState): Selection
    decreases |keys| - s.index
  {
    if s.index >= |keys| then Selection(s, false, 0)
    else if s.remaining - 1 >= 0 then Selection(s.(remaining := s.remaining - 1), true, 1)
    else
      var t := Advance(keys, limit, usage, s);
      if usage(s.index).Some? && t.remaining >= 0 then Selection(t, true, 1)
      else Later(Select(keys, limit, usage, t))
  }

  /** The fast path: a counter that stays non-negative after the decrement serves the request without touching the cursor or the key. */
  lemma SelectFastPath(keys: seq<string>, limit: int, usage: UsageOracle, s: KeyState)
    requires s.index < |keys| && s.remaining >= 1
    ensures Select(keys, limit, usage, s) == Selection(s.(remaining := s.remaining - 1), true, 1)
  {
  }

  /** Once the cursor has reached the end of the key list every call fails at once, whatever the counter says. */
  lemma SelectAfterLastKey(keys: seq<string>, limit: int, usage: UsageOracle, s: KeyState)
    requires s.index == |keys|
    ensures Select(keys, limit, usage, s) == Selection(s, false, 0)
  {
  }

  /**
   * The cursor only moves forward and stays within the key list; a request
   * that is served leaves a non-negative counter; a request that is not
   * served has run the cursor to the end of the list; the loop runs at most
   * once per remaining key.
   */
  lemma {:induction false} SelectBounds(keys: seq<string>, limit: int, usage: UsageOracle, s: KeyState)
    requires s.index <= |keys|
    ensures var r := Select(keys, limit, usage, s);
      && s.index <= r.state.index <= |keys|
      && (r.served ==> r.state.remaining >= 0)
      && (!r.served ==> r.state.index == |keys|)
      && r.rounds <= |keys| - s.index
    decreases |keys| - s.index
  {
    if s.index < |keys| && s.remaining - 1 < 0 {
      var next := KeyState(s.index + 1, s.remaining - 1, Some(keys[s.index]));
      match usage(s.index)
      case None => SelectBounds(keys, limit, usage, next);
      case Some(count) =>
        var renewed := next.(remaining := limit - count - 1);
        if renewed.remaining < 0 {
          SelectBounds(keys, limit, usage, renewed);
        }
    }
  }

  /**
   * The rotation policy: when the cursor moves, every key it passes over
   * failed validation or was overdrawn, the key now set is the one just
   * before the cursor, and if that key serves the request it validated and
   * the counter is its limit minus its usage, less one. When the cursor does
   * not move, the key is unchanged.
   */
  lemma {:induction false} SelectFirstUsable(keys: seq<string>, limit: int, usage: UsageOracle, s: KeyState)
    requires s.index <= |keys|
    ensures var r := Select(keys, limit, usage, s);
      && (r.state.index == s.index ==> r.state.key == s.key)
      && (s.index < r.state.index <= |keys| ==>
            && r.state.key == Some(keys[r.state.index - 1])
            && (forall i :: s.index <= i < r.state.index - 1 ==> !Usable(limit, usage, i))
            && (r.served <==> Usable(limit, usage, r.state.index - 1))
            && (r.served ==> r.state.remaining == limit - usage(r.state.index - 1).value - 1))
    decreases |keys| - s.index
  {
    if s.index < |keys| && s.remaining - 1 < 0 {
      var next := KeyState(s.index + 1, s.remaining - 1, Some(keys[s.index]));
      match usage(s.index)
      case None =>
        SelectFirstUsable(keys, limit, usage, next);
        SelectBounds(keys, limit, usage, next);
        FastPathOnlyFirst(keys, limit, usage, next);
      case Some(count) =>
        var renewed := next.(remaining := limit - count - 1);
        if renewed.remaining < 0 {
          SelectFirstUsable(keys, limit, usage, renewed);
          SelectBounds(keys, limit, usage, renewed);
          FastPathOnlyFirst(keys, limit, usage, renewed);
        }
    }
  }

  /** From a negative counter the fast path cannot be taken: a served request has moved the cursor. */
  lemma FastPathOnlyFirst(keys: seq<string>, limit: int, usage: UsageOracle, s: KeyState)
    requires s.index <= |keys| && s.remaining < 0
    ensures var r := Select(keys, limit, usage, s);
      r.served ==> r.state.index > s.index
  {
    if s.index < |keys| {
      var next := KeyState(s.index + 1, s.remaining - 1, Some(keys[s.index]));
      match usage(s.index)
      case None => SelectBounds(keys, limit, usage, next);
      case Some(count) => SelectBounds(keys, limit, usage, next.(remaining := limit - count - 1));
    }
  }

  /**
   * Two keys, the first already used up to the limit and the second with five
   * compressions left: the first is skipped, the second is set and its counter
   * drops to four for this request.
   */
  lemma SelectSkipsSpentKey()
    ensures var usage: UsageOracle := i => if i == 0 then Some(500) else Some(495);
      Select(["first", "second"], 500, usage, KeyState(0, 0, None))
        == Selection(KeyState(2, 4, Some("second")), true, 2)
  {
  }

  class TinifyClient {
    const apiKeys: seq<string>
    const compressionsLimit: int

    var activeKeyIndex: nat
    var remainingRequests: int
    /** The key currently given to the compression library (`Tinify.Key`). */
    var activeKey: Option<string>
    var pendingTasks: int
    /** The drain signal `AllDone`: set when no compression is in flight. */
    var allDone: bool
    /** Whether the semaphore that serialises key selection is held. */
    var gateHeld: bool
    /** Every request actually sent to the remote service, in order. */
    ghost var sent: seq<Request>

    ghost predicate Valid()
      reads this
    {
      && activeKeyIndex <= |apiKeys|
      && pendingTasks >= 0
      && (allDone <==> pendingTasks == 0)
    }

    function State(): KeyState
      reads this
    {
      KeyState(activeKeyIndex, remainingRequests, activeKey)
    }

    /** The static initial state: cursor and counter at zero, nothing pending, the drain signal set. */
    constructor (keys: seq<string>, limit: int)
      ensures Valid() && !gateHeld && sent == []
      ensures apiKeys == keys && compressionsLimit == limit
      ensures State() == KeyState(0, 0, None)
      ensures pendingTasks == 0 && allDone
    {
      apiKeys, compressionsLimit := keys, limit;
      activeKeyIndex, remainingRequests, activeKey := 0, 0, None;
      pendingTasks, allDone, gateHeld := 0, true, false;
      sent := [];
    }

    /** One more compression in flight: the count goes up and the drain signal is reset. */
    method IncrementPending()
      modifies this`pendingTasks, this`allDone
      ensures pendingTasks == old(pendingTasks) + 1 && !allDone
      ensures old(Valid()) ==> Valid()
    {
      pendingTasks := pendingTasks + 1;
      allDone := false;
    }

    /** One compression finished: the count goes down and the drain signal is set exactly when it reaches zero. */
    method DecrementPending()
      modifies this`pendingTasks, this`allDone
      ensures pendingTasks == old(pendingTasks) - 1
      ensures allDone == (pendingTasks == 0 || old(allDone))
      ensures old(Valid()) && old(pendingTasks) > 0 ==> Valid()
    {
      pendingTasks := pendingTasks - 1;
      if pendingTasks == 0 {
        allDone := true;
      }
    }

    /**
     * SetApiKey: the rotation loop. `ok` is false where the C# code throws
     * the quota-limit exception.
     */
    method SetApiKey(usage: UsageOracle) returns (ok: bool, ghost rounds: nat)
      requires Valid() && gateHeld
      modifies this`activeKeyIndex, this`remainingRequests, this`activeKey
      ensures Valid()
      ensures var r := Select(apiKeys, compressionsLimit, usage, old(State()));
        State() == r.state && ok == r.served && rounds == r.rounds
      ensures old(activeKeyIndex) <= activeKeyIndex <= |apiKeys|
      ensures ok ==> remainingRequests >= 0
      ensures !ok ==> activeKeyIndex == |apiKeys|
      ensures rounds <= |apiKeys|
    {
      SelectBounds(apiKeys, compressionsLimit, usage, State());
      ghost var goal := Select(apiKeys, compressionsLimit, usage, State());
      rounds := 0;
      while activeKeyIndex < |apiKeys|
        invariant old(activeKeyIndex) <= activeKeyIndex <= |apiKeys|
        invariant goal.state == Select(apiKeys, compressionsLimit, usage, State()).state
        invariant goal.served == Select(apiKeys, compressionsLimit, usage, State()).served
        invariant goal.rounds == rounds + Select(apiKeys, compressionsLimit, usage, State()).rounds
      {
        ghost var before := State();
        remainingRequests := remainingRequests - 1;
        if remainingRequests >= 0 {
          assert Select(apiKeys, compressionsLimit, usage, before) == Selection(State(), true, 1);
          rounds := rounds + 1;
          return true, rounds;
        }
        activeKey := Some(apiKeys[activeKeyIndex]);
        activeKeyIndex := activeKeyIndex + 1;
        rounds := rounds + 1;
        var count := usage(activeKeyIndex - 1);
        if count.Some? {
          remainingRequests := compressionsLimit - count.value;
          remainingRequests := remainingRequests - 1;
          if remainingRequests >= 0 {
            assert State() == Advance(apiKeys, compressionsLimit, usage, before);
            return true, rounds;
          }
        }
        assert State() == Advance(apiKeys, compressionsLimit, usage, before);
        assert Select(apiKeys, compressionsLimit, usage, before) == Later(Select(apiKeys, compressionsLimit, usage, State()));
      }
      ok := false;
    }

    /**
     * Fit: count the request as pending, select a key inside the gate,
     * release the gate, send the request, and count it as finished again on
     * every path.
     */
    method Fit(image: Bytes, width: int, height: int, usage: UsageOracle, exchange: Exchange)
      returns (result: Result<Bytes, FitError>)
      requires Valid() && !gateHeld
      modifies this
      ensures Valid() && !gateHeld
      ensures pendingTasks == old(pendingTasks) && allDone == old(allDone)
      ensures var r := Select(apiKeys, compressionsLimit, usage, old(State()));
        && State() == r.state
        && (!r.served ==> result == Err(QuotaExhausted) && sent == old(sent))
        && (r.served ==> sent == old(sent) + [Request(image, width, height)])
        && (r.served ==> result == match exchange(image, width, height)
                                   case Some(bytes) => Ok(bytes)
                                   case None => Err(TransportFailure))
    {
      IncrementPending();
      gateHeld := true;
      var ok, _ := SetApiKey(usage);
      gateHeld := false;
      if !ok {
        DecrementPending();
        return Err(QuotaExhausted);
      }
      sent := sent + [Request(image, width, height)];
      var reply := exchange(image, width, height);
      DecrementPending();
      match reply
      case Some(bytes) => result := Ok(bytes);
      case None => result := Err(TransportFailure);
    }
  }
}
