/**
 * Collision-free id allocation (ContentManagement/Registrar.cs).
 *
 * `System.Random` is not modelled: its successive draws are an oracle
 * `rng`, reduced to the range `Random.Next(1000000, 9999999)` can return.
 */
module Registration {

  const MinId := 1000000
  /** The exclusive upper bound passed to `Random.Next`. */
  const MaxId := 9999999

  /** The `k`-th draw of `random.Next(MinId, MaxId)`. */
  function Draw(rng: nat -> nat, k: nat): (id: int)
    ensures MinId <= id < MaxId
  {
    MinId + rng(k) % (MaxId - MinId)
  }

  class Registrar {
    /** `_existing`: every id registered or handed out so far. */
    var existing: set<int>

    constructor ()
      ensures existing == {}
    {
      existing := {};
    }

    method RegisterIds(ids: seq<int>)
      modifies this
      ensures existing == old(existing) + set x | x in ids
    {
      for k := 0 to |ids|
        invariant existing == old(existing) + set x | x in ids[..k]
      {
        assert ids[..k + 1] == ids[..k] + [ids[k]];
        existing := existing + {ids[k]};
      }
      assert ids[..|ids|] == ids;
    }

    method RegisteredIds() returns (ids: set<int>)
      ensures ids == existing
    {
      ids := existing;
    }

    /**
     * Draws until the draw is not registered, registers it and returns it.
     * The source loops for ever when no draw is fresh; the precondition
     * says that some draw is.
     */
    method NextId(rng: nat -> nat) returns (id: int)
      requires exists k: nat :: Draw(rng, k) !in existing
      modifies this
      ensures id !in old(existing) && existing == old(existing) + {id}
      ensures MinId <= id < MaxId
      ensures exists k: nat :: id == Draw(rng, k) && forall j :: 0 <= j < k ==> Draw(rng, j) in old(existing)
    {
      ghost var bound: nat :| Draw(rng, bound) !in existing;
      var k := 0;
      id := Draw(rng, k);
      while id in existing
        invariant k <= bound && id == Draw(rng, k)
        invariant forall j :: 0 <= j < k ==> Draw(rng, j) in existing
        decreases bound - k
      {
        k := k + 1;
        id := Draw(rng, k);
      }
      existing := existing + {id};
    }
  }

  /** Registering the same ids a second time changes nothing. */
  method RegisterTwice(r: Registrar, ids: seq<int>)
    modifies r
    ensures r.existing == old(r.existing) + set x | x in ids
  {
    r.RegisterIds(ids);
    ghost var once := r.existing;
    r.RegisterIds(ids);
    assert r.existing == once;
  }

  /**
   * Two successive allocations on the same registrar differ, and neither
   * was registered before.
   */
  method SuccessiveIdsDiffer(r: Registrar, first: nat -> nat, second: nat -> nat) returns (a: int, b: int)
    requires exists k: nat :: Draw(first, k) !in r.existing
    requires exists k: nat, l: nat :: Draw(second, k) != Draw(second, l) && Draw(second, k) !in r.existing && Draw(second, l) !in r.existing
    modifies r
    ensures a != b && a !in old(r.existing) && b !in old(r.existing)
    ensures r.existing == old(r.existing) + {a, b}
  {
    a := r.NextId(first);
    ghost var k: nat, l: nat :| Draw(second, k) != Draw(second, l) && Draw(second, k) !in old(r.existing) && Draw(second, l) !in old(r.existing);
    assert Draw(second, k) !in r.existing || Draw(second, l) !in r.existing;
    b := r.NextId(second);
  }
}
