/** Properties of the session pool that relate several operations. */
module PoolProperties {
  import opened Wrappers
  import opened Lists
  import opened RequestiumPool

  /** Acquiring an idle session and handing it straight back restores the
      pool exactly: the handle returns to the end of `available`. */
  lemma AcquireReleaseRoundTrip(p: Pool)
    requires Distinct(p) && Issued(p) && |p.available| > 0
    ensures var a := Acquire(p, false);
      a.Returned? && a.value.Some? && Release(a.pool, a.value, Cleared) == Returned(p, ())
  {
    var h := p.available[|p.available| - 1];
    assert h < p.nextId && h !in p.inuse by {
      assert h in Handles(p);
      NoDuplicatesConcat(p.available, p.inuse);
    }
    MoveToIdleUndoesTakeIdle(p);
  }

  /** A released session is the next one handed out (last in, first out),
      whatever the pool held before. */
  lemma ReleaseThenAcquireReuses(p: Pool, h: Handle, factoryRaises: bool)
    ensures var r := Release(p, Some(h), Cleared);
      var a := Acquire(r.pool, factoryRaises);
      a.Returned? && a.value == Some(h) && h in a.pool.inuse && a.pool.nextId == r.pool.nextId
  {
  }

  /** A successful release of a checked-out session splices out its first
      occurrence in `inuse`: every other session keeps its relative order. */
  lemma ReleaseKeepsOrder(p: Pool, h: Handle)
    requires h in p.inuse
    ensures var i := FirstIndex(p.inuse, h);
      Release(p, Some(h), Cleared).pool.inuse == p.inuse[..i] + p.inuse[i + 1..]
  {
    RemoveFirstSplices(p.inuse, h);
  }

  /** Destroying a session splices out its first occurrence in each list that
      holds it: every other session keeps its relative order. */
  lemma DestroyKeepsOrder(p: Pool, h: Handle)
    ensures h in p.inuse ==>
      var i := FirstIndex(p.inuse, h);
      Destroy(p, Some(h)).inuse == p.inuse[..i] + p.inuse[i + 1..]
    ensures h in p.available ==>
      var i := FirstIndex(p.available, h);
      Destroy(p, Some(h)).available == p.available[..i] + p.available[i + 1..]
  {
    if h in p.inuse {
      RemoveFirstSplices(p.inuse, h);
    }
    if h in p.available {
      RemoveFirstSplices(p.available, h);
    }
  }

  /** In a duplicate-free pool, destroying a session twice is the same as
      destroying it once. */
  lemma DestroyIdempotent(p: Pool, h: Option<Handle>)
    requires Distinct(p)
    ensures Destroy(Destroy(p, h), h) == Destroy(p, h)
  {
  }

  /** Handing back a session that was already destroyed puts it back into
      `available`: release has no record of destroyed sessions. */
  lemma ReleaseAfterDestroyResurrects(p: Pool, h: Handle)
    requires Distinct(p)
    ensures var d := Destroy(p, Some(h));
      && h !in Handles(d)
      && h in Release(d, Some(h), Cleared).pool.available
  {
  }

  /** Handing back the same session twice leaves it twice in `available`:
      the pool is no longer duplicate-free. */
  lemma DoubleReleaseDuplicates(p: Pool, h: Handle)
    ensures var twice := Release(Release(p, Some(h), Cleared).pool, Some(h), Cleared).pool;
      twice.available == p.available + [h, h] && !Distinct(twice)
  {
    var once := Release(p, Some(h), Cleared).pool;
    assert once.available == p.available + [h];
    var twice := Release(once, Some(h), Cleared).pool;
    assert twice.available == once.available + [h];
    assert twice.available == p.available + [h, h];
    assert !Distinct(twice) by {
      var n := |p.available|;
      assert Handles(twice)[n] == h && Handles(twice)[n + 1] == h;
      TwoPositionsCount(Handles(twice), n, n + 1);
    }
  }

  /** A session left twice in `available` is handed out by the next two
      acquisitions: two callers hold the same session. */
  lemma DuplicateHandedOutTwice(p: Pool, h: Handle)
    requires |p.available| >= 2
    requires p.available[|p.available| - 1] == h && p.available[|p.available| - 2] == h
    ensures var first := Acquire(p, false);
      var second := Acquire(first.pool, false);
      && first.value == Some(h) && second.value == Some(h)
      && multiset(second.pool.inuse)[h] == multiset(p.inuse)[h] + 2
  {
    var first := Acquire(p, false);
    assert first.pool.available == p.available[..|p.available| - 1];
    var second := Acquire(first.pool, false);
    assert second.pool.inuse == p.inuse + [h] + [h];
  }

  /** Handing back a session the pool never built adds it to `available`;
      once it is reused, the factory's next session is a different one. */
  lemma ForeignReleaseThenBuildIsFresh()
    ensures Release(Init(4), Some(0), Cleared) == Returned(Pool([0], [], 4, 1), ())
    ensures Acquire(Pool([0], [], 4, 1), false) == Returned(Pool([], [0], 4, 1), Some(0))
    ensures Acquire(Pool([], [0], 4, 1), false) == Returned(Pool([], [0, 1], 4, 2), Some(1))
  {
    assert RemoveFirst([], 0) == [] && Past(0, 0) == 1;
    assert MoveToIdle(Init(4), 0) == Pool([0], [], 4, 1);
    assert TakeIdle(Pool([0], [], 4, 1)) == Pool([], [0], 4, 1);
    assert AddBuilt(Pool([], [0], 4, 1)) == Pool([], [0, 1], 4, 2);
  }

  /** A pool of capacity two, used sequentially, builds two sessions and then
      finds none for a third acquisition. */
  lemma CapacityTwoFills()
    ensures Acquire(Init(2), false) == Returned(Pool([], [0], 2, 1), Some(0))
    ensures Acquire(Pool([], [0], 2, 1), false) == Returned(Pool([], [0, 1], 2, 2), Some(1))
    ensures Acquire(Pool([], [0, 1], 2, 2), false) == Returned(Pool([], [0, 1], 2, 2), None)
  {
    assert AddBuilt(Init(2)) == Pool([], [0], 2, 1);
    assert AddBuilt(Pool([], [0], 2, 1)) == Pool([], [0, 1], 2, 2);
  }

  /** Continuing `CapacityTwoFills`: handing back the first session makes
      it the only idle one, and the counter stays put. */
  lemma CapacityTwoReleases()
    ensures Release(Pool([], [0, 1], 2, 2), Some(0), Cleared) == Returned(Pool([0], [1], 2, 2), ())
  {
    assert RemoveFirst([0, 1], 0) == [1] by {
      assert [0, 1][1..] == [1];
    }
  }

  /** Continuing `CapacityTwoReleases`: the next acquisition reuses the
      released session instead of building another. */
  lemma CapacityTwoReuses()
    ensures Acquire(Pool([0], [1], 2, 2), false) == Returned(Pool([], [1, 0], 2, 2), Some(0))
  {
    assert TakeIdle(Pool([0], [1], 2, 2)) == Pool([], [1, 0], 2, 2);
  }

  /** With the default capacity, the fifth sequential acquisition without any
      release finds no session. */
  lemma DefaultCapacityScenario()
    ensures Acquire(Pool([], [0, 1, 2], DefaultPoolSize, 3), false) ==
      Returned(Pool([], [0, 1, 2, 3], DefaultPoolSize, 4), Some(3))
    ensures Acquire(Pool([], [0, 1, 2, 3], DefaultPoolSize, 4), false) ==
      Returned(Pool([], [0, 1, 2, 3], DefaultPoolSize, 4), None)
  {
    assert AddBuilt(Pool([], [0, 1, 2], DefaultPoolSize, 3)) == Pool([], [0, 1, 2, 3], DefaultPoolSize, 4);
  }

  /** The constructor's pool with a capacity of zero or less hands out
      nothing: there is no idle session and no room to build one. */
  lemma EmptySaturatedGivesNone(poolSize: int, factoryRaises: bool)
    requires poolSize <= 0
    ensures Acquire(Init(poolSize), factoryRaises) == Returned(Init(poolSize), None)
  {
  }
}
