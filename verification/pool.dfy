/** The session pool: two lists of opaque session handles, `available`
    (idle, reused last-in first-out) and `inuse` (checked out), under a
    capacity `poolSize`. Every operation is a pure transition on an
    immutable `Pool` value. */
module RequestiumPool {
  import opened Wrappers
  import opened Lists

  /** A session is tracked by identity only, so a handle is an opaque id. */
  type Handle = nat

  /** The capacity a pool gets when none is given. */
  const DefaultPoolSize: int := 4

  /** `nextId` is the id the session factory hands out next; ids at or above
      it have never been built by this pool. */
  datatype Pool = Pool(available: seq<Handle>, inuse: seq<Handle>, poolSize: int, nextId: nat)

  /** How the two cookie-clearing calls of a release ended: both succeeded,
      one raised an error of the recognised connection class (swallowed),
      or one raised anything else (propagated to the caller). */
  datatype Cleanup = Cleared | RecognisedError | OtherError

  /** The result of an operation: it returned a value, or an exception
      escaped to the caller; either way, the pool state afterwards. */
  datatype Outcome<T> = Returned(pool: Pool, value: T) | Raised(pool: Pool)

  /** Every handle the pool knows, idle ones first. */
  function Handles(p: Pool): seq<Handle> {
    p.available + p.inuse
  }

  function Total(p: Pool): nat {
    |p.available| + |p.inuse|
  }

  /** No handle occurs twice, within one list or across the two. */
  predicate Distinct(p: Pool) {
    NoDuplicates(Handles(p))
  }

  predicate WithinCapacity(p: Pool) {
    Total(p) <= p.poolSize
  }

  /** Every known handle was built by this pool's factory. */
  predicate Issued(p: Pool) {
    forall h | h in Handles(p) :: h < p.nextId
  }

  predicate Inv(p: Pool) {
    Distinct(p) && WithinCapacity(p) && Issued(p)
  }

  /** The empty pool of the constructor. */
  function Init(poolSize: int): (r: Pool)
    ensures Total(r) == 0 && r.poolSize == poolSize
    ensures Inv(r) <==> poolSize >= 0
  {
    Pool([], [], poolSize, 0)
  }

  /** The step shared by both "take an idle session" branches of `acquire`:
      pop the last idle handle and append it to `inuse`. */
  function TakeIdle(p: Pool): (q: Pool)
    requires |p.available| > 0
    ensures q.available + [p.available[|p.available| - 1]] == p.available
    ensures q.inuse == p.inuse + [p.available[|p.available| - 1]]
    ensures q.poolSize == p.poolSize && q.nextId == p.nextId
    ensures multiset(Handles(q)) == multiset(Handles(p))
    ensures Issued(p) ==> Issued(q)
    ensures Inv(p) ==> Inv(q) && p.available[|p.available| - 1] !in q.available
  {
    var h := p.available[|p.available| - 1];
    var q := p.(available := p.available[..|p.available| - 1], inuse := p.inuse + [h]);
    assert p.available == q.available + [h];
    assert Handles(p) == q.available + [h] + p.inuse;
    assert multiset(Handles(q)) == multiset(Handles(p));
    NoDuplicatesConcat(p.available, p.inuse);
    NoDuplicatesAppend(q.available, h);
    forall x | x in Handles(q) ensures x in Handles(p) {
      if x in q.available {
        assert x in p.available;
      }
    }
    q
  }

  /** Register a session just built by the factory as in use. */
  function AddBuilt(p: Pool): (q: Pool)
    ensures Handles(q) == Handles(p) + [p.nextId]
    ensures q.available == p.available && q.inuse == p.inuse + [p.nextId]
    ensures q.poolSize == p.poolSize && q.nextId == p.nextId + 1
    ensures Issued(p) ==> p.nextId !in Handles(p) && Issued(q)
    ensures Inv(p) && |p.inuse| < p.poolSize && |p.available| == 0 ==> Inv(q)
  {
    var q := p.(inuse := p.inuse + [p.nextId], nextId := p.nextId + 1);
    assert Handles(q) == Handles(p) + [p.nextId];
    NoDuplicatesAppend(Handles(p), p.nextId);
    q
  }

  /** Take the most recently released idle session if there is one; otherwise
      build a new one if fewer than `poolSize` are in use; otherwise (in a
      single-threaded run, where nobody else can release) give back `None`.
      `factoryRaises` says whether building a session raised. */
  function Acquire(p: Pool, factoryRaises: bool): (r: Outcome<Option<Handle>>)
    ensures r.pool.poolSize == p.poolSize
    ensures r.Raised? <==> |p.available| == 0 && |p.inuse| < p.poolSize && factoryRaises
    ensures r.Raised? ==> r.pool == p
    // an idle session is reused: the last one, moved to the end of `inuse`
    ensures |p.available| > 0 ==>
      && r.Returned? && r.value.Some?
      && r.value.value == p.available[|p.available| - 1]
      && r.pool.available + [r.value.value] == p.available
      && r.pool.inuse == p.inuse + [r.value.value]
      && multiset(Handles(r.pool)) == multiset(Handles(p))
      && r.pool.nextId == p.nextId
    // a new session is built: one more handle, `available` untouched
    ensures |p.available| == 0 && |p.inuse| < p.poolSize && !factoryRaises ==>
      && r.Returned? && r.value.Some?
      && r.pool.available == p.available
      && r.pool.inuse == p.inuse + [r.value.value]
      && Total(r.pool) == Total(p) + 1 <= p.poolSize
      && (Issued(p) ==> r.value.value !in Handles(p))
    // saturated: nothing is handed out and nothing changes
    ensures |p.available| == 0 && |p.inuse| >= p.poolSize ==> r == Returned(p, None)
    ensures Issued(p) ==> Issued(r.pool)
    ensures Inv(p) ==> Inv(r.pool)
    ensures Inv(p) && r.Returned? && r.value.Some? ==>
      r.value.value in r.pool.inuse && r.value.value !in r.pool.available
  {
    if |p.available| > 0 then
      Returned(TakeIdle(p), Some(p.available[|p.available| - 1]))
    else if |p.inuse| < p.poolSize then
      if factoryRaises then Raised(p)
      else Returned(AddBuilt(p), Some(p.nextId))
    else
      Returned(p, None)
  }

  /** A counter value above every handle built so far and above `x`: a
      session handed back from outside the pool is a distinct object from
      every session the factory builds later. */
  function Past(n: nat, x: Handle): (m: nat)
    ensures m >= n && x < m
    ensures x < n ==> m == n
  {
    if x < n then n else x + 1
  }

  /** A pool that gains `x` at the end of `available`, keeps at most the
      handles of `inuse`, and has a counter above `x` keeps every handle below
      its counter. */
  lemma AppendedKeepsIssued(p: Pool, x: Handle, q: Pool)
    requires Issued(p)
    requires q.available == p.available + [x] && multiset(q.inuse) <= multiset(p.inuse)
    requires q.nextId >= p.nextId && x < q.nextId
    ensures Issued(q)
  {
    forall y | y in Handles(q) ensures y < q.nextId {
      if y in q.inuse {
        assert y in multiset(q.inuse);
        assert y in Handles(p);
      } else if y != x {
        assert y in Handles(p);
      }
    }
  }

  /** The moves of a release whose cleanup succeeded. */
  function MoveToIdle(p: Pool, x: Handle): (q: Pool)
    ensures q.available == p.available + [x]
    ensures multiset(q.inuse) == multiset(p.inuse) - multiset{x}
    ensures x !in p.inuse ==> q.inuse == p.inuse
    ensures q.poolSize == p.poolSize && q.nextId >= p.nextId && x < q.nextId
    ensures x < p.nextId ==> q.nextId == p.nextId
    ensures x in p.inuse ==> multiset(Handles(q)) == multiset(Handles(p)) && Total(q) == Total(p)
    ensures x !in p.inuse ==> Total(q) == Total(p) + 1
    ensures Issued(p) ==> Issued(q)
    ensures Issued(p) && x in p.inuse ==> q.nextId == p.nextId
    ensures Distinct(p) && x in p.inuse ==> x !in q.inuse
  {
    var q := p.(inuse := RemoveFirst(p.inuse, x), available := p.available + [x], nextId := Past(p.nextId, x));
    assert multiset(q.inuse) == multiset(p.inuse) - multiset{x} by {
      RemoveFirstCounts(p.inuse, x);
    }
    assert x in p.inuse ==> multiset(Handles(q)) == multiset(Handles(p)) by {
      assert multiset(Handles(q)) == multiset(p.available) + multiset{x} + multiset(q.inuse);
      assert multiset(Handles(p)) == multiset(p.available) + multiset(p.inuse);
    }
    assert Issued(p) && x in p.inuse ==> x < p.nextId by {
      if x in p.inuse {
        assert x in Handles(p);
      }
    }
    assert Issued(p) ==> Issued(q) by {
      if Issued(p) {
        AppendedKeepsIssued(p, x, q);
      }
    }
    assert Distinct(p) && x in p.inuse ==> x !in q.inuse by {
      NoDuplicatesConcat(p.available, p.inuse);
    }
    q
  }

  /** Handing back a checked-out session keeps the invariant. */
  lemma MoveToIdleKeepsInv(p: Pool, x: Handle)
    ensures Inv(p) && x in p.inuse ==> Inv(MoveToIdle(p, x))
  {
    if Inv(p) && x in p.inuse {
      FewerHandlesKeepInv(p, MoveToIdle(p, x));
    }
  }

  /** Moving the last idle session to `inuse` and straight back restores the
      pool, when that session was built here and is not also checked out. */
  lemma MoveToIdleUndoesTakeIdle(p: Pool)
    requires |p.available| > 0
    requires p.available[|p.available| - 1] !in p.inuse && p.available[|p.available| - 1] < p.nextId
    ensures MoveToIdle(TakeIdle(p), p.available[|p.available| - 1]) == p
  {
    RemoveFirstAppended(p.inuse, p.available[|p.available| - 1]);
  }

  /** Hand a session back: clear its cookies, then move it from `inuse` (if it
      is there) to the end of `available`. The moves come after the clearing
      calls, so when clearing raises nothing moves: an error of the recognised
      connection class is swallowed, any other escapes to the caller. */
  function Release(p: Pool, h: Option<Handle>, cleanup: Cleanup): (r: Outcome<()>)
    ensures h.None? ==> r == Returned(p, ())
    ensures r.Raised? <==> h.Some? && cleanup == OtherError
    ensures cleanup != Cleared ==> r.pool == p
    ensures h.Some? && cleanup == Cleared ==>
      && r.pool.available == p.available + [h.value]
      && multiset(r.pool.inuse) == multiset(p.inuse) - multiset{h.value}
      && r.pool.poolSize == p.poolSize
      && r.pool.nextId >= p.nextId && h.value < r.pool.nextId
    // a session the factory built keeps the counter; only one from outside raises it
    ensures h.Some? && h.value < p.nextId ==> r.pool.nextId == p.nextId
    // a session that is not checked out leaves `inuse` exactly as it was
    ensures h.Some? && cleanup == Cleared && h.value !in p.inuse ==> r.pool.inuse == p.inuse
    // handing back a checked-out session neither creates nor loses a handle
    ensures h.Some? && cleanup == Cleared && h.value in p.inuse ==>
      multiset(Handles(r.pool)) == multiset(Handles(p)) && Total(r.pool) == Total(p)
    // a session that was not checked out is added anyway
    ensures h.Some? && cleanup == Cleared && h.value !in p.inuse ==> Total(r.pool) == Total(p) + 1
    // whatever is handed back, the factory's next session is new to the pool
    ensures Issued(p) ==> Issued(r.pool)
    ensures Inv(p) && (h.None? || h.value in p.inuse || cleanup != Cleared) ==> Inv(r.pool)
    ensures Distinct(p) && h.Some? && cleanup == Cleared && h.value in p.inuse ==>
      h.value !in r.pool.inuse
  {
    match h
    case None => Returned(p, ())
    case Some(x) =>
      match cleanup
      case Cleared =>
        MoveToIdleKeepsInv(p, x);
        Returned(MoveToIdle(p, x), ())
      case RecognisedError => Returned(p, ())
      case OtherError => Raised(p)
  }

  /** Removing `x` from both lists only ever takes handles away. */
  lemma DiscardShrinks(p: Pool, x: Handle)
    ensures var r := p.(inuse := RemoveFirst(p.inuse, x), available := RemoveFirst(p.available, x));
      multiset(Handles(r)) <= multiset(Handles(p))
  {
    var r := p.(inuse := RemoveFirst(p.inuse, x), available := RemoveFirst(p.available, x));
    RemoveFirstCounts(p.inuse, x);
    RemoveFirstCounts(p.available, x);
    assert multiset(Handles(r)) == multiset(r.available) + multiset(r.inuse);
    assert multiset(Handles(p)) == multiset(p.available) + multiset(p.inuse);
  }

  /** When `x` occurs at most once in a pool, removing it from both lists takes
      away that occurrence and nothing else. */
  lemma DiscardSingle(p: Pool, x: Handle)
    requires multiset(Handles(p))[x] <= 1
    ensures var r := p.(inuse := RemoveFirst(p.inuse, x), available := RemoveFirst(p.available, x));
      x !in Handles(r) && multiset(Handles(r)) == multiset(Handles(p)) - multiset{x}
  {
    var r := p.(inuse := RemoveFirst(p.inuse, x), available := RemoveFirst(p.available, x));
    RemoveFromBoth(p.available, p.inuse, x);
    assert multiset(Handles(r))[x] == 0;
  }

  /** Removing handles from a pool keeps the invariant. */
  lemma FewerHandlesKeepInv(p: Pool, r: Pool)
    requires Inv(p) && multiset(Handles(r)) <= multiset(Handles(p))
    requires r.poolSize == p.poolSize && r.nextId == p.nextId
    ensures Inv(r)
  {
    NoDuplicatesSub(Handles(r), Handles(p));
    forall y | y in Handles(r) ensures y in Handles(p) {
      assert y in multiset(Handles(r));
    }
    var extra := multiset(Handles(p)) - multiset(Handles(r));
    assert multiset(Handles(p)) == multiset(Handles(r)) + extra;
    assert |multiset(Handles(p))| == |multiset(Handles(r))| + |extra|;
  }

  /** Drop a session from the pool: remove it from `inuse` and from
      `available` wherever it occurs (first occurrence of each). The
      session's own shutdown is outside the pool state. */
  function Destroy(p: Pool, h: Option<Handle>): (r: Pool)
    ensures r.poolSize == p.poolSize && r.nextId == p.nextId
    ensures h.None? ==> r == p
    ensures multiset(Handles(r)) <= multiset(Handles(p))
    // a list the session is in loses exactly one entry; a list it is not in is untouched
    ensures h.Some? && h.value in p.inuse ==> |r.inuse| == |p.inuse| - 1
    ensures h.Some? && h.value !in p.inuse ==> r.inuse == p.inuse
    ensures h.Some? && h.value in p.available ==> |r.available| == |p.available| - 1
    ensures h.Some? && h.value !in p.available ==> r.available == p.available
    ensures h.Some? && Distinct(p) ==>
      && h.value !in Handles(r)
      && multiset(Handles(r)) == multiset(Handles(p)) - multiset{h.value}
    ensures Issued(p) ==> Issued(r)
    ensures Inv(p) ==> Inv(r)
  {
    match h
    case None => p
    case Some(x) =>
      var r := p.(inuse := RemoveFirst(p.inuse, x), available := RemoveFirst(p.available, x));
      DiscardShrinks(p, x);
      assert Distinct(p) ==> x !in Handles(r) && multiset(Handles(r)) == multiset(Handles(p)) - multiset{x} by {
        if Distinct(p) {
          NoDuplicatesCount(Handles(p), x);
          DiscardSingle(p, x);
        }
      }
      assert Issued(p) ==> Issued(r) by {
        forall y | y in Handles(r) ensures y in Handles(p) {
          assert y in multiset(Handles(r));
        }
      }
      assert Inv(p) ==> Inv(r) by {
        if Inv(p) {
          FewerHandlesKeepInv(p, r);
        }
      }
      r
  }

  /** Destroying the last checked-out session of a duplicate-free pool pops it
      from `inuse` and leaves `available` alone. */
  lemma DestroyLastInUse(p: Pool)
    requires Distinct(p) && |p.inuse| > 0
    ensures Destroy(p, Some(p.inuse[|p.inuse| - 1])) ==
      p.(inuse := p.inuse[..|p.inuse| - 1])
  {
    NoDuplicatesConcat(p.available, p.inuse);
    RemoveLastOfNoDuplicates(p.inuse);
  }

  /** Destroying the last idle session of a duplicate-free pool pops it from
      `available` and leaves `inuse` alone. */
  lemma DestroyLastIdle(p: Pool)
    requires Distinct(p) && |p.available| > 0
    ensures Destroy(p, Some(p.available[|p.available| - 1])) ==
      p.(available := p.available[..|p.available| - 1])
  {
    NoDuplicatesConcat(p.available, p.inuse);
    RemoveLastOfNoDuplicates(p.available);
  }

  /** One step of the first walk of `stop` on a duplicate-free pool. */
  lemma InUseStep(p: Pool, i: nat)
    requires Distinct(p) && i < |p.inuse|
    ensures Destroy(p.(inuse := p.inuse[..i + 1]), Some(p.inuse[i])) == p.(inuse := p.inuse[..i])
  {
    var q := p.(inuse := p.inuse[..i + 1]);
    assert Distinct(q) by {
      assert p.inuse == q.inuse + p.inuse[i + 1..];
      assert Handles(p) == Handles(q) + p.inuse[i + 1..];
      NoDuplicatesPrefix(Handles(p), |Handles(q)|);
      assert Handles(p)[..|Handles(q)|] == Handles(q);
    }
    DestroyLastInUse(q);
    assert q.inuse[|q.inuse| - 1] == p.inuse[i] && q.inuse[..|q.inuse| - 1] == p.inuse[..i];
  }

  /** One step of the second walk of `stop` on a duplicate-free pool. */
  lemma IdleStep(p: Pool, j: nat)
    requires Distinct(p) && p.inuse == [] && j < |p.available|
    ensures Destroy(p.(available := p.available[..j + 1]), Some(p.available[j])) ==
      p.(available := p.available[..j])
  {
    var q := p.(available := p.available[..j + 1]);
    assert Distinct(q) by {
      assert Handles(p) == p.available && Handles(q) == q.available;
      NoDuplicatesPrefix(p.available, j + 1);
    }
    DestroyLastIdle(q);
    assert q.available[|q.available| - 1] == p.available[j] && q.available[..|q.available| - 1] == p.available[..j];
  }

  /** The first walk of `stop`: destroy the checked-out sessions from the end
      of `inuse`. The position is kept the way a reverse iterator over a Python
      list keeps it: read the element there, step one down, and stop once the
      position falls outside the list. `quit` lists the sessions destroyed. */
  method DestroyInUse(p: Pool) returns (q: Pool, quit: seq<Handle>)
    ensures q.inuse == []
    ensures q.poolSize == p.poolSize && q.nextId == p.nextId
    ensures Distinct(p) ==> q == p.(inuse := []) && quit == Reversed(p.inuse)
  {
    q := p;
    quit := [];
    var i := |q.inuse| - 1;
    while 0 <= i < |q.inuse|
      invariant i == |q.inuse| - 1
      invariant q.poolSize == p.poolSize && q.nextId == p.nextId
      invariant Distinct(p) ==>
        && q == p.(inuse := p.inuse[..i + 1])
        && quit == Reversed(p.inuse[i + 1..])
      decreases i + 1
    {
      var h := q.inuse[i];
      if Distinct(p) {
        InUseStep(p, i);
        ReversedStep(p.inuse, i);
      }
      q := Destroy(q, Some(h));
      quit := quit + [h];
      i := i - 1;
    }
    assert p.inuse[0..] == p.inuse;
  }

  /** The second walk of `stop`: destroy the idle sessions from the end of
      `available`, keeping the position as `DestroyInUse` does. */
  method DestroyIdle(p: Pool) returns (q: Pool, quit: seq<Handle>)
    requires p.inuse == []
    ensures q.available == [] && q.inuse == []
    ensures q.poolSize == p.poolSize && q.nextId == p.nextId
    ensures Distinct(p) ==> quit == Reversed(p.available)
  {
    q := p;
    quit := [];
    var j := |q.available| - 1;
    while 0 <= j < |q.available|
      invariant j == |q.available| - 1
      invariant q.inuse == []
      invariant q.poolSize == p.poolSize && q.nextId == p.nextId
      invariant Distinct(p) ==>
        && q == p.(available := p.available[..j + 1])
        && quit == Reversed(p.available[j + 1..])
      decreases j + 1
    {
      var h := q.available[j];
      if Distinct(p) {
        IdleStep(p, j);
        ReversedStep(p.available, j);
      }
      q := Destroy(q, Some(h));
      quit := quit + [h];
      j := j - 1;
    }
    assert p.available[0..] == p.available;
  }

  /** Destroy every session: the checked-out ones from the end of `inuse`,
      then the idle ones from the end of `available`. `quit` lists the
      sessions destroyed, in order. Both lists end empty whatever they held. */
  method Stop(p: Pool) returns (q: Pool, quit: seq<Handle>)
    ensures q.available == [] && q.inuse == []
    ensures q.poolSize == p.poolSize && q.nextId == p.nextId
    ensures Distinct(p) ==> quit == Reversed(p.inuse) + Reversed(p.available)
    ensures Distinct(p) ==>
      multiset(quit) == multiset(Handles(p)) && NoDuplicates(quit)
    // no session is shut down twice
    ensures Distinct(p) ==> forall i, j :: 0 <= i < j < |quit| ==> quit[i] != quit[j]
    ensures Inv(p) ==> Inv(q)
  {
    var mid, quitInUse := DestroyInUse(p);
    var quitIdle;
    q, quitIdle := DestroyIdle(mid);
    quit := quitInUse + quitIdle;
    if Distinct(p) {
      assert Handles(mid) == p.available;
      NoDuplicatesConcat(p.available, p.inuse);
      assert multiset(quit) == multiset(p.inuse) + multiset(p.available);
      NoDuplicatesSub(quit, Handles(p));
      NoDuplicatesIndices(quit);
    }
    assert Handles(q) == [];
  }
}
