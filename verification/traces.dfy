/** Sequences of calls on one pool, made one after another. */
module PoolTraces {
  import opened Wrappers
  import opened RequestiumPool

  /** One call on the pool, with the outcome of the foreign calls it makes. */
  datatype Call =
    | AcquireCall(factoryRaises: bool)
    | ReleaseCall(handle: Option<Handle>, cleanup: Cleanup)
    | DestroyCall(handle: Option<Handle>)

  /** The pool state after one call, whether it returned or raised. */
  function Apply(p: Pool, c: Call): Pool {
    match c
    case AcquireCall(f) => Acquire(p, f).pool
    case ReleaseCall(h, cl) => Release(p, h, cl).pool
    case DestroyCall(h) => Destroy(p, h)
  }

  /** The pool state after the calls, in order. */
  function Run(p: Pool, calls: seq<Call>): Pool
    decreases |calls|
  {
    if |calls| == 0 then p else Run(Apply(p, calls[0]), calls[1..])
  }

  /** A call that hands back a session, and whose cleanup succeeds, hands back
      one that is checked out at that moment. */
  predicate HandsBackHeld(p: Pool, c: Call) {
    c.ReleaseCall? && c.handle.Some? && c.cleanup == Cleared ==> c.handle.value in p.inuse
  }

  /** Every release in the calls hands back a session then checked out. */
  predicate Disciplined(p: Pool, calls: seq<Call>)
    decreases |calls|
  {
    |calls| == 0 || (HandsBackHeld(p, calls[0]) && Disciplined(Apply(p, calls[0]), calls[1..]))
  }

  /** Each call preserves the invariant when it does not hand back a session
      that is not checked out. */
  lemma ApplyPreservesInv(p: Pool, c: Call)
    requires Inv(p) && HandsBackHeld(p, c)
    ensures Inv(Apply(p, c))
  {
  }

  /** A non-empty prefix of a run starts with the run's first call. */
  lemma RunPrefix(p: Pool, calls: seq<Call>, k: nat)
    requires 0 < k <= |calls|
    ensures Run(p, calls[..k]) == Run(Apply(p, calls[0]), calls[1..][..k - 1])
  {
    assert calls[..k][1..] == calls[1..][..k - 1];
  }

  /** From a pool that keeps the invariant, every prefix of a disciplined
      sequence of calls ends in a pool that keeps it: no session is held
      twice, there are never more than `poolSize` sessions, and every session
      came from the factory. */
  lemma {:induction false} RunPreservesInv(p: Pool, calls: seq<Call>)
    requires Inv(p) && Disciplined(p, calls)
    ensures forall k :: 0 <= k <= |calls| ==> Inv(Run(p, calls[..k]))
    decreases |calls|
  {
    if |calls| > 0 {
      var q := Apply(p, calls[0]);
      ApplyPreservesInv(p, calls[0]);
      RunPreservesInv(q, calls[1..]);
      forall k | 0 <= k <= |calls|
        ensures Inv(Run(p, calls[..k]))
      {
        if k > 0 {
          RunPrefix(p, calls, k);
        } else {
          assert calls[..k] == [];
        }
      }
    } else {
      assert calls[..0] == [];
    }
  }

  /** Starting from the empty pool of a non-negative capacity, a disciplined
      sequence of calls keeps the invariant after every call. */
  lemma FromInitPreservesInv(poolSize: int, calls: seq<Call>)
    requires poolSize >= 0 && Disciplined(Init(poolSize), calls)
    ensures forall k :: 0 <= k <= |calls| ==> Inv(Run(Init(poolSize), calls[..k]))
  {
    RunPreservesInv(Init(poolSize), calls);
  }

  /** Every call, whatever session it hands back, keeps the factory's counter
      above every handle in the pool. */
  lemma ApplyKeepsIssued(p: Pool, c: Call)
    requires Issued(p)
    ensures Issued(Apply(p, c)) && Apply(p, c).poolSize == p.poolSize
  {
  }

  /** Any sequence of calls, disciplined or not, keeps the factory's counter
      above every handle in the pool. */
  lemma {:induction false} RunKeepsIssued(p: Pool, calls: seq<Call>)
    requires Issued(p)
    ensures Issued(Run(p, calls)) && Run(p, calls).poolSize == p.poolSize
    decreases |calls|
  {
    if |calls| > 0 {
      ApplyKeepsIssued(p, calls[0]);
      RunKeepsIssued(Apply(p, calls[0]), calls[1..]);
    }
  }

  /** After any sequence of calls on the constructor's pool, even one that
      hands back sessions the pool never built, a session the factory builds
      is new to the pool. */
  lemma FromInitBuildsFresh(poolSize: int, calls: seq<Call>)
    ensures var p := Run(Init(poolSize), calls);
      var a := Acquire(p, false);
      |p.available| == 0 && |p.inuse| < poolSize ==>
        a.Returned? && a.value.Some? && a.value.value !in Handles(p) && a.value.value in a.pool.inuse
  {
    RunKeepsIssued(Init(poolSize), calls);
  }
}
