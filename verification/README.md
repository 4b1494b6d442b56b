# requestiumpool session pool, modelled in Dafny

`RequestiumPool` keeps a bounded set of browser-automation sessions. Each
session pairs an HTTP client with a driven browser. The pool holds two Python
lists: `available` (idle sessions) and `inuse` (checked-out sessions). It also
holds a capacity `pool_size`, which defaults to 4. It has four operations:

- `acquire` hands out the most recently released idle session. If there is
  none, it builds a new session while fewer than `pool_size` are in use.
  Otherwise it waits for one until a timeout.
- `release` clears a session's cookies and moves it back to `available`.
- `destroy` removes a session from both lists and quits its browser.
- `stop` destroys every session.

This project models that state and those operations as pure transitions on
an immutable value, and proves what each transition does.

- `wrappers.dfy`, module `Wrappers`: `Option`, which stands for a value that
  may be Python's `None`.
- `lists.dfy`, module `Lists`: the Python list operations the pool uses,
  stated over sequences. `pop()` takes the last element, and `append` adds at
  the end. `RemoveFirst` is the guarded `if x in l: l.remove(x)`, which
  deletes the first occurrence. `Reversed` is the order of `reversed(l)`.
  `NoDuplicates` means no value occurs twice. The module also holds the
  lemmas about these operations.
- `pool.dfy`, module `RequestiumPool`: the `Pool` state and the operations
  `Init`, `Acquire`, `Release`, `Destroy` and `Stop`. `Inv` is the pool
  invariant. It has three parts: no handle occurs twice across the two lists,
  `|available| + |inuse| <= poolSize`, and every handle is below the
  factory's counter.
- `properties.dfy`, module `PoolProperties`: properties that relate several
  operations. These are round trips, order preservation, idempotence, what
  handing back a stale or foreign session does, and worked scenarios.
- `traces.dfy`, module `PoolTraces`: sequences of calls. The invariant holds
  after every call of a sequence that only hands back checked-out sessions.

Modelling choices:

- A session is compared by identity (`in` and `remove` on lists of
  `Session` objects), so a handle is an opaque `nat`.
- The session factory `Session(**requestium_args)` builds a new object each
  time, distinct from every session already in either list. The model keeps
  a counter `nextId` above every handle the pool has ever held and hands out
  `nextId` as the new session. A release of a session from outside the pool
  raises the counter past that session's handle (`Past`), so the factory's
  later sessions stay distinct from it. `Issued` (every handle is below
  `nextId`) is therefore a fact about the representation, not a demand on
  callers: the constructor's pool has it and every call keeps it
  (`PoolTraces.RunKeepsIssued`), so every reachable pool has it.
  Whether the factory raises is an input (`factoryRaises`).
  If it raises, the exception propagates and nothing changes, because the
  append comes after the call.
- The two cookie-clearing calls of `release` become an input `Cleanup`.
  `Cleared` means both succeeded. `RecognisedError` stands for one of
  `ConnectionRefusedError`, `BadStatusLine`, `WebDriverException` or
  `ConnectionAbortedError`; it is swallowed. `OtherError` stands for
  anything else, which escapes. In both error cases nothing moves, because
  the list updates sit after the clearing calls inside the `try`.
- `Outcome` records whether an operation returned a value or an exception
  escaped, together with the pool state afterwards.
- `pool_size` is an `int`, as in Python. The constructor's empty pool meets
  the invariant exactly when `pool_size >= 0`.
- `acquire`'s saturated branch polls `available` in a loop until a timeout.
  In a single-threaded run nobody can release in the meantime. So the branch
  returns `None` with the state unchanged: at once when both lists are
  empty, otherwise once the loop's time test fails (see "## Left out" for
  when it never does).
- `stop` walks each list with `reversed(...)` while `destroy` shrinks that
  same list. CPython's reverse list iterator keeps an index. It reads the
  element at that index, steps down by one, and stops once the index falls
  outside the list. `DestroyInUse` and `DestroyIdle` keep exactly that
  index. Each step removes one element from the list being walked, so both
  lists end empty whatever they held, even with duplicates. `quit` lists the
  sessions whose `driver.quit()` was called, in order.

Behaviour of the code that the model keeps as it is:

- `release` never checks that the session was handed out. An already
  released or destroyed session is appended to `available` again
  (`ReleaseAfterDestroyResurrects`, `DoubleReleaseDuplicates`,
  `DuplicateHandedOutTwice`). The invariant is kept only by releases of
  checked-out sessions (`PoolTraces.Disciplined`). A session from outside
  the pool is added too, and later built sessions stay distinct from it
  (`ForeignReleaseThenBuildIsFresh`, `PoolTraces.FromInitBuildsFresh`).
- When a cookie-clearing call of `release` raises a recognised error,
  nothing moves: the session stays in `inuse` and is not made available.
- `stop` destroys the sessions and nothing else. The `stopped` attribute is
  set once by the constructor and never read or changed, so a stopped pool
  goes on building sessions. The model has no such flag.

## Model

| member | source | states |
|---|---|---|
| RequestiumPool.Init | requestiumpool.py:9-23 | The new pool has no sessions and the given capacity, and it satisfies the invariant exactly when the capacity is non-negative |
| RequestiumPool.TakeIdle | requestiumpool.py:37-39 | Taking an idle session moves the last element of `available` to the end of `inuse`, keeps the multiset of handles, and keeps the invariant; the taken handle is no longer idle |
| RequestiumPool.AddBuilt | requestiumpool.py:42-44 | A freshly built session is not among the pool's handles, is appended to `inuse`, leaves `available` untouched, keeps every handle below the counter, and keeps the invariant when there was room |
| RequestiumPool.Acquire | requestiumpool.py:25-56 | With an idle session: returns the last idle one, moves it to the end of `inuse`, and keeps the handle multiset. With none idle and room left: returns a handle not already in the pool, appends it to `inuse`, leaves `available` alone, and the total grows by one and stays within capacity. Saturated, including both lists empty: returns `None` and changes nothing. A raising factory leaves the pool unchanged. Every branch keeps the counter above every handle, the invariant is preserved, and a returned handle is in use and not idle |
| RequestiumPool.MoveToIdle | requestiumpool.py:72-74 | The handle goes to the end of `available` and one copy of it leaves `inuse`; a handle not in use leaves `inuse` exactly as it was and grows the total by one. The counter ends above the handle and is unchanged for a handle the factory built, so every handle stays below it. For a checked-out handle the handle multiset and the total are kept, and in a duplicate-free pool the handle is no longer in use |
| RequestiumPool.MoveToIdleKeepsInv | requestiumpool.py:72-74 | Handing back a checked-out session of a pool that satisfies the invariant yields a pool that satisfies it |
| RequestiumPool.MoveToIdleUndoesTakeIdle | requestiumpool.py:37-74 | Taking the last idle session and handing it straight back restores the pool, when that session was built here and is not also checked out |
| RequestiumPool.Release | requestiumpool.py:58-78 | `None` changes nothing. A failed cleanup changes nothing, and only an unrecognised error escapes. A successful cleanup appends the handle to `available` and drops one copy from `inuse`. That keeps the handle multiset for a checked-out session; a session not in use leaves `inuse` exactly as it was and adds a handle. The counter is unchanged for a session the factory built and otherwise ends above the released handle, so whatever is handed back, every handle stays below it. The invariant is preserved unless a session that was not in use is handed back |
| RequestiumPool.DiscardShrinks | requestiumpool.py:88-92 | Removing a handle from both lists never adds a handle |
| RequestiumPool.DiscardSingle | requestiumpool.py:88-92 | When the handle occurs at most once, removing it from both lists takes exactly that occurrence away and leaves it absent |
| RequestiumPool.FewerHandlesKeepInv | requestiumpool.py:88-92 | A pool holding a sub-multiset of an invariant pool's handles, with the same capacity and factory counter, satisfies the invariant |
| RequestiumPool.Destroy | requestiumpool.py:80-95 | `None` changes nothing. A list holding the session loses exactly one entry, and a list not holding it is untouched. No handle is added, so every handle stays below the counter. In a duplicate-free pool the session is gone from both lists and nothing else is removed. The invariant is preserved |
| RequestiumPool.DestroyLastInUse | requestiumpool.py:101-102 | In a duplicate-free pool, destroying the last checked-out session pops it from `inuse` and leaves the rest alone |
| RequestiumPool.DestroyLastIdle | requestiumpool.py:103-104 | In a duplicate-free pool, destroying the last idle session pops it from `available` and leaves the rest alone |
| RequestiumPool.InUseStep | requestiumpool.py:101-102 | One step of the reverse walk over `inuse`, destroying the element at the current index, leaves exactly the prefix before it |
| RequestiumPool.IdleStep | requestiumpool.py:103-104 | One step of the reverse walk over `available` leaves exactly the prefix before the destroyed element |
| RequestiumPool.DestroyInUse | requestiumpool.py:101-102 | The reverse-iterator walk over `inuse` always empties `inuse`; for a duplicate-free pool it leaves `available` untouched and destroys the in-use sessions last to first |
| RequestiumPool.DestroyIdle | requestiumpool.py:103-104 | With `inuse` empty, the reverse-iterator walk over `available` empties both lists; for a duplicate-free pool it destroys the idle sessions last to first |
| RequestiumPool.Stop | requestiumpool.py:97-104 | Both lists end empty whatever they held, and capacity and factory counter are unchanged. For a duplicate-free pool, the in-use sessions are destroyed last to first and then the idle ones. Every known session is destroyed exactly once, and no two positions of `quit` hold the same session. The invariant is preserved |
| Lists.RemoveFirst | requestiumpool.py:72-73 | Removing a present element shortens the list by one, and removing an absent one changes nothing |
| Lists.RemoveFirstCounts | requestiumpool.py:89-92 | The guarded remove takes away one copy of the element and nothing else |
| Lists.RemoveFirstSplices | requestiumpool.py:73 | `remove` splices out the first occurrence, and every other element keeps its relative order |
| Lists.FirstIndex | requestiumpool.py:73 | The first occurrence of an element is at a position holding it, with no earlier occurrence |
| Lists.Reversed | requestiumpool.py:101 | `reversed` yields the same elements, the k-th being the k-th from the end |
| Lists.RemoveLastOfNoDuplicates | requestiumpool.py:102 | In a duplicate-free list, removing the last element's first occurrence drops exactly the last position |
| Lists.RemoveFirstAppended | requestiumpool.py:73-74 | Removing an element just appended, that was absent before, restores the list |
| PoolProperties.AcquireReleaseRoundTrip | requestiumpool.py:37-39 | Acquiring an idle session of a duplicate-free pool and releasing it with a clean cleanup restores the pool exactly |
| PoolProperties.ReleaseThenAcquireReuses | requestiumpool.py:72-74 | After a successful release, the next acquisition returns that very session (last in, first out), without building one |
| PoolProperties.ReleaseKeepsOrder | requestiumpool.py:72-73 | Releasing a checked-out session splices its first occurrence out of `inuse`, and other sessions keep their order |
| PoolProperties.DestroyKeepsOrder | requestiumpool.py:88-92 | Destroying a session splices its first occurrence out of each list holding it, and other sessions keep their order |
| PoolProperties.DestroyIdempotent | requestiumpool.py:88-92 | In a duplicate-free pool, a second destroy of the same session changes nothing |
| PoolProperties.ReleaseAfterDestroyResurrects | requestiumpool.py:72-74 | A destroyed session that is then released is back in `available` |
| PoolProperties.DoubleReleaseDuplicates | requestiumpool.py:72-74 | Releasing the same session twice leaves it twice at the end of `available`, and the pool is no longer duplicate-free |
| PoolProperties.DuplicateHandedOutTwice | requestiumpool.py:37-39 | A session that sits twice at the end of `available` is handed out by the next two acquisitions |
| PoolProperties.ForeignReleaseThenBuildIsFresh | requestiumpool.py:37-74 | Releasing session 0 into the empty pool of capacity four makes it idle; the next acquisition reuses it and the one after builds session 1, so the two callers hold different sessions |
| PoolProperties.CapacityTwoFills | requestiumpool.py:42-54 | A pool of capacity two builds sessions 0 and 1, and a third sequential acquisition returns `None` with the state unchanged |
| PoolProperties.CapacityTwoReleases | requestiumpool.py:72-74 | Handing back session 0 of the full capacity-two pool makes it the only idle session and leaves session 1 in use |
| PoolProperties.CapacityTwoReuses | requestiumpool.py:37-39 | After session 0 is released, the next acquisition reuses it and builds nothing |
| PoolProperties.DefaultCapacityScenario | requestiumpool.py:42-54 | With the default capacity of four, the fourth acquisition builds session 3 and the fifth returns `None` |
| PoolProperties.EmptySaturatedGivesNone | requestiumpool.py:47-56 | With a capacity of zero or less, acquiring from the empty pool returns `None` and changes nothing, whether or not the factory would raise |
| PoolTraces.ApplyPreservesInv | requestiumpool.py:25-95 | Any single acquire, release or destroy call keeps the invariant, unless it is a successful release of a session that is not checked out |
| PoolTraces.RunPreservesInv | requestiumpool.py:25-95 | From an invariant pool, the invariant holds after every prefix of a sequence of calls that only hands back checked-out sessions |
| PoolTraces.FromInitPreservesInv | requestiumpool.py:19-22 | From the constructor's pool with a non-negative capacity, such a sequence keeps the invariant after every call |
| PoolTraces.ApplyKeepsIssued | requestiumpool.py:25-95 | Any single acquire, release or destroy call, whatever it hands back, keeps the capacity and keeps every handle below the counter |
| PoolTraces.RunKeepsIssued | requestiumpool.py:25-95 | Any sequence of calls, disciplined or not, keeps the capacity and keeps every handle below the counter |
| PoolTraces.FromInitBuildsFresh | requestiumpool.py:42-44 | After any sequence of calls on the constructor's pool, even one that hands back foreign sessions, a session the factory builds is not already in the pool and is then in use |

## Left out

- Timing: the wall-clock wait of `acquire` (`datetime.now()` and
  `acquire_wait_timeout`) is not modelled, and the saturated branch returns
  `None`. The loop compares `timedelta.seconds`, which is the seconds field
  and not the total duration. That detail is not modelled either. A
  consequence: `.seconds` never exceeds 86399, so with
  `acquire_wait_timeout >= 86399` and a non-empty saturated pool the loop
  never ends in a single-threaded run, where the model returns `None`.
- Concurrency: the source has no locks or waiters. The model is sequential,
  so another thread's release during the wait is not represented.
- Foreign calls: building `requestium.Session`, `cookies.clear()`,
  `driver.delete_all_cookies()` and `driver.quit()` are represented only by
  their outcome. That is the fresh-id counter, `factoryRaises`, `Cleanup`,
  and the `quit` list of `Stop`. `requestium_args` is passed through
  unexamined and is not modelled.
- `driver.quit()` raising inside `destroy`: the lists have already changed
  by then, and inside `stop` such an error would abort the remaining walk.
  The model assumes `quit` returns.
- The `stopped` attribute: it is assigned once by the constructor and never
  read or updated, so it has no effect on behaviour.
- Idle-timeout eviction (`unused_destroy_timeout`): it is mentioned only in
  the constructor's docstring and is not implemented.
- `destroy`'s `oSession = None`: it rebinds a local name only, so it does
  nothing.
- `setup.py`: packaging metadata, with nothing to verify.
- `stop` in call sequences: `PoolTraces.Call` covers `acquire`, `release`
  and `destroy` only, because `Stop` is a method with loops; its own
  contract states that it keeps the invariant and leaves both lists empty.
