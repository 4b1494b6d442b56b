/** Python list operations used by the pool, stated over sequences:
    `pop()` takes the last element, `append` adds at the end, and a
    membership test followed by `remove` deletes the first occurrence. */
module Lists {

  /** No element occurs more than once in `s`. */
  predicate NoDuplicates<T(==)>(s: seq<T>) {
    forall x | x in s :: multiset(s)[x] == 1
  }

  /** `s` with its first occurrence of `x` deleted, or `s` itself when `x`
      does not occur: the guarded `if x in s: s.remove(x)` of the pool. */
  function RemoveFirst<T(==)>(s: seq<T>, x: T): (r: seq<T>)
    ensures x in s ==> |r| == |s| - 1
    ensures x !in s ==> r == s
    decreases |s|
  {
    if |s| == 0 then s
    else
      assert s == [s[0]] + s[1..];
      if s[0] == x then s[1..]
    else [s[0]] + RemoveFirst(s[1..], x)
  }

  /** `RemoveFirst` takes away one copy of `x` and nothing else. */
  lemma {:induction false} RemoveFirstCounts<T>(s: seq<T>, x: T)
    ensures multiset(RemoveFirst(s, x)) == multiset(s) - multiset{x}
    decreases |s|
  {
    if |s| > 0 {
      assert s == [s[0]] + s[1..];
      if s[0] != x {
        RemoveFirstCounts(s[1..], x);
      }
    }
  }

  /** The position of the first occurrence of `x` in `s`. */
  function FirstIndex<T(==)>(s: seq<T>, x: T): (i: nat)
    requires x in s
    ensures i < |s| && s[i] == x
    ensures x !in s[..i]
    decreases |s|
  {
    if s[0] == x then 0
    else
      var j := FirstIndex(s[1..], x);
      assert s[..j + 1] == [s[0]] + s[1..][..j];
      j + 1
  }

  /** The elements of `s` from last to first: the order of Python's `reversed`. */
  function Reversed<T>(s: seq<T>): (r: seq<T>)
    ensures |r| == |s|
    ensures forall k :: 0 <= k < |s| ==> r[k] == s[|s| - 1 - k]
    ensures multiset(r) == multiset(s)
    decreases |s|
  {
    if |s| == 0 then []
    else
      assert s == [s[0]] + s[1..];
      Reversed(s[1..]) + [s[0]]
  }

  /** Removing the first occurrence of `x` splices out exactly that position:
      every other element keeps its relative order. */
  lemma {:induction false} RemoveFirstSplices<T>(s: seq<T>, x: T)
    requires x in s
    ensures RemoveFirst(s, x) == s[..FirstIndex(s, x)] + s[FirstIndex(s, x) + 1..]
    decreases |s|
  {
    if s[0] != x {
      var j := FirstIndex(s[1..], x);
      assert FirstIndex(s, x) == j + 1;
      calc {
        RemoveFirst(s, x);
      ==
        [s[0]] + RemoveFirst(s[1..], x);
      ==  { RemoveFirstSplices(s[1..], x); }
        [s[0]] + (s[1..][..j] + s[1..][j + 1..]);
      ==  { assert s[..j + 1] == [s[0]] + s[1..][..j];
            assert s[j + 2..] == s[1..][j + 1..]; }
        s[..j + 1] + s[j + 2..];
      }
    }
  }

  /** Two distinct positions holding the same value give it a count of at least two. */
  lemma {:induction false} TwoPositionsCount<T>(s: seq<T>, i: nat, j: nat)
    requires i < j < |s| && s[i] == s[j]
    ensures multiset(s)[s[i]] >= 2
  {
    assert s == s[..j] + [s[j]] + s[j + 1..];
    assert s[i] in s[..j];
  }

  /** Without duplicates, the first occurrence of the last element is the last position. */
  lemma RemoveLastOfNoDuplicates<T>(s: seq<T>)
    requires |s| > 0 && NoDuplicates(s)
    ensures RemoveFirst(s, s[|s| - 1]) == s[..|s| - 1]
  {
    var x := s[|s| - 1];
    var i := FirstIndex(s, x);
    if i < |s| - 1 {
      TwoPositionsCount(s, i, |s| - 1);
    }
    RemoveFirstSplices(s, x);
  }

  /** Index form of `NoDuplicates`: no two positions hold the same value. */
  lemma {:induction false} NoDuplicatesIndices<T>(s: seq<T>)
    ensures NoDuplicates(s) <==> forall i, j :: 0 <= i < j < |s| ==> s[i] != s[j]
    decreases |s|
  {
    if forall i, j :: 0 <= i < j < |s| ==> s[i] != s[j] {
      if |s| > 0 {
        NoDuplicatesIndices(s[1..]);
        assert forall i, j :: 0 <= i < j < |s[1..]| ==> s[1..][i] != s[1..][j] by {
          forall i, j | 0 <= i < j < |s[1..]|
            ensures s[1..][i] != s[1..][j]
          {
            assert s[1..][i] == s[i + 1] && s[1..][j] == s[j + 1];
          }
        }
        assert s == [s[0]] + s[1..];
        forall k | 0 <= k < |s[1..]|
          ensures s[1..][k] != s[0]
        {
          assert s[1..][k] == s[k + 1];
        }
      }
    } else {
      var i, j :| 0 <= i < j < |s| && s[i] == s[j];
      TwoPositionsCount(s, i, j);
    }
  }

  /** Appending keeps a sequence duplicate-free exactly when the new element is new. */
  lemma NoDuplicatesAppend<T>(s: seq<T>, x: T)
    ensures NoDuplicates(s + [x]) <==> NoDuplicates(s) && x !in s
  {
    assert multiset(s + [x]) == multiset(s) + multiset{x};
    if NoDuplicates(s + [x]) {
      forall y | y in s ensures multiset(s)[y] == 1 {
        assert y in s + [x];
      }
      assert x in s + [x];
    }
  }

  /** A concatenation is duplicate-free exactly when both parts are and they share nothing. */
  lemma NoDuplicatesConcat<T>(a: seq<T>, b: seq<T>)
    ensures NoDuplicates(a + b) <==>
      NoDuplicates(a) && NoDuplicates(b) && forall x :: x in a ==> x !in b
  {
    assert multiset(a + b) == multiset(a) + multiset(b);
    if NoDuplicates(a + b) {
      forall y | y in a ensures multiset(a)[y] == 1 && y !in b {
        assert y in a + b;
      }
      forall y | y in b ensures multiset(b)[y] == 1 {
        assert y in a + b;
      }
    }
    if NoDuplicates(a) && NoDuplicates(b) && forall x :: x in a ==> x !in b {
      forall y | y in a + b ensures multiset(a + b)[y] == 1 {
        if y in a {
          assert y !in b;
        }
      }
    }
  }

  /** A prefix of a duplicate-free sequence is duplicate-free. */
  lemma NoDuplicatesPrefix<T>(s: seq<T>, k: nat)
    requires k <= |s| && NoDuplicates(s)
    ensures NoDuplicates(s[..k])
  {
    assert s == s[..k] + s[k..];
    NoDuplicatesConcat(s[..k], s[k..]);
  }

  /** Taking fewer copies of anything keeps a sequence duplicate-free. */
  lemma NoDuplicatesSub<T>(a: seq<T>, b: seq<T>)
    requires multiset(a) <= multiset(b) && NoDuplicates(b)
    ensures NoDuplicates(a)
  {
    forall x | x in a ensures multiset(a)[x] == 1 {
      assert x in multiset(b);
    }
  }

  /** Reversing a suffix one element longer puts that element last. */
  lemma ReversedStep<T>(s: seq<T>, i: nat)
    requires i < |s|
    ensures Reversed(s[i..]) == Reversed(s[i + 1..]) + [s[i]]
  {
    assert s[i..][1..] == s[i + 1..];
  }

  /** In a duplicate-free sequence every value occurs at most once. */
  lemma NoDuplicatesCount<T>(s: seq<T>, x: T)
    requires NoDuplicates(s)
    ensures multiset(s)[x] <= 1
  {
    if x in s {
      assert multiset(s)[x] == 1;
    }
  }

  /** Removing an element just appended, which did not occur before, gives
      back the original sequence. */
  lemma {:induction false} RemoveFirstAppended<T>(s: seq<T>, x: T)
    requires x !in s
    ensures RemoveFirst(s + [x], x) == s
    decreases |s|
  {
    if |s| > 0 {
      var t := s + [x];
      calc {
        RemoveFirst(t, x);
      ==  { assert t[0] == s[0] != x; }
        [s[0]] + RemoveFirst(t[1..], x);
      ==  { assert t[1..] == s[1..] + [x]; RemoveFirstAppended(s[1..], x); }
        [s[0]] + s[1..];
      ==
        s;
      }
    } else {
      assert s + [x] == [x];
    }
  }

  /** Taking one `x` from each of two multisets that hold at most one `x`
      between them takes exactly that one away from their sum. */
  lemma TakeFromBoth<T>(m: multiset<T>, n: multiset<T>, x: T)
    requires (m + n)[x] <= 1
    ensures (m - multiset{x}) + (n - multiset{x}) == (m + n) - multiset{x}
  {
    assert m[x] == 0 || n[x] == 0;
  }

  /** Removing a value that occurs at most once across two sequences, from
      both, takes away that occurrence and nothing else. */
  lemma RemoveFromBoth<T>(a: seq<T>, b: seq<T>, x: T)
    requires multiset(a + b)[x] <= 1
    ensures multiset(RemoveFirst(a, x) + RemoveFirst(b, x)) == multiset(a + b) - multiset{x}
  {
    RemoveFirstCounts(a, x);
    RemoveFirstCounts(b, x);
    calc {
      multiset(RemoveFirst(a, x) + RemoveFirst(b, x));
      multiset(RemoveFirst(a, x)) + multiset(RemoveFirst(b, x));
      (multiset(a) - multiset{x}) + (multiset(b) - multiset{x});
      { TakeFromBoth(multiset(a), multiset(b), x); }
      (multiset(a) + multiset(b)) - multiset{x};
      multiset(a + b) - multiset{x};
    }
  }


}
