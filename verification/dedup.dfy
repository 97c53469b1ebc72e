/**
 The dedup gate `is_new_message`: a FIFO of the last ten message ids, where
 the membership test doubles as the insertion.
 */
module Dedup {

  /** `DEDUP_CACHE_SIZE`, the `maxlen` of the deque. */
  const Capacity: nat := 10

  /** The deque, oldest id first. */
  type Cache = q: seq<int> | |q| <= Capacity witness []

  datatype Admission = Admission(isNew: bool, cache: Cache)

  /** The newest `n` elements of `s`. */
  function LastN(s: seq<int>, n: nat): (r: seq<int>)
    ensures |r| == if |s| <= n then |s| else n
    ensures r == s[|s| - |r|..]
  {
    if |s| <= n then s else s[|s| - n..]
  }

  /**
   `is_new_message`: an id already held is refused and the cache is left
   alone (a hit does not move it); a new id is appended and only the newest
   `Capacity` ids are kept, so the oldest is evicted first.
   */
  function Offer(q: Cache, id: int): (r: Admission)
    ensures r.isNew <==> id !in q
    ensures !r.isNew ==> r.cache == q
    ensures r.isNew ==> r.cache == LastN(q + [id], Capacity)
  {
    if id in q then Admission(false, q)
    else if |q| < Capacity then Admission(true, q + [id])
    else Admission(true, q[1..] + [id])
  }

  /** The cache after offering `ids` in order. */
  function OfferAll(q: Cache, ids: seq<int>): Cache
    decreases |ids|
  {
    if ids == [] then q else OfferAll(Offer(q, ids[0]).cache, ids[1..])
  }

  ghost predicate Distinct(ids: seq<int>)
  {
    forall i, j :: 0 <= i < j < |ids| ==> ids[i] != ids[j]
  }

  /** Dropping a prefix that leaves at least `n` elements does not change the newest `n`. */
  lemma LastNOfSuffix(s: seq<int>, k: nat, n: nat)
    requires k <= |s| && n <= |s| - k
    ensures LastN(s[k..], n) == LastN(s, n)
  {
    var t := s[k..];
    if |s| > n {
      assert LastN(s, n) == s[|s| - n..];
      assert LastN(t, n) == t[|t| - n..];
      assert t[|t| - n..] == s[|s| - n..];
    }
  }

  lemma LastNOfLastN(a: seq<int>, b: seq<int>, n: nat)
    ensures LastN(LastN(a, n) + b, n) == LastN(a + b, n)
  {
    if |a| > n {
      var k := |a| - n;
      assert LastN(a, n) == a[k..];
      assert a[k..] + b == (a + b)[k..];
      LastNOfSuffix(a + b, k, n);
    }
  }

  lemma LastNMembers(s: seq<int>, n: nat)
    ensures forall y :: y in LastN(s, n) ==> y in s
  {
    var r := LastN(s, n);
    forall y | y in r
      ensures y in s
    {
      var k :| 0 <= k < |r| && r[k] == y;
      assert s[|s| - |r| + k] == y;
    }
  }

  /** Offering ids none of which the cache holds keeps exactly the newest `Capacity` of them all. */
  lemma {:induction false} OfferFreshIds(q: Cache, ids: seq<int>)
    requires Distinct(ids)
    requires forall i :: 0 <= i < |ids| ==> ids[i] !in q
    ensures OfferAll(q, ids) == LastN(q + ids, Capacity)
    decreases |ids|
  {
    if ids == [] {
      assert q + ids == q;
    } else {
      var x := ids[0];
      var rest := ids[1..];
      var q' := Offer(q, x).cache;
      assert q' == LastN(q + [x], Capacity) by {
        assert x !in q;
      }
      assert forall i :: 0 <= i < |rest| ==> rest[i] !in q' by {
        LastNMembers(q + [x], Capacity);
        forall i | 0 <= i < |rest|
          ensures rest[i] !in q'
        {
          assert rest[i] == ids[i + 1];
          assert rest[i] !in q + [x];
        }
      }
      assert Distinct(rest) by {
        forall i, j | 0 <= i < j < |rest|
          ensures rest[i] != rest[j]
        {
          assert rest[i] == ids[i + 1] && rest[j] == ids[j + 1];
        }
      }
      assert OfferAll(q', rest) == LastN(q' + rest, Capacity) by {
        OfferFreshIds(q', rest);
      }
      assert LastN(q' + rest, Capacity) == LastN(q + ids, Capacity) by {
        LastNOfLastN(q + [x], rest, Capacity);
        assert q + [x] + rest == q + ids;
      }
    }
  }

  lemma ElevenKeepNewestTen(ids: seq<int>)
    requires |ids| == Capacity + 1
    requires Distinct(ids)
    ensures OfferAll([], ids) == ids[1..]
  {
    assert OfferAll([], ids) == LastN([] + ids, Capacity) by {
      OfferFreshIds([], ids);
    }
    assert [] + ids == ids;
    assert LastN(ids, Capacity) == ids[1..] by {
      assert |ids| - Capacity == 1;
    }
  }

  lemma FirstOfElevenIsForgotten(ids: seq<int>)
    requires |ids| == Capacity + 1
    requires Distinct(ids)
    ensures ids[0] !in OfferAll([], ids)
    ensures Offer(OfferAll([], ids), ids[0]).isNew
  {
    ElevenKeepNewestTen(ids);
    var kept := ids[1..];
    assert ids[0] !in kept by {
      forall i | 0 <= i < |kept|
        ensures kept[i] != ids[0]
      {
        assert kept[i] == ids[i + 1];
      }
    }
  }
}
