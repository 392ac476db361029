/**
 * The majority filter: of a group's tally, keep every element whose count
 * is above half of the largest count, `[i for i, c in insts.items() if c > M // 2]`.
 */
module Majority {
  import opened Dicts

  /** max of the counts of keys (0 for no keys, a case the source never reaches). */
  function MaxOver<K>(keys: seq<K>, c: Counter<K>): nat {
    if keys == [] then 0
    else
      var rest := MaxOver(keys[1..], c);
      if Get<K, nat>(c, keys[0], 0) >= rest then Get<K, nat>(c, keys[0], 0) else rest
  }

  /** MaxOver bounds every count of keys, and some key attains it. */
  lemma {:induction false} MaxOverIsMax<K>(keys: seq<K>, c: Counter<K>)
    ensures forall k :: k in keys ==> Get<K, nat>(c, k, 0) <= MaxOver(keys, c)
    ensures keys != [] ==> exists k :: k in keys && Get(c, k, 0) == MaxOver(keys, c)
  {
    if keys != [] {
      MaxOverIsMax(keys[1..], c);
      assert keys == [keys[0]] + keys[1..];
      if Get(c, keys[0], 0) < MaxOver(keys[1..], c) {
        var w :| w in keys[1..] && Get(c, w, 0) == MaxOver(keys[1..], c);
        assert w in keys;
      } else {
        assert keys[0] in keys;
      }
    }
  }

  /** M = max(insts.values()). */
  function MaxCount<K>(c: Counter<K>): nat {
    MaxOver(c.keys, c)
  }

  /** The keys, in order, whose count is above the bar. */
  function Above<K>(keys: seq<K>, c: Counter<K>, bar: nat): seq<K> {
    if keys == [] then []
    else (if Get(c, keys[0], 0) > bar then [keys[0]] else []) + Above(keys[1..], c, bar)
  }

  /** Above keeps exactly the keys over the bar, and duplicates none. */
  lemma {:induction false} AboveMembers<K>(keys: seq<K>, c: Counter<K>, bar: nat)
    ensures forall k :: k in Above(keys, c, bar) <==> k in keys && Get(c, k, 0) > bar
    ensures Distinct(keys) ==> Distinct(Above(keys, c, bar))
  {
    if keys != [] {
      AboveMembers(keys[1..], c, bar);
      assert keys == [keys[0]] + keys[1..];
    }
  }

  /**
   * Above works key by key: the keys kept from a + b are those kept from a
   * followed by those kept from b, so the comprehension keeps the tally's order.
   */
  lemma {:induction false} AboveKeepsOrder<K>(a: seq<K>, b: seq<K>, c: Counter<K>, bar: nat)
    ensures Above(a + b, c, bar) == Above(a, c, bar) + Above(b, c, bar)
  {
    if a != [] {
      assert (a + b)[0] == a[0] && (a + b)[1..] == a[1..] + b;
      AboveKeepsOrder(a[1..], b, c, bar);
    } else {
      assert a + b == b;
    }
  }

  /** The elements kept for a group, in the tally's order. */
  function Kept<K>(c: Counter<K>): seq<K> {
    Above(c.keys, c, MaxCount(c) / 2)
  }

  /** The kept elements are distinct and are exactly those counted above M // 2. */
  lemma KeptMembers<K>(c: Counter<K>)
    requires Valid(c)
    ensures Distinct(Kept(c))
    ensures forall k :: k in Kept(c) <==> k in c.vals && c.vals[k] > MaxCount(c) / 2
  {
    AboveMembers(c.keys, c, MaxCount(c) / 2);
  }

  /** M is the largest count of the tally, and some element reaches it. */
  lemma MaxCountIsMax<K>(c: Counter<K>)
    requires Valid(c) && c.keys != []
    ensures forall k :: k in c.vals ==> c.vals[k] <= MaxCount(c)
    ensures exists k :: k in c.vals && c.vals[k] == MaxCount(c)
  {
    MaxOverIsMax(c.keys, c);
  }

  /** For integers, c > M // 2 is the same as 2 * c > M. */
  lemma KeptIsStrictHalf<K>(c: Counter<K>)
    requires Valid(c)
    ensures forall k :: k in Kept(c) <==> k in c.vals && 2 * c.vals[k] > MaxCount(c)
  {
    KeptMembers(c);
    var m := MaxCount(c);
    forall k | k in c.vals
      ensures c.vals[k] > m / 2 <==> 2 * c.vals[k] > m
    {
      var q := m / 2;
      assert m == 2 * q || m == 2 * q + 1;
    }
  }

  /**
   * When every count is positive, the kept list is non-empty and holds
   * every element that reaches the maximum: ties at the top are all kept.
   */
  lemma KeptHasAllWinners<K>(c: Counter<K>)
    requires Valid(c) && c.keys != []
    requires forall k :: k in c.vals ==> c.vals[k] >= 1
    ensures forall k :: k in c.vals && c.vals[k] == MaxCount(c) ==> k in Kept(c)
    ensures Kept(c) != []
  {
    KeptMembers(c);
    MaxCountIsMax(c);
    var w :| w in c.vals && c.vals[w] == MaxCount(c);
    assert w in Kept(c);
  }
}
