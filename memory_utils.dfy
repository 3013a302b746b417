/** The bounded least-recently-used node store of memory_utils.hpp.

    The C++ `LruMap` keeps a `std::list` of (key, value) pairs whose front is
    the most recently touched entry, and an `unordered_map` from each key to
    its list position.  Here the list is the field `order` (the keys, front
    first) and the map together with the values held in the list nodes is the
    field `values`.  The object invariant `Valid` is the list/map agreement
    the C++ code maintains by hand. */
module MemoryUtils {
  import opened Wrappers

  /** No key occurs twice. */
  predicate Distinct<K(==)>(s: seq<K>) {
    forall i, j :: 0 <= i < j < |s| ==> s[i] != s[j]
  }

  /** `s` with `k` taken out, the other keys in their order: what a splice
      or an erase leaves of the recency list. */
  function Remove<K(==,!new)>(s: seq<K>, k: K): (r: seq<K>)
    ensures forall x :: x in r <==> x in s && x != k
    ensures |r| <= |s|
    ensures k !in s ==> r == s
    ensures Distinct(s) ==> Distinct(r)
    ensures Distinct(s) && k in s ==> |r| == |s| - 1
  {
    if s == [] then []
    else
      DistinctTail(s);
      if s[0] == k then Remove(s[1..], k)
      else [s[0]] + Remove(s[1..], k)
  }

  /** The tail of a list without duplicates has none, and misses the head. */
  lemma DistinctTail<K>(s: seq<K>)
    requires s != []
    ensures Distinct(s) ==> Distinct(s[1..]) && s[0] !in s[1..]
  {
    if Distinct(s) {
      forall i | 0 <= i < |s| - 1 ensures s[1..][i] != s[0] {
        assert s[1..][i] == s[i + 1];
      }
    }
  }

  /** Touching the most recent key leaves the recency list as it is, so a
      second `find` of the same key changes nothing. */
  lemma TouchFrontKeepsOrder<K(!new)>(s: seq<K>, k: K)
    requires Distinct(s) && s != [] && s[0] == k
    ensures MoveToFront(s, k) == s
  {
    DistinctTail(s);
    assert Remove(s, k) == Remove(s[1..], k) == s[1..];
  }

  lemma {:induction false} RemoveAppend<K(!new)>(a: seq<K>, b: seq<K>, k: K)
    ensures Remove(a + b, k) == Remove(a, k) + Remove(b, k)
  {
    if a == [] {
      assert a + b == b;
    } else {
      assert (a + b)[1..] == a[1..] + b;
      RemoveAppend(a[1..], b, k);
    }
  }

  /** The recency list after `k` is touched: `k` moves to the front. */
  function MoveToFront<K(==,!new)>(s: seq<K>, k: K): (r: seq<K>)
    ensures Distinct(s) ==> Distinct(r)
    ensures forall x :: x in r <==> x in s || x == k
    ensures Distinct(s) && k in s ==> |r| == |s|
  {
    [k] + Remove(s, k)
  }

  /** The first `n` keys of `s`, or all of them when there are fewer. */
  function Truncate<K>(s: seq<K>, n: nat): seq<K> {
    if |s| <= n then s else s[..n]
  }

  /** What `operator[]` does to the recency list of a store of capacity
      `cap`: a present key moves to the front; an absent key goes to the
      front, after the back entry has been dropped if the store is full. */
  function LruStep<K(==,!new)>(order: seq<K>, k: K, cap: nat): seq<K>
    requires cap >= 1
  {
    if k in order then MoveToFront(order, k)
    else if |order| == cap then [k] + order[..cap - 1]
    else [k] + order
  }

  /** A key within `n` places of the front is within `n + 1` places of the
      front after another key has been touched. */
  lemma {:induction false} TouchKeepsNear<K(!new)>(s: seq<K>, k: K, x: K, n: nat)
    requires x in Truncate(s, n) && x != k
    ensures x in Truncate(MoveToFront(s, k), n + 1)
  {
    var p := Truncate(s, n);
    assert s == p + s[|p|..];
    RemoveAppend(p, s[|p|..], k);
    var r := Remove(p, k);
    var t := MoveToFront(s, k);
    assert t == ([k] + r) + Remove(s[|p|..], k);
    assert x in r;
    var i :| 0 <= i < |r| && r[i] == x;
    assert |r| <= n;
    assert t[i + 1] == x;
  }

  /** A key within `n` places of the front, with `n` below the capacity,
      is within `n + 1` places after an absent key has been inserted, even
      when the insertion evicts the back entry. */
  lemma InsertKeepsNear<K(!new)>(s: seq<K>, k: K, x: K, n: nat, cap: nat)
    requires 1 <= cap && n < cap && k !in s && x in Truncate(s, n)
    ensures x in Truncate(LruStep(s, k, cap), n + 1)
  {
    var i :| 0 <= i < |Truncate(s, n)| && Truncate(s, n)[i] == x;
    assert s[i] == x;
    assert LruStep(s, k, cap)[i + 1] == x;
  }

  /** The recency order an unbounded store would have after the accesses
      of `trace`, most recent first. */
  function AccessOrder<K(==,!new)>(trace: seq<K>): (r: seq<K>)
    ensures Distinct(r)
    ensures forall x :: x in r <==> x in trace
  {
    if trace == [] then []
    else MoveToFront(AccessOrder(trace[..|trace| - 1]), trace[|trace| - 1])
  }

  /** The recency list of a store of capacity `cap` that starts empty and
      receives `operator[]` for each key of `trace` in turn. */
  function Replay<K(==,!new)>(trace: seq<K>, cap: nat): seq<K>
    requires cap >= 1
  {
    if trace == [] then []
    else LruStep(Replay(trace[..|trace| - 1], cap), trace[|trace| - 1], cap)
  }

  /** One access commutes with cutting the unbounded order to `cap` keys. */
  lemma LruStepTruncates<K(!new)>(full: seq<K>, k: K, cap: nat)
    requires cap >= 1 && Distinct(full)
    ensures LruStep(Truncate(full, cap), k, cap) == Truncate(MoveToFront(full, k), cap)
  {
    var p := Truncate(full, cap);
    if k in p {
      TruncateKeepsHit(full, k, cap);
    } else if k in full {
      TruncateEvicts(full, k, cap);
    } else if |full| >= cap {
      assert ([k] + full)[..cap] == [k] + full[..cap - 1];
    }
  }

  /** A key among the first `cap` moves to the front of both orders. */
  lemma TruncateKeepsHit<K(!new)>(full: seq<K>, k: K, cap: nat)
    requires cap >= 1 && Distinct(full) && k in Truncate(full, cap)
    ensures MoveToFront(Truncate(full, cap), k) == Truncate(MoveToFront(full, k), cap)
  {
    var p := Truncate(full, cap);
    var rest := full[|p|..];
    assert full == p + rest;
    RemoveAppend(p, rest, k);
    assert k !in rest by {
      forall i | 0 <= i < |rest| ensures rest[i] != k {
        var j :| 0 <= j < |p| && p[j] == k;
        assert full[j] == k && full[|p| + i] == rest[i];
      }
    }
    assert Distinct(p) by {
      forall i, j | 0 <= i < j < |p| ensures p[i] != p[j] {
        assert p[i] == full[i] && p[j] == full[j];
      }
    }
    assert |Remove(p, k)| == |p| - 1;
  }

  /** A key beyond the first `cap` comes back at the front and pushes the
      last retained key out. */
  lemma TruncateEvicts<K(!new)>(full: seq<K>, k: K, cap: nat)
    requires cap >= 1 && Distinct(full) && k !in Truncate(full, cap) && k in full
    ensures |Truncate(full, cap)| == cap
    ensures [k] + Truncate(full, cap)[..cap - 1] == Truncate(MoveToFront(full, k), cap)
  {
    assert |full| > cap;
    assert full[..cap - 1] == full[..cap][..cap - 1];
    RemoveKeepsPrefix(full, k, cap - 1);
    var moved := [k] + Remove(full, k);
    assert moved[..cap] == [k] + Remove(full, k)[..cap - 1];
  }

  /** Taking out a key that is not among the first `n` keeps those `n`. */
  lemma {:induction false} RemoveKeepsPrefix<K(!new)>(s: seq<K>, k: K, n: nat)
    requires n <= |s| && k !in s[..n]
    ensures |Remove(s, k)| >= n && Remove(s, k)[..n] == s[..n]
  {
    if n > 0 {
      assert s[0] == s[..n][0];
      assert s[1..][..n - 1] == s[..n][1..];
      RemoveKeepsPrefix(s[1..], k, n - 1);
      assert Remove(s, k) == [s[0]] + Remove(s[1..], k);
    }
  }

  /** The retained keys are exactly the `cap` most recently accessed
      distinct keys, in order of recency. */
  lemma {:induction false} ReplayRetainsMostRecent<K(!new)>(trace: seq<K>, cap: nat)
    requires cap >= 1
    ensures Replay(trace, cap) == Truncate(AccessOrder(trace), cap)
  {
    if trace != [] {
      var init := trace[..|trace| - 1];
      ReplayRetainsMostRecent(init, cap);
      LruStepTruncates(AccessOrder(init), trace[|trace| - 1], cap);
    }
  }

  lemma {:induction false} DistinctCardinality<K>(s: seq<K>)
    requires Distinct(s)
    ensures |set x | x in s| == |s|
  {
    if s != [] {
      var t := s[1..];
      assert Distinct(t) by {
        forall i, j | 0 <= i < j < |t| ensures t[i] != t[j] {
          assert t[i] == s[i + 1] && t[j] == s[j + 1];
        }
      }
      DistinctCardinality(t);
      assert s[0] !in t by {
        forall i | 0 <= i < |t| ensures t[i] != s[0] {
          assert t[i] == s[i + 1];
        }
      }
      assert (set x | x in s) == (set x | x in t) + {s[0]};
    }
  }

  class LruMap<K(==,!new), V> {
    /** `m_capacity`, fixed at construction. */
    const capacity: nat
    /** The value-initialised `T()` that a new entry receives. */
    const blank: V
    /** Keys of `m_list`, from `begin()` (most recent) to `end()`. */
    var order: seq<K>
    /** The index and the values stored in the list nodes. */
    var values: map<K, V>

    ghost predicate Valid()
      reads this
    {
      && Distinct(order)
      && (forall k :: k in values <==> k in order)
      && |order| <= capacity
    }

    constructor (capacity: nat, blank: V)
      ensures Valid()
      ensures this.capacity == capacity && this.blank == blank
      ensures order == [] && values == map[]
    {
      this.capacity := capacity;
      this.blank := blank;
      order := [];
      values := map[];
    }

    /** `size()`: the list length, which is also the number of indexed keys. */
    function Size(): (n: nat)
      reads this
      requires Valid()
      ensures n == |values| && n <= capacity
    {
      assert values.Keys == set x | x in order;
      DistinctCardinality(order);
      |order|
    }

    /** `capacity()`. */
    function Capacity(): (n: nat)
      reads this
      ensures n == capacity
    {
      capacity
    }

    /** `find`: an absent key leaves everything as it was; a present key is
        touched (moved to the front) and its value returned. */
    method Find(key: K) returns (r: Option<V>)
      requires Valid()
      modifies this
      ensures Valid()
      ensures values == old(values)
      ensures key !in old(values) ==> r == None && order == old(order)
      ensures key in old(values) ==> r == Some(old(values)[key]) && order == MoveToFront(old(order), key)
    {
      if key !in values {
        return None;
      }
      Touch(key);
      r := Some(values[key]);
    }

    /** `operator[]`: returns the value of a present key without inserting;
        otherwise drops the least recent entry when full and inserts the key
        at the front with the blank value.  The C++ code pops from an empty
        list when the capacity is 0, hence the precondition. */
    method GetOrCreate(key: K) returns (v: V)
      requires Valid() && capacity >= 1
      modifies this
      ensures Valid()
      ensures order == LruStep(old(order), key, capacity)
      ensures key in old(values) ==> v == old(values)[key] && values == old(values)
      ensures key !in old(values) && |old(order)| < capacity ==>
                v == blank && values == old(values)[key := blank]
      ensures key !in old(values) && |old(order)| == capacity ==>
                v == blank && values == (old(values) - {old(order)[capacity - 1]})[key := blank]
    {
      var found := Find(key);
      if found.Some? {
        return found.value;
      }
      if |order| == capacity {
        PopLeastRecent();
      }
      AddElement(key);
      v := values[key];
    }

    /** Write through the reference that `find` or `operator[]` returned:
        the value changes, the recency order does not. */
    method WriteBack(key: K, v: V)
      requires Valid() && key in values
      modifies this
      ensures Valid()
      ensures order == old(order) && values == old(values)[key := v]
    {
      values := values[key := v];
    }

    /** `clear`: empties list and index; the capacity is a constant. */
    method Clear()
      requires Valid()
      modifies this
      ensures Valid()
      ensures order == [] && values == map[]
    {
      order := [];
      values := map[];
    }

    /** `touch`: splice the key's node to the front of the list. */
    method Touch(key: K)
      requires Valid() && key in values
      modifies this
      ensures Valid()
      ensures order == MoveToFront(old(order), key) && values == old(values)
    {
      order := [key] + Remove(order, key);
    }

    /** `pop_least_recent`: erase the back key from the index and the list. */
    method PopLeastRecent()
      requires Valid() && order != []
      modifies this
      ensures Valid()
      ensures order == old(order)[..|old(order)| - 1]
      ensures values == old(values) - {old(order)[|old(order)| - 1]}
    {
      var last := order[|order| - 1];
      values := values - {last};
      order := order[..|order| - 1];
    }

    /** `add_element`: emplace the key at the front with the blank value. */
    method AddElement(key: K)
      requires Valid() && key !in values && |order| < capacity
      modifies this
      ensures Valid()
      ensures order == [key] + old(order) && values == old(values)[key := blank]
    {
      order := [key] + order;
      values := values[key := blank];
    }
  }
}
