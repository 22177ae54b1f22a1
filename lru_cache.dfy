/**
 * The least-recently-used cache of shared values.
 *
 * Shared pointers become value ids: `contents` is the heap of shared
 * objects, `owners` the values some party outside the cache still holds a
 * strong reference to. List nodes get ids of their own so that the
 * iterators kept in m_iter_map can be told apart from the nodes still in
 * the list: after `pop_back` an iterator may name a node that is gone.
 */
module LruCache {

  type NodeId = nat
  type ValueId = nat

  datatype Option<T> = None | Some(value: T)

  /** No node occurs twice. */
  ghost predicate Distinct(s: seq<NodeId>) {
    forall i, j :: 0 <= i < j < |s| ==> s[i] != s[j]
  }

  /** s without the first occurrence of x: what `splice` leaves behind when it
      takes x's node out of the list. */
  function Remove(s: seq<NodeId>, x: NodeId): (r: seq<NodeId>)
    ensures x !in s ==> r == s
    ensures x in s ==> |r| == |s| - 1
  {
    if s == [] then []
    else if s[0] == x then s[1..]
    else [s[0]] + Remove(s[1..], x)
  }

  /** Removing the first occurrence of x, at index i, keeps every other node
      in its order. */
  lemma {:induction false} RemoveAt(s: seq<NodeId>, x: NodeId, i: nat)
    requires i < |s| && s[i] == x && x !in s[..i]
    ensures Remove(s, x) == s[..i] + s[i + 1..]
    decreases i
  {
    if i > 0 {
      assert s[0] == s[..i][0];
      assert s[1..][..i - 1] == s[1..i];
      RemoveAt(s[1..], x, i - 1);
      assert s[1..][i..] == s[i + 1..];
      assert [s[0]] + s[1..i] == s[..i];
    }
  }

  /** Moving a node of a duplicate-free list to its front keeps the list
      free of duplicates, keeps its length and keeps the same nodes. */
  lemma MoveToFront(s: seq<NodeId>, x: NodeId)
    requires Distinct(s) && x in s
    ensures |[x] + Remove(s, x)| == |s|
    ensures Distinct([x] + Remove(s, x))
    ensures forall y :: y in [x] + Remove(s, x) <==> y in s
  {
    var i :| 0 <= i < |s| && s[i] == x;
    assert x !in s[..i];
    RemoveAt(s, x, i);
    MoveIndexToFront(s, i);
  }

  /** pop_back leaves a duplicate-free list whose nodes were all in s. */
  lemma DropBack(s: seq<NodeId>)
    requires Distinct(s) && s != []
    ensures Distinct(s[..|s| - 1])
    ensures forall y :: y in s[..|s| - 1] ==> y in s
  {
  }

  /** push_front of a node not yet in a duplicate-free list. */
  lemma PushFront(s: seq<NodeId>, x: NodeId)
    requires Distinct(s) && x !in s
    ensures Distinct([x] + s)
  {
  }

  /** The index of each element of s after its i-th element is moved to the front. */
  function MovedIndex(i: nat, a: nat): nat {
    if a == 0 then i else if a <= i then a - 1 else a
  }

  lemma {:induction false} MoveIndexToFront(s: seq<NodeId>, i: nat)
    requires Distinct(s) && i < |s|
    ensures Distinct([s[i]] + (s[..i] + s[i + 1..]))
    ensures forall y :: y in [s[i]] + (s[..i] + s[i + 1..]) <==> y in s
  {
    var t := [s[i]] + (s[..i] + s[i + 1..]);
    assert |t| == |s|;
    assert forall a :: 0 <= a < |t| ==> t[a] == s[MovedIndex(i, a)];
    assert forall a, b :: 0 <= a < b < |t| ==> MovedIndex(i, a) != MovedIndex(i, b);
    forall y | y in s
      ensures y in t
    {
      var j :| 0 <= j < |s| && s[j] == y;
      if j < i {
        assert t[j + 1] == y;
      } else if i < j {
        assert t[j] == y;
      }
    }
  }

  /** How the list and the two maps hang together: the list holds each node
      once, every node in it has a value, node ids stay below `next`, both
      maps have the same keys, and each key's iterator names a node created
      for the value its weak reference points to. */
  ghost predicate Linked<K>(list: seq<NodeId>, payload: map<NodeId, ValueId>,
                            refs: map<K, ValueId>, iters: map<K, NodeId>, next: NodeId)
  {
    && Distinct(list)
    && (forall n :: n in list ==> n in payload)
    && (forall n :: n in payload ==> n < next)
    && refs.Keys == iters.Keys
    && (forall k :: k in iters ==> iters[k] in payload && payload[iters[k]] == refs[k])
  }

  /** pop_back keeps the structure. */
  lemma PopBackLinked<K>(list: seq<NodeId>, payload: map<NodeId, ValueId>,
                         refs: map<K, ValueId>, iters: map<K, NodeId>, next: NodeId)
    requires Linked(list, payload, refs, iters, next) && list != []
    ensures Linked(list[..|list| - 1], payload, refs, iters, next)
  {
    DropBack(list);
  }

  /** Pushing a fresh node for v and pointing key's entries at it keeps the structure. */
  lemma PushFrontLinked<K>(list: seq<NodeId>, payload: map<NodeId, ValueId>,
                           refs: map<K, ValueId>, iters: map<K, NodeId>, next: NodeId,
                           key: K, v: ValueId)
    requires Linked(list, payload, refs, iters, next)
    ensures Linked([next] + list, payload[next := v], refs[key := v], iters[key := next], next + 1)
  {
    assert next !in list;
    PushFront(list, next);
  }

  /** Splicing a node of the list to the front keeps the structure. */
  lemma SpliceLinked<K>(list: seq<NodeId>, payload: map<NodeId, ValueId>,
                        refs: map<K, ValueId>, iters: map<K, NodeId>, next: NodeId, n: NodeId)
    requires Linked(list, payload, refs, iters, next) && n in list
    ensures Linked([n] + Remove(list, n), payload, refs, iters, next)
  {
    MoveToFront(list, n);
  }

  /** Erasing a key from both maps keeps the structure. */
  lemma EraseLinked<K>(list: seq<NodeId>, payload: map<NodeId, ValueId>,
                       refs: map<K, ValueId>, iters: map<K, NodeId>, next: NodeId, key: K)
    requires Linked(list, payload, refs, iters, next)
    ensures Linked(list, payload, refs - {key}, iters - {key}, next)
  {
  }

  /**
   * lru<Key, Value>: `list` is m_list (front first), `payload` the value
   * each node's shared_ptr points to, `refs` is m_map (weak references),
   * `iters` is m_iter_map and `capacity` is m_size.
   */
  class Lru<K(==), V> {
    const capacity: nat
    var list: seq<NodeId>
    var payload: map<NodeId, ValueId>
    var refs: map<K, ValueId>
    var iters: map<K, NodeId>
    var owners: set<ValueId>
    var contents: map<ValueId, V>
    var nextNode: NodeId
    var nextValue: ValueId

    /** The list never outgrows the capacity, list and maps are linked up,
        and every value a node points to is a shared object. */
    ghost predicate Valid()
      reads this
    {
      && |list| <= capacity
      && Linked(list, payload, refs, iters, nextNode)
      && (forall n :: n in payload ==> payload[n] in contents)
      && (forall v :: v in contents ==> v < nextValue)
      && owners <= contents.Keys
    }

    /** Some node of the list holds a strong reference to v; an empty list
        holds none, and what a node holds is a live shared object. */
    predicate Held(v: ValueId): (r: bool)
      reads this
      ensures list == [] ==> !r
      ensures Valid() && r ==> v in contents
    {
      exists n :: n in list && n in payload && payload[n] == v
    }

    /** A weak reference to v can still be locked: someone outside the cache
        or a node of the list holds it. */
    predicate Alive(v: ValueId): (r: bool)
      reads this
      ensures v in owners ==> r
      ensures Valid() && r ==> v in contents
    {
      v in owners || Held(v)
    }

    /** What get(key) hands back. */
    ghost function Lookup(key: K): Option<ValueId>
      reads this
    {
      if key in refs && Alive(refs[key]) then Some(refs[key]) else None
    }

    /** get(key) is defined: a key whose value is alive still has its node in
        the list, so the stored iterator can be spliced. */
    predicate GetDefined(key: K)
      reads this
    {
      key in refs && Alive(refs[key]) ==> key in iters && iters[key] in list
    }

    /** Nobody outside the cache holds a value, and no value was given to two
        nodes: the state the by-value overloads of insert keep. */
    ghost predicate Exclusive()
      reads this
    {
      && owners == {}
      && forall m, n :: m in payload && n in payload && payload[m] == payload[n] ==> m == n
    }

    constructor (size: nat)
      ensures Valid() && Exclusive()
      ensures capacity == size && list == [] && refs == map[] && iters == map[]
      ensures payload == map[] && owners == {} && contents == map[]
      ensures nextNode == 0 && nextValue == 0
    {
      capacity := size;
      list := [];
      payload := map[];
      refs := map[];
      iters := map[];
      owners := {};
      contents := map[];
      nextNode := 0;
      nextValue := 0;
    }

    /** When only the by-value overloads are used, get is defined on every
        key, and a key resolves exactly when its own node is still in the list. */
    lemma ExclusiveLookup(key: K)
      requires Valid() && Exclusive()
      ensures GetDefined(key)
      ensures Lookup(key) == if key in iters && iters[key] in list then Some(refs[key]) else None
    {
      if key in refs && Alive(refs[key]) {
        var v := refs[key];
        assert Held(v);
        var n :| n in list && n in payload && payload[n] == v;
        assert payload[iters[key]] == v;
      }
      if key in iters && iters[key] in list {
        assert Held(refs[key]);
      }
    }

    /** insert(key, ptr): drop the back node if the list is full, push a node
        for v at the front and point both map entries at it. An older node
        for the same key stays where it is. */
    method Insert(key: K, v: ValueId)
      requires Valid() && 1 <= capacity && Alive(v)
      modifies this
      ensures Valid()
      ensures list == [old(nextNode)] + if |old(list)| >= capacity then old(list)[..|old(list)| - 1] else old(list)
      ensures payload == old(payload)[old(nextNode) := v]
      ensures refs == old(refs)[key := v] && iters == old(iters)[key := old(nextNode)]
      ensures owners == old(owners) && contents == old(contents)
      ensures nextNode == old(nextNode) + 1 && nextValue == old(nextValue)
      ensures Lookup(key) == Some(v) && GetDefined(key)
    {
      assert v in contents;
      ghost var refs0, iters0 := refs, iters;
      if |list| >= capacity {
        PopBackLinked(list, payload, refs, iters, nextNode);
        list := list[..|list| - 1];
      }
      var node := nextNode;
      PushFrontLinked(list, payload, refs, iters, node, key, v);
      list, payload := [node] + list, payload[node := v];
      refs, iters := refs[key := v], iters[key := node];
      nextNode := nextNode + 1;
      assert refs == refs0[key := v] && iters == iters0[key := node];
      assert Held(v) by {
        assert node in list;
      }
    }

    /** insert(key, value) and insert({key, value}): make a fresh shared value
        whose only other owner is a temporary, insert it and drop the temporary. */
    method InsertValue(key: K, x: V) returns (v: ValueId)
      requires Valid() && 1 <= capacity
      modifies this
      ensures Valid()
      ensures v == old(nextValue) && v !in old(contents) && contents == old(contents)[v := x]
      ensures list == [old(nextNode)] + if |old(list)| >= capacity then old(list)[..|old(list)| - 1] else old(list)
      ensures payload == old(payload)[old(nextNode) := v]
      ensures refs == old(refs)[key := v] && iters == old(iters)[key := old(nextNode)]
      ensures owners == old(owners)
      ensures nextNode == old(nextNode) + 1 && nextValue == old(nextValue) + 1
      ensures old(Exclusive()) ==> Exclusive()
      ensures Lookup(key) == Some(v)
    {
      v := nextValue;
      nextValue := nextValue + 1;
      contents := contents[v := x];
      owners := owners + {v};
      Insert(key, v);
      owners := owners - {v};
      assert list[0] in list && payload[list[0]] == v;
    }

    /** get(key): null for an unknown key; for a key whose value has expired,
        erase the key from both maps and return null; otherwise splice the
        key's node to the front and return the value. */
    method Get(key: K) returns (r: Option<ValueId>)
      requires Valid() && GetDefined(key)
      modifies this
      ensures Valid()
      ensures r == old(Lookup(key))
      ensures r.Some? ==> r.value in contents
      ensures r.None? ==> key !in refs && key !in iters
      ensures key !in old(refs) ==> list == old(list) && refs == old(refs) && iters == old(iters)
      ensures key in old(refs) && r.None? ==>
        list == old(list) && refs == old(refs) - {key} && iters == old(iters) - {key}
      ensures r.Some? ==>
        list == [old(iters)[key]] + Remove(old(list), old(iters)[key]) && refs == old(refs) && iters == old(iters)
      ensures |list| == |old(list)|
      ensures payload == old(payload) && owners == old(owners) && contents == old(contents)
      ensures nextNode == old(nextNode) && nextValue == old(nextValue)
      ensures old(Exclusive()) ==> Exclusive()
    {
      if key !in refs {
        return None;
      }
      var v := refs[key];
      if !Alive(v) {
        EraseLinked(list, payload, refs, iters, nextNode, key);
        refs, iters := refs - {key}, iters - {key};
        return None;
      }
      var n := iters[key];
      SpliceLinked(list, payload, refs, iters, nextNode, n);
      list := [n] + Remove(list, n);
      r := Some(v);
    }

    /** The caller keeps a copy of a shared pointer to v. */
    method Acquire(v: ValueId)
      requires Valid() && Alive(v)
      modifies this
      ensures Valid()
      ensures owners == old(owners) + {v}
      ensures list == old(list) && payload == old(payload) && refs == old(refs) && iters == old(iters)
      ensures contents == old(contents) && nextNode == old(nextNode) && nextValue == old(nextValue)
    {
      assert v in contents by {
        if v !in owners {
          var m :| m in list && m in payload && payload[m] == v;
        }
      }
      owners := owners + {v};
    }

    /** Every copy of a shared pointer to v held outside the cache is dropped. */
    method Release(v: ValueId)
      requires Valid()
      modifies this
      ensures Valid()
      ensures owners == old(owners) - {v}
      ensures list == old(list) && payload == old(payload) && refs == old(refs) && iters == old(iters)
      ensures contents == old(contents) && nextNode == old(nextNode) && nextValue == old(nextValue)
    {
      owners := owners - {v};
    }
  }
}
