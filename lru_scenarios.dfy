/** The scenarios of the cache's test suite, on lru<int, std::string>(2). */
module LruScenarios {
  import opened LruCache

  /** The string a pointer returned by get points to, or None for null. */
  function Deref(c: Lru<int, string>, r: Option<ValueId>): Option<string>
    reads c
    requires r.Some? ==> r.value in c.contents
  {
    if r.Some? then Some(c.contents[r.value]) else None
  }

  /** get on the cache, for a cache filled only through the by-value inserts. */
  method GetString(c: Lru<int, string>, key: int) returns (s: Option<string>)
    requires c.Valid() && c.Exclusive()
    modifies c
    ensures c.Valid() && c.Exclusive()
    ensures key in old(c.iters) && old(c.iters)[key] in old(c.list) ==>
      && old(c.refs)[key] in c.contents && s == Some(c.contents[old(c.refs)[key]])
      && c.list == [old(c.iters)[key]] + Remove(old(c.list), old(c.iters)[key])
      && c.refs == old(c.refs) && c.iters == old(c.iters)
    ensures !(key in old(c.iters) && old(c.iters)[key] in old(c.list)) ==>
      s == None && c.list == old(c.list) && c.refs == old(c.refs) - {key} && c.iters == old(c.iters) - {key}
    ensures c.contents == old(c.contents) && c.payload == old(c.payload)
    ensures c.nextNode == old(c.nextNode) && c.nextValue == old(c.nextValue)
  {
    c.ExclusiveLookup(key);
    var r := c.Get(key);
    s := Deref(c, r);
  }

  /** Insert 1 -> "one" and get it back; the same through the pair overload. */
  method InsertAndRetrieveScenario() returns (value: Option<string>)
    ensures value == Some("one")
  {
    var c := new Lru<int, string>(2);
    var v1 := c.InsertValue(1, "one");
    value := GetString(c, 1);
  }

  /** The cache after insert(1, "one") and insert(2, "two"). */
  method TwoInserted() returns (c: Lru<int, string>)
    ensures fresh(c) && c.Valid() && c.Exclusive() && c.capacity == 2
    ensures c.list == [1, 0] && c.iters == map[1 := 0, 2 := 1] && c.refs == map[1 := 0, 2 := 1]
    ensures c.contents == map[0 := "one", 1 := "two"] && c.nextNode == 2 && c.nextValue == 2
  {
    c := new Lru<int, string>(2);
    var v1 := c.InsertValue(1, "one");
    var v2 := c.InsertValue(2, "two");
  }

  /** ... followed by insert(3, "three"), which evicts key 1's node. */
  method ThreeInserted() returns (c: Lru<int, string>)
    ensures fresh(c) && c.Valid() && c.Exclusive() && c.capacity == 2
    ensures c.list == [2, 1] && c.iters == map[1 := 0, 2 := 1, 3 := 2] && c.refs == map[1 := 0, 2 := 1, 3 := 2]
    ensures c.contents == map[0 := "one", 1 := "two", 2 := "three"]
  {
    c := TwoInserted();
    var v3 := c.InsertValue(3, "three");
  }

  /** With room for two, the third insert drops the oldest entry. */
  method InsertBeyondCapacityScenario() returns (g1: Option<string>, g2: Option<string>, g3: Option<string>)
    ensures g1 == None && g2 == Some("two") && g3 == Some("three")
  {
    var c := ThreeInserted();
    g1 := GetString(c, 1);
    assert g1 == None;
    g2 := GetString(c, 2);
    assert g2 == Some("two");
    g3 := GetString(c, 3);
  }

  /** get on an empty cache returns null. */
  method RetrieveNonExistentScenario() returns (value: Option<string>)
    ensures value == None
  {
    var c := new Lru<int, string>(2);
    value := GetString(c, 1);
  }

  /** The cache after insert(1, "one"), insert(2, "two"), get(1) and insert(3, "three"). */
  method TouchedThenThird() returns (c: Lru<int, string>)
    ensures fresh(c) && c.Valid() && c.Exclusive() && c.capacity == 2
    ensures c.list == [2, 0] && c.iters == map[1 := 0, 2 := 1, 3 := 2] && c.refs == map[1 := 0, 2 := 1, 3 := 2]
    ensures c.contents == map[0 := "one", 1 := "two", 2 := "three"]
  {
    c := TwoInserted();
    var h := GetString(c, 1);
    assert c.list == [0, 1];
    var v3 := c.InsertValue(3, "three");
  }

  /** A get moves an entry to the front, so the next insert drops the other one. */
  method UpdateLruOrderScenario() returns (g2: Option<string>, g1: Option<string>, g3: Option<string>)
    ensures g2 == None && g1 == Some("one") && g3 == Some("three")
  {
    var c := TouchedThenThird();
    g2 := GetString(c, 2);
    assert g2 == None;
    g1 := GetString(c, 1);
    assert g1 == Some("one");
    g3 := GetString(c, 3);
  }

  /** Inserting a key again leaves its older node in the list, where it still
      takes up room, while get sees the newer value. */
  method ReinsertScenario() returns (length: nat, value: Option<string>)
    ensures length == 2 && value == Some("uno")
  {
    var c := new Lru<int, string>(2);
    var v1 := c.InsertValue(1, "one");
    var v2 := c.InsertValue(1, "uno");
    length := |c.list|;
    value := GetString(c, 1);
  }

  /** The cache after insert(1, "one") with the caller keeping the pointer it got back. */
  method FirstKept() returns (c: Lru<int, string>)
    ensures fresh(c) && c.Valid() && c.capacity == 2 && c.owners == {0}
    ensures c.list == [0] && c.payload == map[0 := 0] && c.iters == map[1 := 0] && c.refs == map[1 := 0]
    ensures c.contents == map[0 := "one"] && c.nextNode == 1 && c.nextValue == 1
  {
    c := new Lru<int, string>(2);
    var v1 := c.InsertValue(1, "one");
    c.Acquire(v1);
  }

  /** ... followed by insert(2, "two") and insert(3, "three"), which evict key 1's node. */
  method FirstKeptThenEvicted() returns (c: Lru<int, string>)
    ensures fresh(c) && c.Valid() && c.capacity == 2 && c.owners == {0}
    ensures c.list == [2, 1] && c.payload == map[0 := 0, 1 := 1, 2 := 2]
    ensures c.iters == map[1 := 0, 2 := 1, 3 := 2] && c.refs == map[1 := 0, 2 := 1, 3 := 2]
  {
    c := FirstKept();
    var v2 := c.InsertValue(2, "two");
    var v3 := c.InsertValue(3, "three");
  }

  /** A value still held by the caller after its node was evicted leaves a
      dangling iterator behind: get on that key is not defined. */
  method DanglingIteratorScenario() returns (defined: bool)
    ensures !defined
  {
    var c := FirstKeptThenEvicted();
    defined := c.GetDefined(1);
  }

  /** Once the caller lets go of an evicted value, get on its key returns null
      and erases the key from both maps. */
  method ReclaimScenario() returns (value: Option<string>, known: bool)
    ensures value == None && !known
  {
    var c := FirstKeptThenEvicted();
    c.Release(0);
    assert c.Exclusive();
    value := GetString(c, 1);
    known := 1 in c.refs || 1 in c.iters;
  }
}
