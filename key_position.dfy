/** Slot arithmetic on the sentinel-filled key arrays: the child position a key routes to
    (getKeyPosition) and the number of occupied slots of a leaf (the count in insertEntry). */
module KeyPosition {
  import opened BTreeTypes

  /** One past the last occupied slot among the first n whose key is at most `key`;
      0 when there is none. */
  function KeyPos(key: int, keys: seq<int>, n: nat): (pos: nat)
    requires n <= |keys|
    ensures pos <= n
  {
    if n == 0 then 0
    else if keys[n - 1] != EmptyKey && keys[n - 1] <= key then n
    else KeyPos(key, keys, n - 1)
  }

  /** getKeyPosition: scans the first `occupancy` slots, skipping empty ones. */
  method GetKeyPosition(key: int, keys: seq<int>, occupancy: nat) returns (pos: nat)
    requires occupancy <= |keys|
    ensures pos == KeyPos(key, keys, occupancy)
  {
    pos := 0;
    for i := 0 to occupancy
      invariant pos == KeyPos(key, keys, i)
    {
      if keys[i] == EmptyKey {
        continue;
      }
      if key >= keys[i] {
        pos := i + 1;
      }
    }
  }

  /** The position is exactly "after the last occupied slot holding a key <= key":
      that slot (if any) qualifies and no later slot does. */
  lemma {:induction false} KeyPosIsLastMatch(key: int, keys: seq<int>, n: nat)
    requires n <= |keys|
    ensures var pos := KeyPos(key, keys, n);
      (pos > 0 ==> keys[pos - 1] != EmptyKey && keys[pos - 1] <= key) &&
      (forall j :: pos <= j < n ==> keys[j] == EmptyKey || keys[j] > key)
  {
    if n > 0 && !(keys[n - 1] != EmptyKey && keys[n - 1] <= key) {
      KeyPosIsLastMatch(key, keys, n - 1);
    }
  }

  /** Every occupied slot holding a key <= key lies left of the position; in particular
      a key equal to a stored key routes to the child right of it. */
  lemma {:induction false} KeyPosPassesSmallerKeys(key: int, keys: seq<int>, n: nat, j: nat)
    requires j < n <= |keys|
    requires keys[j] != EmptyKey && keys[j] <= key
    ensures j < KeyPos(key, keys, n)
  {
    KeyPosIsLastMatch(key, keys, n);
  }

  /** A larger key never routes further left, whatever the array holds. */
  lemma {:induction false} KeyPosMonotone(k1: int, k2: int, keys: seq<int>, n: nat)
    requires k1 <= k2
    requires n <= |keys|
    ensures KeyPos(k1, keys, n) <= KeyPos(k2, keys, n)
  {
    if n > 0 && !(keys[n - 1] != EmptyKey && keys[n - 1] <= k2) {
      KeyPosMonotone(k1, k2, keys, n - 1);
    }
  }

  /** Number of occupied slots among the first n whose key is at most `key`. */
  function CountAtMost(key: int, keys: seq<int>, n: nat): nat
    requires n <= |keys|
  {
    if n == 0 then 0
    else CountAtMost(key, keys, n - 1) + (if keys[n - 1] != EmptyKey && keys[n - 1] <= key then 1 else 0)
  }

  /** Among the first n slots, exactly the first c are occupied. */
  predicate Packed(keys: seq<int>, n: nat, c: nat)
  {
    c <= n <= |keys| &&
    (forall i :: 0 <= i < c ==> keys[i] != EmptyKey) &&
    (forall i :: c <= i < n ==> keys[i] == EmptyKey)
  }

  /** The first c slots hold keys in non-decreasing order. */
  predicate SortedPrefix(keys: seq<int>, c: nat)
    requires c <= |keys|
  {
    forall i, j :: 0 <= i < j < c ==> keys[i] <= keys[j]
  }

  lemma {:induction false} CountAtMostAll(key: int, keys: seq<int>, n: nat)
    requires n <= |keys|
    requires forall i :: 0 <= i < n ==> keys[i] != EmptyKey && keys[i] <= key
    ensures CountAtMost(key, keys, n) == n
  {
    if n > 0 {
      CountAtMostAll(key, keys, n - 1);
    }
  }

  /** On a packed, sorted key array the position is the number of stored keys <= key,
      so equal keys are counted and routing goes right of them. */
  lemma {:induction false} KeyPosCountsKeys(key: int, keys: seq<int>, n: nat, c: nat)
    requires Packed(keys, n, c) && SortedPrefix(keys, c)
    ensures KeyPos(key, keys, n) == CountAtMost(key, keys, n)
  {
    if n == 0 {
    } else if c < n {
      KeyPosCountsKeys(key, keys, n - 1, c);
    } else if keys[n - 1] <= key {
      CountAtMostAll(key, keys, n);
    } else {
      KeyPosCountsKeys(key, keys, n - 1, n - 1);
    }
  }

  /** Number of occupied (non-sentinel) slots among the first n. */
  function OccupiedCount(keys: seq<int>, n: nat): (count: nat)
    requires n <= |keys|
    ensures count <= n
  {
    if n == 0 then 0
    else OccupiedCount(keys, n - 1) + (if keys[n - 1] != EmptyKey then 1 else 0)
  }

  /** The key-counting loop of insertEntry over the first `occupancy` leaf slots. */
  method CountOccupied(keys: seq<int>, occupancy: nat) returns (count: nat)
    requires occupancy <= |keys|
    ensures count == OccupiedCount(keys, occupancy)
  {
    count := 0;
    for i := 0 to occupancy
      invariant count == OccupiedCount(keys, i)
    {
      if keys[i] != EmptyKey {
        count := count + 1;
      }
    }
  }

  /** On a packed array the count is the number of stored keys: sentinel slots never count. */
  lemma {:induction false} PackedOccupiedCount(keys: seq<int>, n: nat, c: nat)
    requires Packed(keys, n, c)
    ensures OccupiedCount(keys, n) == c
  {
    if n > 0 {
      if c == n {
        PackedOccupiedCount(keys, n - 1, n - 1);
      } else {
        PackedOccupiedCount(keys, n - 1, c);
      }
    }
  }

  /** An array whose only occupied slot among the first n is slot 0 routes a key to 1
      exactly when that key is at least the stored one. */
  lemma {:induction false} KeyPosSingleKey(key: int, keys: seq<int>, n: nat)
    requires 0 < n <= |keys|
    requires forall i :: 1 <= i < n ==> keys[i] == EmptyKey
    ensures KeyPos(key, keys, n) == if keys[0] != EmptyKey && keys[0] <= key then 1 else 0
  {
    if n > 1 {
      KeyPosSingleKey(key, keys, n - 1);
    }
  }
}
