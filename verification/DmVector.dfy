/** `DMVector` and `DMMap`: a growing array over raw storage, and an association list of two of them.
    Whether an allocation succeeds is a parameter of every operation that may allocate. */
module DmVector {
  import opened DmText

  /** A slot of the storage: raw memory, or an element that has been constructed. */
  datatype Slot<T> = Raw | Live(value: T)

  function RoundUp4(n: nat): (r: nat)
    ensures n <= r < n + 4 && r % 4 == 0
  {
    (n + 3) / 4 * 4
  }

  /** The elements after a change of size: cut off, or filled up with default elements. */
  function Resized<T>(s: seq<T>, n: nat, initial: T): (r: seq<T>)
    ensures |r| == n && forall i :: 0 <= i < n ==> r[i] == if i < |s| then s[i] else initial
  {
    if n <= |s| then s[..n] else s + seq(n - |s|, _ => initial)
  }

  predicate AllLive<T>(slots: seq<Slot<T>>) {
    forall i :: 0 <= i < |slots| ==> slots[i].Live?
  }

  function Values<T>(slots: seq<Slot<T>>): (s: seq<T>)
    requires AllLive(slots)
    ensures |s| == |slots| && forall i :: 0 <= i < |s| ==> s[i] == slots[i].value
  {
    seq(|slots|, i requires 0 <= i < |slots| => slots[i].value)
  }

  function Min(a: int, b: int): int {
    if a < b then a else b
  }

  function LargestAfter(largest: nat, newSize: nat, ok: bool): nat {
    if !ok then largest else if newSize == 0 then 0 else if newSize > largest then newSize else largest
  }

  lemma ValuesWithout<T>(slots: seq<Slot<T>>, index: nat)
    requires index < |slots| && forall i :: 0 <= i < |slots| ==> slots[i].Live?
    ensures Values(slots[..index] + slots[index + 1..]) == Values(slots)[..index] + Values(slots)[index + 1..]
  {
  }

  class DMVector<T(==)> {
    const initial: T
    var ptrs: array?<Slot<T>>
    var capacity: nat
    var count: nat
    /** The largest size since the vector was last emptied. */
    ghost var largest: nat

    /** The storage has the size that goes with the largest size so far, and exactly its first `n` slots are
        constructed. */
    ghost predicate Built(n: nat)
      reads this`ptrs, this`capacity, this`largest, ptrs
    {
      && (ptrs == null <==> capacity == 0) && (ptrs != null ==> ptrs.Length == capacity)
      && n <= capacity && capacity == RoundUp4(largest)
      && (ptrs != null ==> forall i :: 0 <= i < capacity ==> (ptrs[i].Live? <==> i < n))
    }

    ghost predicate Valid()
      reads this, ptrs
    {
      Built(count) && count <= largest
    }

    ghost function Elements(n: nat): (s: seq<T>)
      reads this`ptrs, this`capacity, this`largest, ptrs
      requires Built(n)
      ensures |s| == n
    {
      if ptrs == null then [] else Values(ptrs[..n])
    }

    ghost function Contents(): (s: seq<T>)
      reads this, ptrs
      requires Valid()
      ensures |s| == count
    {
      Elements(count)
    }

    /** `initial` is the element the default constructor makes. */
    constructor (initial: T)
      ensures Valid() && Contents() == [] && capacity == 0 && this.initial == initial
    {
      this.initial := initial;
      ptrs, capacity, count, largest := null, 0, 0, 0;
    }

    method DestructElement(index: nat)
      requires Built(index + 1)
      modifies ptrs
      ensures Built(index) && Elements(index) == old(Elements(index + 1))[..index]
    {
      ptrs[index] := Raw;
    }

    method ConstructElement(index: nat)
      requires Built(index) && index < capacity
      modifies ptrs
      ensures Built(index + 1) && Elements(index + 1) == old(Elements(index)) + [initial]
    {
      ptrs[index] := Live(initial);
    }

    /** Grows the storage, and gives it back only for size 0. Elements move as they are. A size equal to the
        storage is allocated anew. */
    method Reallocate(newSize: nat, ghost live: nat, outOfMemory: bool) returns (ok: bool)
      requires Built(live) && live == Min(count, newSize) && count <= capacity
      modifies this`ptrs, this`capacity, this`largest
      ensures ok <==> newSize == 0 || newSize < old(capacity) || !outOfMemory
      ensures Built(live) && Elements(live) == old(Elements(live))
      ensures ok ==> newSize <= capacity
      ensures largest == LargestAfter(old(largest), newSize, ok)
      ensures ptrs == old(ptrs) || ptrs == null || fresh(ptrs)
    {
      if newSize == 0 {
        ptrs, capacity, largest := null, 0, 0;
        return true;
      }
      if newSize < capacity {
        largest := LargestAfter(largest, newSize, true);
        return true;
      }
      var newAlloc := (newSize + 3) / 4 * 4;
      if outOfMemory {
        return false;
      }
      var newPtr := new Slot<T>[newAlloc](_ => Raw);
      if ptrs != null {
        forall i | 0 <= i < count {
          newPtr[i] := ptrs[i];
        }
      }
      ptrs, capacity := newPtr, newAlloc;
      largest := newSize;
      return true;
    }

    method DestructFrom(newSize: nat)
      requires Valid()
      modifies ptrs
      ensures Built(Min(count, newSize))
      ensures Elements(Min(count, newSize)) == old(Contents())[..Min(count, newSize)]
    {
      var index := count - 1;
      while index >= newSize
        invariant Min(count, newSize) - 1 <= index < count
        invariant Built(index + 1) && Elements(index + 1) == old(Contents())[..index + 1]
      {
        DestructElement(index);
        index := index - 1;
      }
    }

    method ConstructUpTo(newSize: nat)
      requires Built(Min(count, newSize)) && newSize <= capacity
      modifies ptrs
      ensures Built(newSize)
      ensures Elements(newSize) == old(Elements(Min(count, newSize))) + seq(newSize - Min(count, newSize), _ => initial)
    {
      var index := count;
      while index < newSize
        invariant Min(count, newSize) <= index && (index <= newSize || index == count)
        invariant Built(Min(index, newSize))
        invariant Elements(Min(index, newSize)) ==
                  old(Elements(Min(count, newSize))) + seq(Min(index, newSize) - Min(count, newSize), _ => initial)
      {
        ConstructElement(index);
        index := index + 1;
      }
    }

    /** `set_size`: a change of size that fails changes nothing. */
    method SetSize(newSize: int, outOfMemory: bool) returns (ok: bool)
      requires Valid()
      modifies this, ptrs
      ensures Valid() && (ptrs == old(ptrs) || ptrs == null || fresh(ptrs))
      ensures ok <==> newSize == 0 || 0 < newSize < old(capacity) || (newSize > 0 && !outOfMemory)
      ensures Contents() == if ok then Resized(old(Contents()), newSize, initial) else old(Contents())
      ensures largest == if ok then LargestAfter(old(largest), newSize, true) else old(largest)
      ensures ok && newSize == 0 ==> ptrs == null && capacity == 0
    {
      if newSize < 0 {
        return false;
      }
      DestructFrom(newSize);
      ok := Reallocate(newSize, Min(count, newSize), outOfMemory);
      if !ok {
        // Where the source would cut the count off: storage that had to grow held no more than that.
        assert count <= newSize;
        return;
      }
      ConstructUpTo(newSize);
      count := newSize;
    }

    /** `push_back`: the index of the last element, which is the new one unless the vector could not grow. */
    method PushBack(x: T, outOfMemory: bool) returns (index: int)
      requires Valid()
      modifies this, ptrs
      ensures Valid() && (ptrs == old(ptrs) || ptrs == null || fresh(ptrs))
      ensures old(count) + 1 < old(capacity) || !outOfMemory ==>
                Contents() == old(Contents()) + [x] && index == old(count)
      ensures !(old(count) + 1 < old(capacity) || !outOfMemory) ==>
                Contents() == old(Contents()) && index == old(count) - 1
    {
      var ok := SetSize(count + 1, outOfMemory);
      if !ok {
        return count - 1;
      }
      ptrs[count - 1] := Live(x);
      return count - 1;
    }

    method Set(index: nat, x: T)
      requires Valid() && index < count
      modifies ptrs
      ensures Valid() && Contents() == old(Contents())[index := x]
    {
      ptrs[index] := Live(x);
    }

    function Get(index: nat): (x: T)
      reads this, ptrs
      requires Valid() && index < count
      ensures x == Contents()[index]
    {
      ptrs[index].value
    }

    /** `remove`: the elements behind the removed one move up by a slot. An index outside is ignored. */
    method Remove(index: int)
      requires Valid()
      modifies this`count, ptrs
      ensures Valid()
      ensures Contents() == if 0 <= index < old(count) then old(Contents()[..index] + Contents()[index + 1..])
                            else old(Contents())
    {
      if index < 0 || index >= count {
        return;
      }
      MoveUp(index);
      count := count - 1;
    }

    method MoveUp(index: nat)
      requires Built(count) && index < count
      modifies ptrs
      ensures Built(count - 1)
      ensures Elements(count - 1) == old(Elements(count)[..index] + Elements(count)[index + 1..])
    {
      hide Values, RoundUp4;
      ghost var was := ptrs[..count];
      ptrs[index] := Raw;
      forall i | index <= i < count - 1 {
        ptrs[i] := ptrs[i + 1];
      }
      ptrs[count - 1] := Raw;
      assert ptrs[..count - 1] == was[..index] + was[index + 1..];
      ValuesWithout(was, index);
    }

    method Find(x: T) returns (index: int)
      requires Valid()
      ensures -1 <= index < count
      ensures index >= 0 ==> Contents()[index] == x && x !in Contents()[..index]
      ensures index < 0 ==> x !in Contents()
    {
      var pos := 0;
      while pos < count
        invariant 0 <= pos <= count && x !in Contents()[..pos]
      {
        if Get(pos) == x {
          return pos;
        }
        pos := pos + 1;
      }
      return -1;
    }

    method CopyElements(from: DMVector<T>)
      requires Valid() && from.Valid() && count == from.count
      requires if from == this then count == 0 else ptrs != null ==> ptrs != from.ptrs
      modifies ptrs
      ensures Valid() && Contents() == from.Contents()
    {
      for i := 0 to from.count
        invariant Valid() && from.Valid() && from.Contents() == old(from.Contents())
        invariant Contents()[..i] == from.Contents()[..i]
      {
        ghost var before := Contents();
        Set(i, from.Get(i));
        assert Contents()[..i] == before[..i];
      }
    }

    /** `operator=`: an exact copy, or empty when memory runs out. There is no check for assignment to
        itself, which empties the vector. */
    method Assign(from: DMVector<T>, outOfMemory: bool)
      requires Valid() && from.Valid() && (from != this && ptrs != null ==> ptrs != from.ptrs)
      modifies this, ptrs
      ensures Valid()
      ensures Contents() == if from == this || (outOfMemory && from.count > 0) then [] else old(from.Contents())
      ensures ptrs == null || fresh(ptrs)
      ensures from != this && !outOfMemory ==> largest == from.count
    {
      hide Built;
      var ok := SetSize(0, false);
      ok := SetSize(from.count, outOfMemory);
      if ok {
        CopyElements(from);
      }
    }
  }

  // ---------- the association list ----------

  ghost function Position<K>(keys: seq<K>, k: K): (i: nat)
    requires k in keys
    ensures i < |keys| && keys[i] == k && k !in keys[..i]
  {
    if keys[0] == k then 0
    else
      assert k in keys[1..];
      var i := Position(keys[1..], k) + 1;
      assert keys[..i] == [keys[0]] + keys[1..][..i - 1];
      i
  }

  /** The finite map that two parallel lists stand for. */
  ghost function MapOf<K, V>(keys: seq<K>, values: seq<V>): map<K, V>
    requires |keys| == |values|
  {
    map k | k in keys :: values[Position(keys, k)]
  }

  lemma PositionUnique<K>(keys: seq<K>, i: nat)
    requires NoDup(keys) && i < |keys|
    ensures keys[i] in keys && Position(keys, keys[i]) == i
  {
  }

  lemma EntryAt<K, V>(keys: seq<K>, values: seq<V>, i: nat)
    requires |keys| == |values| && NoDup(keys) && i < |keys|
    ensures keys[i] in MapOf(keys, values) && MapOf(keys, values)[keys[i]] == values[i]
  {
    PositionUnique(keys, i);
  }

  /** A new key at the end of both lists is a new entry of the map. */
  lemma AppendEntry<K, V>(keys: seq<K>, values: seq<V>, key: K, value: V)
    requires |keys| == |values| && NoDup(keys) && key !in keys
    ensures NoDup(keys + [key])
    ensures MapOf(keys + [key], values + [value]) == MapOf(keys, values)[key := value]
  {
    var ks, vs := keys + [key], values + [value];
    var m := MapOf(ks, vs);
    forall k | k in ks ensures m[k] == MapOf(keys, values)[key := value][k] {
      var i :| 0 <= i < |ks| && ks[i] == k;
      EntryAt(ks, vs, i);
      if i < |keys| {
        EntryAt(keys, values, i);
      }
    }
  }

  lemma UpdateEntry<K, V>(keys: seq<K>, values: seq<V>, i: nat, value: V)
    requires |keys| == |values| && NoDup(keys) && i < |keys|
    ensures MapOf(keys, values[i := value]) == MapOf(keys, values)[keys[i] := value]
  {
    forall k | k in keys ensures MapOf(keys, values[i := value])[k] == MapOf(keys, values)[keys[i] := value][k] {
      var j :| 0 <= j < |keys| && keys[j] == k;
      EntryAt(keys, values, j);
      EntryAt(keys, values[i := value], j);
    }
  }

  function Without<T>(s: seq<T>, i: nat): (r: seq<T>)
    requires i < |s|
    ensures |r| == |s| - 1
  {
    s[..i] + s[i + 1..]
  }

  lemma WithoutMeans<T>(s: seq<T>, i: nat)
    requires i < |s|
    ensures forall k :: 0 <= k < |s| - 1 ==> Without(s, i)[k] == s[if k < i then k else k + 1]
  {
  }

  lemma WithoutMembers<K>(keys: seq<K>, i: nat)
    requires NoDup(keys) && i < |keys|
    ensures NoDup(Without(keys, i))
    ensures forall k :: k in Without(keys, i) <==> k in keys && k != keys[i]
  {
    var ks := Without(keys, i);
    forall k ensures k in ks <==> k in keys && k != keys[i] {
      if k in ks {
        var j :| 0 <= j < |ks| && ks[j] == k;
        assert k == keys[if j < i then j else j + 1];
      }
      if k in keys && k != keys[i] {
        var j :| 0 <= j < |keys| && keys[j] == k;
        assert k == ks[if j < i then j else j - 1];
      }
    }
  }

  lemma OtherEntryStays<K, V>(keys: seq<K>, values: seq<V>, i: nat, j: nat)
    requires |keys| == |values| && NoDup(keys) && i < |keys| && j < |keys| && i != j
    ensures keys[j] in MapOf(Without(keys, i), Without(values, i))
    ensures MapOf(Without(keys, i), Without(values, i))[keys[j]] == MapOf(keys, values)[keys[j]]
  {
    hide MapOf;
    WithoutMembers(keys, i);
    var ks, vs := Without(keys, i), Without(values, i);
    var j' := if j < i then j else j - 1;
    assert ks[j'] == keys[j] && vs[j'] == values[j];
    EntryAt(ks, vs, j');
    EntryAt(keys, values, j);
  }

  /** Taking the same index out of both lists takes one entry out of the map. */
  lemma RemoveEntry<K, V>(keys: seq<K>, values: seq<V>, i: nat)
    requires |keys| == |values| && NoDup(keys) && i < |keys|
    ensures NoDup(Without(keys, i))
    ensures MapOf(Without(keys, i), Without(values, i)) == MapOf(keys, values) - {keys[i]}
  {
    hide NoDup, Without;
    WithoutMembers(keys, i);
    var m := MapOf(Without(keys, i), Without(values, i));
    forall k | k in m ensures m[k] == MapOf(keys, values)[k] {
      var j :| 0 <= j < |keys| && keys[j] == k;
      OtherEntryStays(keys, values, i, j);
    }
  }

  lemma AbsentKey<K, V>(keys: seq<K>, values: seq<V>, key: K)
    requires |keys| == |values| && key !in keys
    ensures MapOf(keys, values) - {key} == MapOf(keys, values)
  {
  }

  class DMMap<K(==), V(==)> {
    const keys: DMVector<K>
    const values: DMVector<V>

    ghost predicate Valid()
      reads this, keys, values, keys.ptrs, values.ptrs
    {
      && (keys as object) != values && (keys.ptrs == null || (keys.ptrs as object?) != values.ptrs)
      && keys.Valid() && values.Valid() && keys.count == values.count
      && NoDup(keys.Contents())
    }

    ghost function Keys(): (ks: seq<K>)
      reads this, keys, values, keys.ptrs, values.ptrs
      requires Valid()
    {
      keys.Contents()
    }

    ghost function Map(): map<K, V>
      reads this, keys, values, keys.ptrs, values.ptrs
      requires Valid()
    {
      MapOf(keys.Contents(), values.Contents())
    }

    constructor (key: K, value: V)
      ensures Valid() && Keys() == [] && Map() == map[] && fresh(keys) && fresh(values)
    {
      keys := new DMVector<K>(key);
      values := new DMVector<V>(value);
    }

    /** The map can take a new key: neither list has to grow, or the memory is there. */
    ghost predicate Room(keysOut: bool, valuesOut: bool)
      reads this, keys, values
    {
      && (keys.count + 1 < keys.capacity || !keysOut)
      && (values.count + 1 < values.capacity || !valuesOut)
    }

    /** `put`, under any pattern of allocation failures: it stores the entry, or changes nothing. */
    method Put(key: K, value: V, keysOut: bool, valuesOut: bool)
      requires Valid()
      modifies keys, values, keys.ptrs, values.ptrs
      ensures Valid()
      ensures key in old(Keys()) ==> Keys() == old(Keys()) && Map() == old(Map())[key := value]
      ensures key !in old(Keys()) && old(Room(keysOut, valuesOut)) ==>
                Keys() == old(Keys()) + [key] && Map() == old(Map())[key := value]
      ensures key !in old(Keys()) && !old(Room(keysOut, valuesOut)) ==> Keys() == old(Keys()) && Map() == old(Map())
    {
      hide MapOf, NoDup;
      ghost var ks, vs := keys.Contents(), values.Contents();
      var index := keys.Find(key);
      if index >= 0 {
        UpdateEntry(ks, vs, index, value);
        values.Set(index, value);
        return;
      }
      PutNew(key, value, keysOut, valuesOut);
    }

    method PutNew(key: K, value: V, keysOut: bool, valuesOut: bool)
      requires Valid() && key !in Keys()
      modifies keys, values, keys.ptrs, values.ptrs
      ensures Valid()
      ensures old(Room(keysOut, valuesOut)) ==> Keys() == old(Keys()) + [key] && Map() == old(Map())[key := value]
      ensures !old(Room(keysOut, valuesOut)) ==> Keys() == old(Keys()) && Map() == old(Map())
    {
      hide MapOf, NoDup, DMVector.Built, DMVector.Elements;
      ghost var ks, vs := keys.Contents(), values.Contents();
      AppendEntry(ks, vs, key, value);
      var size := keys.count;
      var at := keys.PushBack(key, keysOut);
      if at != size {
        return;
      }
      at := values.PushBack(value, valuesOut);
      if at != size {
        keys.Remove(size);
        assert keys.Contents() == ks;
      }
    }

    method Remove(key: K) returns (found: bool)
      requires Valid()
      modifies keys, values, keys.ptrs, values.ptrs
      ensures Valid() && found == (key in old(Keys()))
      ensures Map() == old(Map()) - {key}
      ensures Keys() == if found then Without(old(Keys()), Position(old(Keys()), key)) else old(Keys())
    {
      hide MapOf, NoDup, DMVector.Built, DMVector.Elements;
      ghost var ks, vs := keys.Contents(), values.Contents();
      var index := keys.Find(key);
      if index < 0 {
        AbsentKey(ks, vs, key);
        return false;
      }
      RemoveEntry(ks, vs, index);
      PositionUnique(ks, index);
      keys.Remove(index);
      values.Remove(index);
      return true;
    }

    method Lookup(key: K, default: V) returns (found: bool, value: V)
      requires Valid()
      ensures found == (key in Map())
      ensures value == if found then Map()[key] else default
    {
      var index := keys.Find(key);
      if index < 0 {
        return false, default;
      }
      EntryAt(keys.Contents(), values.Contents(), index);
      return true, values.Get(index);
    }
  }
}
