/**
 * `HashTable`: a list of slots, each `None` or a linked list of entries, and a count of the
 * entries stored. The table never grows (the growth in `put` is commented out in the source)
 * and shrinks to half its slots, rounded down, when a deletion leaves the load factor below 0.2;
 * nothing keeps the slot count at or above `MIN_CAPACITY`.
 */
module HashTables {
  import opened Wrappers
  import opened Hashing
  import opened Chains
  import opened Slots

  /** Declared as the least number of slots; only the initial table uses it. */
  const MIN_CAPACITY: nat := 8

  /** The shrink test `n / s < 0.2` in exact arithmetic is the integer test `5 * n < s`. */
  lemma ShrinkTest(n: nat, s: nat)
    requires s > 0
    ensures (n as real / s as real < 0.2) <==> 5 * n < s
  {
    var q, sr := n as real / s as real, s as real;
    assert q * sr == n as real;
    ScaleLess(q, 0.2, sr);
    assert 0.2 * sr == sr / 5.0;
  }

  /** Multiplying both sides by a positive number keeps a strict comparison. */
  lemma ScaleLess(x: real, y: real, s: real)
    requires s > 0.0
    ensures x < y <==> x * s < y * s
  {
    if x < y {
      assert (y - x) * s > 0.0;
    } else {
      assert (x - y) * s >= 0.0;
    }
  }

  /**
   * Line 224 of `delete` on the slot list as a value: unlink the key's first entry from the
   * chain `c` in its home slot, and what that does to the table.
   */
  method UnlinkInSlot<V>(ghost t: Table<V>, index: nat, c: Chain<V>, key: Key) returns (chain: Chain<V>, removed: bool)
    requires TableInvariant(t) && |t| > 0 && index == HashIndex(key, |t|) && t[index] == Some(c)
    ensures removed <==> key in TableMap(t)
    ensures !removed ==> chain == c
    ensures removed ==> UnlinksFirst(c, key, chain) && |chain| + 1 == |c|
    ensures removed ==> TableInvariant(t[index := Some(chain)])
    ensures removed ==> TableMap(t[index := Some(chain)]) == TableMap(t) - {key}
    ensures removed ==> |Entries(t[index := Some(chain)])| + 1 == |Entries(t)|
  {
    InHomeSlot(t, key);
    var node;
    chain, node := Chains.Delete(c, key);
    removed := node.Some?;
    if removed {
      UnlinkedIsFirst(c, key, chain, node.value);
      RemoveFromSlot(t, index, key, chain);
    }
  }

  /**
   * Lines 191-205 of `put` on the slot list as a value: the new chain for the key's home slot,
   * which held `slot`, and what writing it back does to the table.
   */
  method PutInSlot<V>(ghost t: Table<V>, index: nat, slot: Option<Chain<V>>, key: Key, value: V) returns (chain: Chain<V>, added: bool)
    requires TableInvariant(t) && |t| > 0 && index == HashIndex(key, |t|) && t[index] == slot
    ensures added <==> key !in TableMap(t)
    ensures slot == None ==> chain == [Entry(key, value)]
    ensures slot.Some? && added ==> chain == InsertAtHead(slot.value, Entry(key, value))
    ensures slot.Some? && !added ==>
              exists i :: 0 <= i < |slot.value| && slot.value[i].key == key && chain == slot.value[i := Entry(key, value)]
    ensures TableInvariant(t[index := Some(chain)])
    ensures TableMap(t[index := Some(chain)]) == TableMap(t)[key := value]
    ensures |Entries(t[index := Some(chain)])| == |Entries(t)| + (if added then 1 else 0)
  {
    var e := Entry(key, value);
    InHomeSlot(t, key);
    if slot.Some? {
      chain, added := InsertAtHeadOrOverwrite(slot.value, e);
    } else {
      chain, added := InsertAtHead([], e), true;
      SingleEntryChain(e);
    }
    PutIntoSlot(t, index, key, value, chain);
  }

  /** `put(k, v)` followed by `get(k)` returns `v`, whatever the table held before. */
  method PutThenGet<V>(t: HashTable<V>, key: Key, value: V) returns (r: Option<V>)
    requires t.Valid() && t.slots.Length > 0
    modifies t, t.slots
    ensures r == Some(value)
  {
    t.Put(key, value);
    r := t.Get(key);
  }

  /** The count the table keeps is the number of keys it holds. */
  lemma CountIsSize<V>(t: HashTable<V>)
    requires t.Valid()
    ensures t.numElements == |t.Contents()|
  {
    CountIsDistinctKeys(t.slots[..]);
  }

  class HashTable<V> {
    /** `hash_table`: one entry per slot. */
    var slots: array<Option<Chain<V>>>
    /** `num_elements`. */
    var numElements: nat

    /** Entries sit in their home slots, no key repeats, and the count is the number of entries. */
    ghost predicate Valid()
      reads this, slots
    {
      TableInvariant(slots[..]) && numElements == |Entries(slots[..])|
    }

    /** The key-to-value mapping the table holds. */
    ghost function Contents(): map<Key, V>
      reads this, slots
    {
      TableMap(slots[..])
    }

    /** `__init__`: the requested capacity is ignored and the table always starts with 8 empty slots. */
    constructor (capacity: int)
      ensures Valid() && fresh(slots)
      ensures slots.Length == MIN_CAPACITY && numElements == 0
      ensures forall i :: 0 <= i < slots.Length ==> slots[i] == None
      ensures Contents() == map[]
    {
      slots := new Option<Chain<V>>[MIN_CAPACITY](i => None);
      numElements := 0;
      new;
      EntriesOfEmpty(slots[..]);
    }

    /** `get_num_slots`: the length of the slot list, not the number of entries. */
    function NumSlots(): (n: nat)
      reads this
      ensures n == slots.Length
    {
      slots.Length
    }

    /** `get_load_factor`: entries per slot. */
    function LoadFactor(): (lf: real)
      reads this
      requires slots.Length > 0
      ensures lf >= 0.0 && lf * slots.Length as real == numElements as real
    {
      numElements as real / NumSlots() as real
    }

    /** `get`: the value stored under `key`, or `None`. */
    method Get(key: Key) returns (r: Option<V>)
      requires Valid() && slots.Length > 0
      ensures r == MapGet(Contents(), key)
      ensures slots[HashIndex(key, slots.Length)] == None ==> r == None
    {
      var index := HashIndex(key, NumSlots());
      var slot := slots[index];
      r := None;
      if slot.Some? {
        var node := Find(slot.value, key);
        if node.Some? {
          r := Some(slot.value[node.value].value);
        }
      }
      InHomeSlot(slots[..], key);
    }

    /**
     * `put`: overwrite the value of an entry with the key in place, or link a new entry in at
     * the head of the key's slot, creating the slot's linked list if there is none.
     */
    method Put(key: Key, value: V)
      requires Valid() && slots.Length > 0
      modifies this, slots
      ensures Valid() && slots == old(slots)
      ensures Contents() == old(Contents())[key := value]
      ensures numElements == old(numElements) + (if key in old(Contents()) then 0 else 1)
      ensures forall i :: 0 <= i < slots.Length && i != HashIndex(key, slots.Length) ==> slots[i] == old(slots[i])
      ensures old(slots[HashIndex(key, slots.Length)]) == None ==> slots[HashIndex(key, slots.Length)] == Some([Entry(key, value)])
      ensures old(slots[HashIndex(key, slots.Length)]).Some? && key !in old(Contents()) ==>
                slots[HashIndex(key, slots.Length)] == Some(InsertAtHead(old(slots[HashIndex(key, slots.Length)]).value, Entry(key, value)))
      ensures old(slots[HashIndex(key, slots.Length)]).Some? && key in old(Contents()) ==>
                exists i :: 0 <= i < |old(slots[HashIndex(key, slots.Length)]).value| &&
                  old(slots[HashIndex(key, slots.Length)]).value[i].key == key &&
                  slots[HashIndex(key, slots.Length)] == Some(old(slots[HashIndex(key, slots.Length)]).value[i := Entry(key, value)])
    {
      var index := HashIndex(key, NumSlots());
      ghost var t := slots[..];
      var chain, added := PutInSlot(t, index, slots[index], key, value);
      slots[index] := Some(chain);
      assert slots[..] == t[index := Some(chain)];
      if added {
        numElements := numElements + 1;
      }
    }

    /**
     * `delete`: unlink the entry with the key; `warned` stands for the printed warning, given
     * only when the key's slot has never held a linked list. After a removal that leaves the
     * load factor below 0.2 the table is resized to half its slots, rounded down. The unlinking
     * goes through the corrected `Chains.Delete`, so an emptied list reports no removal instead
     * of crashing and the scan always ends. The ghost `unlinked` is the slot list just after the
     * unlinking, before any resize.
     */
    method Delete(key: Key) returns (warned: bool, ghost unlinked: Table<V>)
      requires Valid() && slots.Length > 0
      modifies this, slots
      ensures Valid()
      ensures warned <==> old(slots[HashIndex(key, slots.Length)]) == None
      ensures warned ==> key !in old(Contents())
      ensures Contents() == old(Contents()) - {key}
      ensures numElements == old(numElements) - (if key in old(Contents()) then 1 else 0)
      ensures key !in old(Contents()) ==> slots == old(slots) && slots[..] == old(slots[..])
      ensures slots.Length == if key in old(Contents()) && 5 * numElements < old(slots.Length)
                              then old(slots.Length) / 2 else old(slots.Length)
      ensures slots.Length == old(slots.Length) ==> slots == old(slots)
      ensures key in old(Contents()) && slots == old(slots) ==>
                var h := HashIndex(key, slots.Length);
                slots[h].Some? && |ChainOf(slots[h])| + 1 == |ChainOf(old(slots[h]))|
      // the slots just after the unlinking: only the home slot's chain differs
      ensures |unlinked| == old(slots.Length) && |Entries(unlinked)| == numElements
      ensures key !in old(Contents()) ==> unlinked == old(slots[..])
      ensures forall i :: 0 <= i < |unlinked| && i != old(HashIndex(key, slots.Length)) ==> unlinked[i] == old(slots[i])
      ensures key in old(Contents()) ==>
                var h := old(HashIndex(key, slots.Length));
                unlinked[h].Some? && UnlinksFirst(ChainOf(old(slots[h])), key, ChainOf(unlinked[h]))
      // and what the table holds afterwards: those slots, or their rehash after a shrink
      ensures slots == old(slots) ==> slots[..] == unlinked
      ensures slots != old(slots) ==> fresh(slots) && slots[..] == Rehash(slots.Length, Entries(unlinked))
    {
      var index := HashIndex(key, NumSlots());
      warned := false;
      if slots[index].Some? {
        var removed := UnlinkFromSlot(key, index);
        unlinked := slots[..];
        assert forall i :: 0 <= i < |unlinked| && i != index ==> unlinked[i] == old(slots[i]);
        if removed {
          assert unlinked[index].Some? && UnlinksFirst(ChainOf(old(slots[index])), key, ChainOf(unlinked[index]));
          ShrinkIfSparse();
        }
      } else {
        InHomeSlot(slots[..], key);
        warned := true;
        unlinked := slots[..];
      }
    }

    /** Lines 227-228 of `delete`: halve the slots, rounding down, when the load factor is below 0.2. */
    method ShrinkIfSparse()
      requires Valid() && slots.Length > 0
      modifies this
      ensures Valid() && Contents() == old(Contents()) && numElements == old(numElements)
      ensures slots.Length == if 5 * numElements < old(slots.Length) then old(slots.Length) / 2 else old(slots.Length)
      ensures slots.Length == old(slots.Length) ==> slots == old(slots)
      ensures slots != old(slots) ==> fresh(slots) && slots[..] == Rehash(slots.Length, Entries(old(slots[..])))
    {
      ShrinkTest(numElements, slots.Length);
      if LoadFactor() < 0.2 {
        Resize(NumSlots() / 2);
      }
    }

    /**
     * Lines 222-226 of `delete`: unlink the key's node from the linked list in its home slot and,
     * when a node was unlinked, count one entry fewer.
     */
    method UnlinkFromSlot(key: Key, index: nat) returns (removed: bool)
      requires Valid() && slots.Length > 0 && index == HashIndex(key, slots.Length)
      requires slots[index].Some?
      modifies this, slots
      ensures Valid() && slots == old(slots)
      ensures removed <==> key in old(Contents())
      ensures Contents() == old(Contents()) - {key}
      ensures numElements == old(numElements) - (if removed then 1 else 0)
      ensures !removed ==> slots[..] == old(slots[..])
      ensures removed ==> slots[index].Some? && |ChainOf(slots[index])| + 1 == |ChainOf(old(slots[index]))|
      ensures removed ==> UnlinksFirst(ChainOf(old(slots[index])), key, ChainOf(slots[index]))
      ensures forall i :: 0 <= i < slots.Length && i != index ==> slots[i] == old(slots[i])
    {
      ghost var t := slots[..];
      var chain;
      chain, removed := UnlinkInSlot(t, index, slots[index].value, key);
      if removed {
        slots[index] := Some(chain);
        assert slots[..] == t[index := Some(chain)];
        numElements := numElements - 1;
      }
    }

    /**
     * The body of `resize`'s inner loop (lines 272-282): link entry `e` in at the head of its
     * home slot's chain, creating the chain when the slot is `None`, and count it. The ghost
     * `done` holds the entries already moved.
     */
    method LinkIn(e: Entry<V>, ghost n: nat, ghost done: seq<Entry<V>>)
      requires slots.Length == n > 0 && numElements == |done| && slots[..] == Rehash(n, done)
      modifies this, slots
      ensures slots == old(slots) && numElements == |done| + 1
      ensures slots[..] == Rehash(n, done + [e])
    {
      RehashSnoc(n, done, e);
      var index := HashIndex(e.key, NumSlots());
      if slots[index] != None {
        slots[index] := Some(InsertAtHead(slots[index].value, e));
      } else {
        slots[index] := Some(InsertAtHead([], e));
      }
      numElements := numElements + 1;
    }

    /** `resize`'s inner loop: the nodes of one old chain, head first, each linked in and counted. */
    method MoveChain(chain: Chain<V>, ghost n: nat, ghost done: seq<Entry<V>>)
      requires slots.Length == n && (n > 0 || |done| + |chain| == 0)
      requires numElements == |done| && slots[..] == Rehash(n, done)
      modifies this, slots
      ensures slots == old(slots) && numElements == |done| + |chain|
      ensures slots[..] == Rehash(n, done + chain)
    {
      assert done + chain[..0] == done;
      var j := 0;
      while j < |chain|
        invariant 0 <= j <= |chain|
        invariant slots == old(slots) && numElements == |done| + j
        invariant slots[..] == Rehash(n, done + chain[..j])
      {
        AppendOneMore(done, chain, j);
        LinkIn(chain[j], n, done + chain[..j]);
        j := j + 1;
      }
      assert chain[..j] == chain;
    }

    /**
     * One pass of `resize`'s outer loop: move the chain of old slot `i`, if it has one, among
     * the new slots. The ghost `olds` is the old slot list.
     */
    method MoveSlot(oldTable: array<Option<Chain<V>>>, i: nat, ghost n: nat, ghost olds: Table<V>)
      requires oldTable != slots && oldTable[..] == olds && i < |olds|
      requires slots.Length == n && (n > 0 || |Entries(olds)| == 0)
      requires numElements == |Entries(olds[..i])| && (n > 0 || numElements == 0)
      requires slots[..] == Rehash(n, Entries(olds[..i]))
      modifies this, slots
      ensures slots == old(slots) && numElements == |Entries(olds[..i + 1])| && (n > 0 || numElements == 0)
      ensures slots[..] == Rehash(n, Entries(olds[..i + 1]))
    {
      EntriesGrow(olds, i);
      if oldTable[i] != None {
        var chain := oldTable[i].value;
        assert chain == ChainOf(olds[i]);
        MoveChain(chain, n, Entries(olds[..i]));
      } else {
        assert Entries(olds[..i]) + ChainOf(olds[i]) == Entries(olds[..i]);
      }
    }

    /**
     * `resize`'s outer loop: every old slot in turn, from slot 0, its chain moved among the
     * new slots, which start out all `None`.
     */
    method MoveSlots(oldTable: array<Option<Chain<V>>>, ghost n: nat, ghost olds: Table<V>)
      requires oldTable != slots && oldTable[..] == olds
      requires slots.Length == n && (n > 0 || |Entries(olds)| == 0)
      requires numElements == 0 && slots[..] == EmptyTable(n)
      modifies this, slots
      ensures slots == old(slots) && numElements == |Entries(olds)|
      ensures slots[..] == Rehash(n, Entries(olds))
    {
      assert |olds[..0]| == 0;
      var i := 0;
      while i < oldTable.Length
        invariant 0 <= i <= oldTable.Length
        invariant slots == old(slots)
        invariant numElements == |Entries(olds[..i])| && (n > 0 || numElements == 0)
        invariant slots[..] == Rehash(n, Entries(olds[..i]))
      {
        MoveSlot(oldTable, i, n, olds);
        i := i + 1;
      }
      assert olds[..|olds|] == olds;
    }

    /**
     * `resize`: a fresh list of `newCapacity` empty slots (the caller's `int()` truncation
     * done), then every node of every old chain, slot by slot and head first, linked in at the
     * head of its home slot among the new slots, counting each one.
     */
    method Resize(newCapacity: nat)
      requires Valid()
      requires newCapacity > 0 || numElements == 0
      modifies this
      ensures Valid() && fresh(slots) && slots.Length == newCapacity
      ensures slots[..] == Rehash(newCapacity, Entries(old(slots[..])))
      ensures multiset(Entries(slots[..])) == multiset(Entries(old(slots[..])))
      ensures Contents() == old(Contents()) && numElements == old(numElements)
    {
      var oldTable := slots;
      ghost var olds := slots[..];
      slots := new Option<Chain<V>>[newCapacity](i => None);
      numElements := 0;
      assert slots[..] == EmptyTable(newCapacity);
      MoveSlots(oldTable, newCapacity, olds);
      RehashTable(olds, newCapacity);
    }
  }
}
