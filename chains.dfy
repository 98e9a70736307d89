/**
 * One bucket of the table: a `LinkedList` of `Node(HashTableEntry)`, modelled as the
 * sequence of its entries, head first.
 *
 * Entries are matched by key alone: every probe the table passes in is a `HashTableEntry`, and
 * `HashTableEntry.__eq__` compares keys and ignores values, so every lookup here compares a
 * stored entry's key with the key sought.
 */
module Chains {
  import opened Wrappers
  import opened Hashing

  /** `HashTableEntry`: a key with its value. */
  datatype Entry<V> = Entry(key: Key, value: V)

  /** The entries of one linked list, from the head. */
  type Chain<V> = seq<Entry<V>>

  /** What the chain answers for each key: the value of the first entry, from the head, with that key. */
  function EntryMap<V>(c: Chain<V>): map<Key, V>
  {
    if |c| == 0 then map[] else EntryMap(c[1..])[c[0].key := c[0].value]
  }

  /** No two entries of `c` carry equal keys. */
  predicate UniqueKeys<V>(c: Chain<V>)
  {
    forall i, j :: 0 <= i < j < |c| ==> c[i].key != c[j].key
  }

  lemma {:induction false} EntryMapKeys<V>(c: Chain<V>, k: Key)
    ensures k in EntryMap(c) <==> exists i :: 0 <= i < |c| && c[i].key == k
  {
    if |c| > 0 {
      EntryMapKeys(c[1..], k);
      if k != c[0].key && exists i :: 0 <= i < |c| && c[i].key == k {
        var i :| 0 <= i < |c| && c[i].key == k;
        assert c[1..][i - 1].key == k;
      }
    }
  }

  /** The first entry with a key is the one the chain answers with. */
  lemma {:induction false} FirstMatchValue<V>(c: Chain<V>, i: nat)
    requires i < |c|
    requires forall j :: 0 <= j < i ==> c[j].key != c[i].key
    ensures c[i].key in EntryMap(c) && EntryMap(c)[c[i].key] == c[i].value
  {
    if i > 0 {
      FirstMatchValue(c[1..], i - 1);
    }
  }

  /** Replacing the first entry with a key by a new entry for that key updates just that key. */
  lemma {:induction false} OverwriteFirst<V>(c: Chain<V>, i: nat, e: Entry<V>)
    requires i < |c| && c[i].key == e.key
    requires forall j :: 0 <= j < i ==> c[j].key != e.key
    ensures EntryMap(c[i := e]) == EntryMap(c)[e.key := e.value]
  {
    if i == 0 {
      assert c[i := e][1..] == c[1..];
    } else {
      OverwriteFirst(c[1..], i - 1, e);
      assert c[i := e][1..] == c[1..][i - 1 := e];
    }
  }

  /** Unlinking the entry at `i` from a chain with unique keys drops exactly its key. */
  lemma UnlinkUnique<V>(c: Chain<V>, i: nat)
    requires i < |c| && UniqueKeys(c)
    ensures UniqueKeys(c[..i] + c[i + 1..])
    ensures EntryMap(c[..i] + c[i + 1..]) == EntryMap(c) - {c[i].key}
  {
    UnlinkKeepsUnique(c, i);
    UnlinkDropsKey(c, i);
  }

  lemma UnlinkKeepsUnique<V>(c: Chain<V>, i: nat)
    requires i < |c| && UniqueKeys(c)
    ensures UniqueKeys(c[..i] + c[i + 1..])
  {
    var r := c[..i] + c[i + 1..];
    assert forall j :: 0 <= j < |r| ==> r[j] == if j < i then c[j] else c[j + 1];
  }

  lemma {:induction false} UnlinkDropsKey<V>(c: Chain<V>, i: nat)
    requires i < |c| && UniqueKeys(c)
    ensures EntryMap(c[..i] + c[i + 1..]) == EntryMap(c) - {c[i].key}
  {
    UnlinkSplit(c, i);
    if i == 0 {
      EntryMapKeys(c[1..], c[0].key);
    } else {
      var t := c[1..];
      assert UniqueKeys(t);
      UnlinkDropsKey(t, i - 1);
      InsertAtHeadMap(t[..i - 1] + t[i..], c[0]);
      assert c[0].key != c[i].key;
      RemoveThenUpdate(EntryMap(t), c[0].key, c[0].value, c[i].key);
    }
  }

  /** Unlinking position `i` of `c` is unlinking position `i - 1` of its tail, below the head. */
  lemma UnlinkSplit<T>(c: seq<T>, i: nat)
    requires i < |c|
    ensures i == 0 ==> c[..i] + c[i + 1..] == c[1..]
    ensures i > 0 ==> c[..i] + c[i + 1..] == [c[0]] + (c[1..][..i - 1] + c[1..][i..])
  {
    if i > 0 {
      assert c[1..][..i - 1] == c[1..i];
      assert c[1..][i..] == c[i + 1..];
      assert c[..i] == [c[0]] + c[1..i];
    }
  }

  lemma RemoveThenUpdate<K, V>(m: map<K, V>, k: K, v: V, r: K)
    requires k != r
    ensures (m - {r})[k := v] == m[k := v] - {r}
  {
  }

  /** Earlier entries take precedence over later ones. */
  lemma {:induction false} EntryMapAppend<V>(a: Chain<V>, b: Chain<V>)
    ensures EntryMap(a + b) == EntryMap(b) + EntryMap(a)
  {
    if |a| == 0 {
      assert a + b == b;
    } else {
      assert (a + b)[1..] == a[1..] + b;
      EntryMapAppend(a[1..], b);
    }
  }

  /** With unique keys, the chain answers for exactly as many keys as it has entries. */
  lemma {:induction false} UniqueSize<V>(c: Chain<V>)
    requires UniqueKeys(c)
    ensures |EntryMap(c)| == |c|
  {
    if |c| > 0 {
      UniqueSize(c[1..]);
      EntryMapKeys(c[1..], c[0].key);
    }
  }

  /** `LinkedList.find`: the first node whose entry has the key sought, or none. */
  method Find<V>(c: Chain<V>, key: Key) returns (node: Option<nat>)
    ensures node.None? <==> key !in EntryMap(c)
    ensures node.None? ==> forall j :: 0 <= j < |c| ==> c[j].key != key
    ensures node.Some? ==> node.value < |c| && c[node.value].key == key
    ensures node.Some? ==> forall j :: 0 <= j < node.value ==> c[j].key != key
    ensures node.Some? ==> EntryMap(c)[key] == c[node.value].value
  {
    var curr := 0;
    while curr < |c|
      invariant curr <= |c|
      invariant forall j :: 0 <= j < curr ==> c[j].key != key
    {
      if c[curr].key == key {
        FirstMatchValue(c, curr);
        return Some(curr);
      }
      curr := curr + 1;
    }
    EntryMapKeys(c, key);
    return None;
  }

  /** `LinkedList.insert_at_head`: the new entry becomes the head and shadows its key. */
  function InsertAtHead<V>(c: Chain<V>, e: Entry<V>): (r: Chain<V>)
    ensures |r| == |c| + 1 && r[0] == e
  {
    [e] + c
  }

  /** After `insert_at_head` the chain maps the new key to the new value and is otherwise unchanged. */
  lemma InsertAtHeadMap<V>(c: Chain<V>, e: Entry<V>)
    ensures EntryMap(InsertAtHead(c, e)) == EntryMap(c)[e.key := e.value]
  {
    assert InsertAtHead(c, e)[1..] == c;
  }

  /** A linked list just created for one entry holds that entry alone. */
  lemma SingleEntryChain<V>(e: Entry<V>)
    ensures InsertAtHead([], e) == [e] && UniqueKeys([e])
    ensures EntryMap([e]) == map[e.key := e.value]
    ensures forall x :: x in [e] ==> x == e
  {
    assert [e][1..] == [];
  }

  /**
   * `LinkedList.insert_at_head_or_overwrite`: when an entry with the key exists its node takes
   * the new entry in place and `false` is returned; otherwise the entry goes in at the head
   * and `true` is returned.
   */
  method InsertAtHeadOrOverwrite<V>(c: Chain<V>, e: Entry<V>) returns (r: Chain<V>, inserted: bool)
    ensures inserted <==> e.key !in EntryMap(c)
    ensures inserted ==> r == InsertAtHead(c, e)
    ensures !inserted ==> exists i :: 0 <= i < |c| && c[i].key == e.key && r == c[i := e]
    ensures |r| == |c| + (if inserted then 1 else 0)
    ensures EntryMap(r) == EntryMap(c)[e.key := e.value]
    ensures forall x :: x in r ==> x in c || x == e
    ensures UniqueKeys(c) ==> UniqueKeys(r)
  {
    var existing := Find(c, e.key);
    if existing.Some? {
      OverwriteFirst(c, existing.value, e);
      r, inserted := c[existing.value := e], false;
    } else {
      r, inserted := InsertAtHead(c, e), true;
    }
  }

  /** `r` is `c` with its first entry for `key`, from the head, unlinked. */
  ghost predicate UnlinksFirst<V>(c: Chain<V>, key: Key, r: Chain<V>)
  {
    exists i :: 0 <= i < |c| && c[i].key == key && (forall j :: 0 <= j < i ==> c[j].key != key)
                && r == c[..i] + c[i + 1..]
  }

  /**
   * `LinkedList.delete`, as its authors evidently meant it: unlink the first node whose entry
   * has the key and return that entry, or return none when there is no such node.
   * Two deliberate deviations from the code as written (see `DeleteAsWritten` below):
   * an empty chain yields none instead of dereferencing a missing head, and the scan
   * advances `curr` where the source's `curr.next` leaves it in place.
   */
  method Delete<V>(c: Chain<V>, key: Key) returns (r: Chain<V>, removed: Option<Entry<V>>)
    ensures removed.None? <==> key !in EntryMap(c)
    ensures removed.None? ==> r == c
    ensures removed.Some? ==> exists i :: 0 <= i < |c| && c[i] == removed.value && c[i].key == key
                                        && (forall j :: 0 <= j < i ==> c[j].key != key)
                                        && r == c[..i] + c[i + 1..]
    ensures |r| == |c| - (if removed.Some? then 1 else 0)
    ensures forall x :: x in r ==> x in c
    ensures UniqueKeys(c) ==> UniqueKeys(r) && EntryMap(r) == EntryMap(c) - {key}
  {
    if |c| == 0 {
      return c, None;
    }
    if c[0].key == key {
      r, removed := c[1..], Some(c[0]);
      assert r == c[..0] + c[1..];
      UnlinkFirstMatch(c, key, 0);
      return;
    }
    var prev, curr := 0, 1;
    while curr < |c|
      invariant 1 <= curr <= |c| && prev == curr - 1
      invariant forall j :: 0 <= j < curr ==> c[j].key != key
    {
      if c[curr].key == key {
        // prev.next = curr.next
        r, removed := c[..prev + 1] + c[curr + 1..], Some(c[curr]);
        UnlinkFirstMatch(c, key, curr);
        return;
      }
      prev := curr;
      curr := curr + 1;  // the source's line 80 reads `curr.next` without assigning it
    }
    EntryMapKeys(c, key);
    return c, None;
  }

  /** What `Delete` reports on removing entry `e` is an unlinking of the first entry for `key`. */
  lemma UnlinkedIsFirst<V>(c: Chain<V>, key: Key, r: Chain<V>, e: Entry<V>)
    requires exists i :: 0 <= i < |c| && c[i] == e && c[i].key == key
                         && (forall j :: 0 <= j < i ==> c[j].key != key)
                         && r == c[..i] + c[i + 1..]
    ensures UnlinksFirst(c, key, r) && e.key == key
  {
  }

  /** Unlinking the first entry with the key leaves one entry fewer, all of them from the chain. */
  lemma UnlinkFirstMatch<V>(c: Chain<V>, key: Key, i: nat)
    requires i < |c| && c[i].key == key
    requires forall j :: 0 <= j < i ==> c[j].key != key
    ensures key in EntryMap(c)
    ensures |c[..i] + c[i + 1..]| == |c| - 1
    ensures forall x :: x in c[..i] + c[i + 1..] ==> x in c
    ensures UniqueKeys(c) ==> UniqueKeys(c[..i] + c[i + 1..]) && EntryMap(c[..i] + c[i + 1..]) == EntryMap(c) - {key}
  {
    FirstMatchValue(c, i);
    var r := c[..i] + c[i + 1..];
    forall x | x in r
      ensures x in c
    {
      var k :| 0 <= k < |r| && r[k] == x;
      if k < i {
        assert c[k] == x;
      } else {
        assert c[k + 1] == x;
      }
    }
    if UniqueKeys(c) {
      UnlinkUnique(c, i);
    }
  }

  /**
   * The scan of `LinkedList.delete` exactly as written, one state at a time. `curr` is an
   * index into the chain; `|c|` stands for `None`.
   */
  datatype DeleteState<V> =
    | Crashed                                              // `None.value` raises
    | Returned(chain: Chain<V>, removed: Option<Entry<V>>)
    | Scanning(prev: nat, curr: nat)

  /** Lines 58-69 as written: the head is read with no check that there is one. */
  function DeleteAsWritten<V>(c: Chain<V>, key: Key): DeleteState<V>
  {
    if |c| == 0 then Crashed
    else if c[0].key == key then Returned(c[1..], Some(c[0]))
    else Scanning(0, 1)
  }

  /**
   * One pass of the loop at lines 71-80 as written: a non-matching node moves `prev` up to
   * `curr` and leaves `curr` where it is. A match with `prev` behind `curr` unlinks `curr`;
   * a match with `prev` on `curr` itself makes `prev.next = curr.next` change nothing, and
   * `curr.next = None` then cuts the list off after `curr`.
   */
  function DeleteStepAsWritten<V>(c: Chain<V>, key: Key, prev: nat, curr: nat): DeleteState<V>
    requires prev < curr <= |c| || prev == curr < |c|
  {
    if curr == |c| then Returned(c, None)
    else if c[curr].key == key then
      if prev == curr then Returned(c[..curr + 1], Some(c[curr]))
      else Returned(c[..prev + 1] + c[curr + 1..], Some(c[curr]))
    else Scanning(curr, curr)
  }

  /** An empty linked list, such as deleting its only node leaves behind, crashes the code as written. */
  lemma DeleteAsWrittenCrashesOnEmpty<V>(key: Key)
    ensures DeleteAsWritten<V>([], key) == Crashed
  {
  }

  /**
   * Once the scan meets a non-matching node at position 1 or later, the code as written
   * returns to the same state on every pass: the `while` never ends.
   */
  lemma DeleteAsWrittenNeverEnds<V>(c: Chain<V>, key: Key, curr: nat)
    requires 1 <= curr < |c| && c[curr].key != key
    ensures DeleteStepAsWritten(c, key, curr, curr) == Scanning(curr, curr)
    ensures curr == 1 && c[0].key != key ==>
              DeleteAsWritten(c, key) == Scanning(0, 1) && DeleteStepAsWritten(c, key, 0, 1) == Scanning(1, 1)
  {
  }
}
