/**
 * The slot list `hash_table` as a value: what `put`, `get`, `delete` and `resize` do to it,
 * and the invariant they keep.
 */
module Slots {
  import opened Wrappers
  import opened Hashing
  import opened Chains

  /** A slot is `None` until a linked list is created for it; an emptied list stays `Some([])`. */
  type Table<V> = seq<Option<Chain<V>>>

  function ChainOf<V>(slot: Option<Chain<V>>): Chain<V>
  {
    if slot.Some? then slot.value else []
  }

  /** Every entry of the table, slot 0 first and each chain from its head: the order `resize` visits them in. */
  function Entries<V>(t: Table<V>): seq<Entry<V>>
  {
    if |t| == 0 then [] else Entries(t[..|t| - 1]) + ChainOf(t[|t| - 1])
  }

  /** The key-to-value mapping the table holds. */
  function TableMap<V>(t: Table<V>): map<Key, V>
  {
    EntryMap(Entries(t))
  }

  /** Every entry sits in the slot its key hashes to among `n` slots. */
  predicate Placed<V>(t: Table<V>, n: nat)
  {
    forall i :: 0 <= i < |t| ==> ChainPlaced(ChainOf(t[i]), n, i)
  }

  /** Every key of the chain hashes to slot `h` among `n` slots. */
  predicate ChainPlaced<V>(c: Chain<V>, n: nat, h: nat)
  {
    forall j :: 0 <= j < |c| ==> n > 0 && HashIndex(c[j].key, n) == h
  }

  predicate ChainsUnique<V>(t: Table<V>)
  {
    forall i :: 0 <= i < |t| ==> UniqueKeys(ChainOf(t[i]))
  }

  /** The table invariant: entries are in their home slots and no chain repeats a key. */
  predicate TableInvariant<V>(t: Table<V>)
  {
    Placed(t, |t|) && ChainsUnique(t)
  }

  /** Dropping the last slot keeps the rest of the table placed and free of repeated keys. */
  lemma {:induction false} PrefixInvariant<V>(t: Table<V>, n: nat)
    requires |t| > 0
    ensures Placed(t, n) ==> Placed(t[..|t| - 1], n)
    ensures ChainsUnique(t) ==> ChainsUnique(t[..|t| - 1])
  {
    var p := t[..|t| - 1];
    assert forall i :: 0 <= i < |p| ==> p[i] == t[i];
  }

  lemma {:induction false} EntriesOfEmpty<V>(t: Table<V>)
    requires forall i :: 0 <= i < |t| ==> t[i] == None
    ensures Entries(t) == []
  {
    if |t| > 0 {
      EntriesOfEmpty(t[..|t| - 1]);
    }
  }

  /** The entries of the slots before `i`, then those of slot `i`, begin the table's entries. */
  lemma {:induction false} EntriesGrow<V>(t: Table<V>, i: nat)
    requires i < |t|
    ensures Entries(t[..i + 1]) == Entries(t[..i]) + ChainOf(t[i])
    ensures Entries(t[..i + 1]) <= Entries(t)
  {
    assert t[..i + 1][..i] == t[..i];
    if i + 1 < |t| {
      EntriesGrow(t[..|t| - 1], i);
      assert t[..|t| - 1][..i + 1] == t[..i + 1];
      assert t[..|t| - 1][..i] == t[..i];
    } else {
      assert t[..i + 1] == t;
    }
  }

  /** Every entry of a placed table hashes to a slot the table has. */
  lemma {:induction false} EntriesHashBelow<V>(t: Table<V>, n: nat, x: Entry<V>)
    requires Placed(t, n) && x in Entries(t)
    ensures n > 0 && HashIndex(x.key, n) < |t|
  {
    assert |t| > 0;
    var p, c := t[..|t| - 1], ChainOf(t[|t| - 1]);
    PrefixInvariant(t, n);
    if x in Entries(p) {
      EntriesHashBelow(p, n, x);
    } else {
      var j :| 0 <= j < |c| && c[j] == x;
    }
  }

  /** A lookup in a placed table only ever involves the key's home slot. */
  lemma {:induction false} Lookup<V>(t: Table<V>, n: nat, k: Key)
    requires n > 0 && |t| <= n && Placed(t, n)
    ensures MapGet(TableMap(t), k) ==
              if HashIndex(k, n) < |t| then MapGet(EntryMap(ChainOf(t[HashIndex(k, n)])), k) else None
  {
    if |t| > 0 {
      var p, c := t[..|t| - 1], ChainOf(t[|t| - 1]);
      var h := HashIndex(k, n);
      PrefixInvariant(t, n);
      Lookup(p, n, k);
      EntryMapAppend(Entries(p), c);
      MapGetOfUnion(EntryMap(Entries(p)), EntryMap(c), k);
      if h != |t| - 1 {
        assert ChainPlaced(c, n, |t| - 1);
        AbsentFromOtherChain(c, n, |t| - 1, k);
        if h < |p| {
          assert p[h] == t[h];
        }
      }
    }
  }

  /** A key whose home is not slot `h` is absent from a chain placed in slot `h`. */
  lemma AbsentFromOtherChain<V>(c: Chain<V>, n: nat, h: nat, k: Key)
    requires ChainPlaced(c, n, h) && n > 0 && HashIndex(k, n) != h
    ensures k !in EntryMap(c)
  {
    EntryMapKeys(c, k);
  }

  /** A lookup in `a + b` answers from `b` when `b` holds the key, and from `a` otherwise. */
  lemma MapGetOfUnion<K, V>(a: map<K, V>, b: map<K, V>, k: K)
    ensures MapGet(b + a, k) == if k in a then Some(a[k]) else MapGet(b, k)
  {
  }

  /** Replacing one slot's chain changes the multiset of entries by exactly the two chains. */
  lemma {:induction false} EntriesReplace<V>(t: Table<V>, h: nat, x: Option<Chain<V>>)
    requires h < |t|
    ensures multiset(Entries(t[h := x])) + multiset(ChainOf(t[h])) == multiset(Entries(t)) + multiset(ChainOf(x))
  {
    var n, t' := |t|, t[h := x];
    var p, p' := t[..n - 1], t'[..n - 1];
    var last, last' := ChainOf(t[n - 1]), ChainOf(t'[n - 1]);
    assert Entries(t) == Entries(p) + last;
    assert Entries(t') == Entries(p') + last';
    if h == n - 1 {
      assert p' == p;
    } else {
      assert p' == p[h := x] && p[h] == t[h] && last' == last;
      EntriesReplace(p, h, x);
      AddBoth(multiset(Entries(p')), multiset(ChainOf(t[h])), multiset(Entries(p)), multiset(ChainOf(x)), multiset(last));
    }
  }

  lemma MultisetOfSnoc<T>(s: seq<T>)
    requires |s| > 0
    ensures multiset(s) == multiset(s[..|s| - 1]) + multiset{s[|s| - 1]}
  {
    assert s == s[..|s| - 1] + [s[|s| - 1]];
  }

  lemma CancelRight<T>(a: multiset<T>, t: multiset<T>, x: multiset<T>, c: multiset<T>)
    requires a + c == t + (x + c)
    ensures a == t + x
  {
    forall y
      ensures a[y] == (t + x)[y]
    {
      assert (a + c)[y] == (t + (x + c))[y];
    }
  }

  lemma AddBoth<T>(a: multiset<T>, b: multiset<T>, c: multiset<T>, d: multiset<T>, l: multiset<T>)
    requires a + b == c + d
    ensures (a + l) + b == (c + l) + d
  {
    forall x
      ensures ((a + l) + b)[x] == ((c + l) + d)[x]
    {
      assert (a + b)[x] == (c + d)[x];
    }
  }

  /** Putting a chain whose keys all hash to `h` into slot `h` keeps every other key's lookup. */
  lemma {:induction false} ReplaceSlot<V>(t: Table<V>, h: nat, c': Chain<V>, k: Key)
    requires TableInvariant(t) && h < |t| && UniqueKeys(c') && ChainPlaced(c', |t|, h)
    ensures TableInvariant(t[h := Some(c')])
    ensures MapGet(TableMap(t[h := Some(c')]), k) ==
              if HashIndex(k, |t|) == h then MapGet(EntryMap(c'), k) else MapGet(TableMap(t), k)
  {
    var t' := t[h := Some(c')];
    forall i | 0 <= i < |t'|
      ensures ChainPlaced(ChainOf(t'[i]), |t|, i) && UniqueKeys(ChainOf(t'[i]))
    {
      if i != h {
        assert t'[i] == t[i];
      }
    }
    Lookup(t, |t|, k);
    Lookup(t', |t|, k);
  }

  /** A key is held exactly when its home slot's chain holds it. */
  lemma {:induction false} InHomeSlot<V>(t: Table<V>, k: Key)
    requires TableInvariant(t) && |t| > 0
    ensures MapGet(TableMap(t), k) == MapGet(EntryMap(ChainOf(t[HashIndex(k, |t|)])), k)
  {
    Lookup(t, |t|, k);
  }

  /** Storing `v` under `k` in `k`'s home slot updates the table's mapping at `k` and nowhere else. */
  lemma {:induction false} PutIntoSlot<V>(t: Table<V>, h: nat, k: Key, v: V, c': Chain<V>)
    requires TableInvariant(t) && |t| > 0 && h == HashIndex(k, |t|)
    requires UniqueKeys(c') && forall x :: x in c' ==> x in ChainOf(t[h]) || x.key == k
    requires EntryMap(c') == EntryMap(ChainOf(t[h]))[k := v]
    ensures TableInvariant(t[h := Some(c')])
    ensures TableMap(t[h := Some(c')]) == TableMap(t)[k := v]
    ensures |Entries(t[h := Some(c')])| + |ChainOf(t[h])| == |Entries(t)| + |c'|
  {
    var t' := t[h := Some(c')];
    forall j | 0 <= j < |c'|
      ensures HashIndex(c'[j].key, |t|) == h
    {
      assert c'[j] in c';
    }
    assert ChainPlaced(c', |t|, h);
    forall k2
      ensures MapGet(TableMap(t'), k2) == MapGet(TableMap(t)[k := v], k2)
    {
      ReplaceSlot(t, h, c', k2);
      InHomeSlot(t, k2);
    }
    ReplaceSlot(t, h, c', k);
    MapGetExtensional(TableMap(t'), TableMap(t)[k := v]);
    EntriesReplace(t, h, Some(c'));
    assert |multiset(Entries(t')) + multiset(ChainOf(t[h]))| == |multiset(Entries(t)) + multiset(c')|;
  }

  /** Dropping `k` from its home slot's chain drops it from the table's mapping and nothing else. */
  lemma {:induction false} RemoveFromSlot<V>(t: Table<V>, h: nat, k: Key, c': Chain<V>)
    requires TableInvariant(t) && |t| > 0 && h == HashIndex(k, |t|)
    requires UniqueKeys(c') && forall x :: x in c' ==> x in ChainOf(t[h])
    requires EntryMap(c') == EntryMap(ChainOf(t[h])) - {k}
    ensures TableInvariant(t[h := Some(c')])
    ensures TableMap(t[h := Some(c')]) == TableMap(t) - {k}
    ensures |Entries(t[h := Some(c')])| + |ChainOf(t[h])| == |Entries(t)| + |c'|
  {
    var t' := t[h := Some(c')];
    forall j | 0 <= j < |c'|
      ensures HashIndex(c'[j].key, |t|) == h
    {
      assert c'[j] in ChainOf(t[h]);
    }
    assert ChainPlaced(c', |t|, h);
    forall k2
      ensures MapGet(TableMap(t'), k2) == MapGet(TableMap(t) - {k}, k2)
    {
      ReplaceSlot(t, h, c', k2);
      InHomeSlot(t, k2);
    }
    ReplaceSlot(t, h, c', k);
    MapGetExtensional(TableMap(t'), TableMap(t) - {k});
    EntriesReplace(t, h, Some(c'));
    assert |multiset(Entries(t')) + multiset(ChainOf(t[h]))| == |multiset(Entries(t)) + multiset(c')|;
  }

  /** Keys are unique across the whole table, not just within each chain. */
  lemma {:induction false} UniqueAcrossTable<V>(t: Table<V>, n: nat)
    requires Placed(t, n) && ChainsUnique(t)
    ensures UniqueKeys(Entries(t))
  {
    if |t| > 0 {
      var p, c := t[..|t| - 1], ChainOf(t[|t| - 1]);
      PrefixInvariant(t, n);
      UniqueAcrossTable(p, n);
      var es := Entries(t);
      assert es == Entries(p) + c;
      forall i, j | 0 <= i < j < |es|
        ensures es[i].key != es[j].key
      {
        if j >= |Entries(p)| && i < |Entries(p)| {
          EntriesHashBelow(p, n, es[i]);
          assert es[j] == c[j - |Entries(p)|];
        }
      }
    }
  }

  /** The count kept by the table is the number of distinct keys it holds. */
  lemma {:induction false} CountIsDistinctKeys<V>(t: Table<V>)
    requires TableInvariant(t)
    ensures |TableMap(t)| == |Entries(t)|
  {
    UniqueAcrossTable(t, |t|);
    UniqueSize(Entries(t));
  }

  function EmptyTable<V>(n: nat): (t: Table<V>)
    ensures |t| == n && forall i :: 0 <= i < n ==> t[i] == None
  {
    seq(n, i => None)
  }

  /**
   * Lines 272-279 of `resize` on one node: link the entry in at the head of its home slot's
   * chain, creating the chain if the slot is still `None`.
   */
  function InsertEntry<V>(t: Table<V>, e: Entry<V>): (t': Table<V>)
    requires |t| > 0
    ensures |t'| == |t|
  {
    var h := HashIndex(e.key, |t|);
    t[h := Some(InsertAtHead(ChainOf(t[h]), e))]
  }

  /** The slots `resize` builds: `n` empty slots, then each entry of `es` in turn linked into its home slot. */
  function Rehash<V>(n: nat, es: seq<Entry<V>>): (t: Table<V>)
    requires n > 0 || |es| == 0
    ensures |t| == n
  {
    if |es| == 0 then EmptyTable(n) else InsertEntry(Rehash(n, es[..|es| - 1]), es[|es| - 1])
  }

  /** One more entry for `resize` to move is one more `InsertEntry`. */
  lemma RehashSnoc<V>(n: nat, es: seq<Entry<V>>, e: Entry<V>)
    requires n > 0
    ensures Rehash(n, es + [e]) == InsertEntry(Rehash(n, es), e)
  {
    assert (es + [e])[..|es|] == es;
  }

  /** Taking one more element of `c` after `p` appends that element. */
  lemma AppendOneMore<T>(p: seq<T>, c: seq<T>, j: nat)
    requires j < |c|
    ensures p + c[..j + 1] == (p + c[..j]) + [c[j]]
  {
    assert c[..j + 1] == c[..j] + [c[j]];
  }

  /** Linking an entry into its home slot adds exactly that entry to the table. */
  lemma {:induction false} InsertEntryAddsOne<V>(t: Table<V>, e: Entry<V>)
    requires |t| > 0
    ensures multiset(Entries(InsertEntry(t, e))) == multiset(Entries(t)) + multiset{e}
  {
    var h := HashIndex(e.key, |t|);
    var c := ChainOf(t[h]);
    EntriesReplace(t, h, Some(InsertAtHead(c, e)));
    assert multiset(InsertAtHead(c, e)) == multiset{e} + multiset(c) by {
      assert InsertAtHead(c, e) == [e] + c;
    }
    CancelRight(multiset(Entries(InsertEntry(t, e))), multiset(Entries(t)), multiset{e}, multiset(c));
  }

  /** Rehashing moves every entry exactly once. */
  lemma {:induction false} RehashMovesEachEntryOnce<V>(n: nat, es: seq<Entry<V>>)
    requires n > 0 || |es| == 0
    ensures multiset(Entries(Rehash(n, es))) == multiset(es)
  {
    if |es| == 0 {
      EntriesOfEmpty(EmptyTable<V>(n));
    } else {
      var p, e := es[..|es| - 1], es[|es| - 1];
      RehashMovesEachEntryOnce(n, p);
      InsertEntryAddsOne(Rehash(n, p), e);
      MultisetOfSnoc(es);
    }
  }

  /** Linking in an entry whose key the table does not hold adds exactly that key. */
  lemma {:induction false} InsertFreshEntry<V>(t: Table<V>, e: Entry<V>)
    requires TableInvariant(t) && |t| > 0 && e.key !in TableMap(t)
    ensures TableInvariant(InsertEntry(t, e))
    ensures TableMap(InsertEntry(t, e)) == TableMap(t)[e.key := e.value]
  {
    var h := HashIndex(e.key, |t|);
    var c := ChainOf(t[h]);
    InHomeSlot(t, e.key);
    EntryMapKeys(c, e.key);
    var c' := InsertAtHead(c, e);
    assert UniqueKeys(c');
    PutIntoSlot(t, h, e.key, e.value, c');
  }

  /** In a sequence with unique keys, the last key does not occur before it. */
  lemma {:induction false} LastKeyFresh<V>(es: seq<Entry<V>>)
    requires |es| > 0 && UniqueKeys(es)
    ensures es[|es| - 1].key !in EntryMap(es[..|es| - 1])
  {
    var p := es[..|es| - 1];
    EntryMapKeys(p, es[|es| - 1].key);
  }

  lemma {:induction false} EntryMapSnoc<V>(p: seq<Entry<V>>, e: Entry<V>)
    requires e.key !in EntryMap(p)
    ensures EntryMap(p + [e]) == EntryMap(p)[e.key := e.value]
  {
    EntryMapAppend(p, [e]);
    assert EntryMap([e]) == map[e.key := e.value];
  }

  /** Rehashing entries with unique keys into `n` slots yields a valid table with their mapping. */
  lemma {:induction false} RehashKeepsMapping<V>(n: nat, es: seq<Entry<V>>)
    requires n > 0 || |es| == 0
    requires UniqueKeys(es)
    ensures TableInvariant(Rehash(n, es))
    ensures TableMap(Rehash(n, es)) == EntryMap(es)
  {
    if |es| == 0 {
      EntriesOfEmpty(EmptyTable<V>(n));
    } else {
      var p, e := es[..|es| - 1], es[|es| - 1];
      assert es == p + [e];
      assert UniqueKeys(p);
      RehashKeepsMapping(n, p);
      LastKeyFresh(es);
      InsertFreshEntry(Rehash(n, p), e);
      EntryMapSnoc(p, e);
    }
  }

  /** `resize` in one statement: rehashing a valid table gives a valid table with the same entries and mapping. */
  lemma {:induction false} RehashTable<V>(t: Table<V>, n: nat)
    requires TableInvariant(t)
    requires n > 0 || |Entries(t)| == 0
    ensures TableInvariant(Rehash(n, Entries(t)))
    ensures multiset(Entries(Rehash(n, Entries(t)))) == multiset(Entries(t))
    ensures |Entries(Rehash(n, Entries(t)))| == |Entries(t)|
    ensures TableMap(Rehash(n, Entries(t))) == TableMap(t)
  {
    UniqueAcrossTable(t, |t|);
    RehashMovesEachEntryOnce(n, Entries(t));
    RehashKeepsMapping(n, Entries(t));
    assert |multiset(Entries(Rehash(n, Entries(t))))| == |Entries(Rehash(n, Entries(t)))|;
  }
}
