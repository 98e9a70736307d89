# Chained hash table and word count

This project models two small sequential components and proves properties of them.

The first is a hash table with string keys and separate chaining (`hashtable/hashtable.py`):
- Each slot holds either `None` or a `LinkedList` of `Node(HashTableEntry(key, value))`.
- A key's slot is its 32-bit DJB2 digest modulo the number of slots.
- `put` either inserts at the head of the chain or overwrites the entry in place.
- `get` looks the key up in its home chain.
- `delete` unlinks the key's entry. It shrinks the table to half its slots when the load factor drops below 0.2.
- `resize` relinks every entry into a fresh slot list.

The second is `word_count` (`applications/word_count/word_count.py`):
- It splits a string on whitespace and drops twenty punctuation characters from each token.
- It lowercases what is left and counts the words.
- It stops at the first token that this leaves empty.

Modules and files:
- `wrappers.dfy`, module `Wrappers`: the `Option` type that stands for Python's `None`, and dictionary lookup.
- `hashing.dfy`, module `Hashing`: `djb2` and `hash_index`. Keys are the byte sequences that `key.encode()` produces.
- `chains.dfy`, module `Chains`: `HashTableEntry` and the `LinkedList` operations. A chain is the sequence of its entries, head first. Entries match by key alone, as `HashTableEntry.__eq__` does.
- `slots.dfy`, module `Slots`: the slot list as a value. It defines the mapping the table holds and the table invariant:
  - every entry sits in the slot its key hashes to;
  - no chain repeats a key;
  - the count is the number of entries.
  It also defines the slot list that `resize` builds.
- `hashtable.dfy`, module `HashTables`: class `HashTable`, whose fields are the slot array and `num_elements`. Its methods update them in place. Each method is proved against the invariant and against the mapping `Contents()`.
- `word_count.dfy`, module `WordCounting`: `word_count` as a method with its two loops and its early `break`. It is proved equal to a specification function, and the counting properties are proved as lemmas about that function.

A slot that has never held a list (`None`) is distinct from one whose list was emptied (`Some([])`). Only the first makes `delete` warn, and the warning is modelled as a returned flag.

## Model

| member | source | states |
|---|---|---|
| Hashing.Unmasked | hashtable/hashtable.py:165-167 | defines the accumulator `hsh` as Python computes it, with unbounded integers: `h*33 + b` folded over the key from 5381 |
| Hashing.Digest | hashtable/hashtable.py:158-169 | the 32-bit DJB2 digest, a fold of `h*33 + b` modulo 2^32 from 5381, is below 2^32 |
| Hashing.MaskAtEnd | hashtable/hashtable.py:164-169 | masking to 32 bits only once at the end, as `djb2` does, gives the same value as masking after every step |
| Hashing.DigestOfEmptyKey | hashtable/hashtable.py:165-169 | the digest of the empty key is 5381 |
| Hashing.Djb2 | hashtable/hashtable.py:158-169 | the loop over the key's bytes with unbounded `hsh`, masked at the return, yields exactly the 32-bit fold, below 2^32 |
| Hashing.HashIndex | hashtable/hashtable.py:172-178 | with at least one slot, the slot index lies in `[0, number of slots)` |
| Chains.EntryMapKeys | hashtable/hashtable.py:10-13 | a chain answers for a key exactly when some entry has an equal key, whatever the values |
| Chains.FirstMatchValue | hashtable/hashtable.py:87-95 | the first entry from the head with a key is the one whose value the chain gives for it |
| Chains.Find | hashtable/hashtable.py:87-95 | returns none exactly when no entry has the key; otherwise returns the first node with it, whose value is what the chain maps the key to |
| Chains.InsertAtHead | hashtable/hashtable.py:40-42 | `insert_at_head`: the new entry becomes the head, in front of the whole old chain, so the chain is one longer |
| Chains.InsertAtHeadMap | hashtable/hashtable.py:40-42 | after a head insertion the chain maps the new key to the new value and every other key as before |
| Chains.SingleEntryChain | hashtable/hashtable.py:202-203 | a fresh list with one inserted node holds that entry alone, which maps its key to its value |
| Chains.OverwriteFirst | hashtable/hashtable.py:47-49 | overwriting the first node with a key changes the chain's mapping at that key only |
| Chains.InsertAtHeadOrOverwrite | hashtable/hashtable.py:46-53 | returns true exactly when the key was absent, and then inserts at the head; otherwise overwrites the matching node in place; the length grows by one exactly on insertion; the key now maps to the new value and nothing else changes; unique keys stay unique |
| Chains.Delete | hashtable/hashtable.py:57-81 | with the two source defects corrected: returns none and leaves the chain alone exactly when the key is absent; otherwise unlinks the first node with the key and returns its entry; the chain loses exactly that key and one node, and keeps all the others |
| Chains.UnlinkUnique | hashtable/hashtable.py:74-77 | unlinking a node from a chain with unique keys keeps the keys unique and drops exactly that node's key from the mapping |
| Chains.UnlinkedIsFirst | hashtable/hashtable.py:71-77 | the entry `delete` reports is the first with the key, and the chain it leaves is the old one with that entry unlinked |
| Chains.UnlinkFirstMatch | hashtable/hashtable.py:74-77 | unlinking the first node with the key leaves one node fewer, all from the chain, and with unique keys drops exactly that key |
| Chains.DeleteAsWritten | hashtable/hashtable.py:58-69 | defines the start of `delete` as written: an empty list crashes; a head match unlinks and returns the head; otherwise the scan starts at `(prev, curr) = (0, 1)` |
| Chains.DeleteStepAsWritten | hashtable/hashtable.py:71-81 | defines one pass of the `while` loop as written: past the end it returns none; a match unlinks `curr` after `prev` and returns it, except that with `prev` on `curr` itself it cuts the list off after `curr`; otherwise `prev` moves up to `curr` and `curr` stays where it is |
| Chains.DeleteAsWrittenCrashesOnEmpty | hashtable/hashtable.py:58-62 | as written, `delete` on an empty linked list reads `value` of a missing head and crashes |
| Chains.DeleteAsWrittenNeverEnds | hashtable/hashtable.py:68-80 | as written, once the scan meets a non-matching node past the head it comes back to the same state on every pass, so the loop never ends |
| Slots.EntriesOfEmpty | hashtable/hashtable.py:115 | a slot list of all `None` holds no entries |
| Slots.InHomeSlot | hashtable/hashtable.py:172-178 | in a table that keeps the invariant, a key's lookup is decided by its home slot's chain alone |
| Slots.Lookup | hashtable/hashtable.py:172-178 | in a placed table, the value found for a key is the one its home slot's chain gives, or none when that slot does not exist |
| Slots.ReplaceSlot | hashtable/hashtable.py:204 | putting into slot `h` a unique-key chain whose keys all hash to `h` keeps the invariant; only keys whose home is `h` are affected |
| Slots.PutIntoSlot | hashtable/hashtable.py:189-205 | writing back the updated home chain keeps the invariant and changes the table's mapping at the key only, to the new value; the entry count changes as the chain's length does |
| Slots.RemoveFromSlot | hashtable/hashtable.py:221-226 | writing back the home chain without the key keeps the invariant and drops exactly that key from the table's mapping; the entry count changes as the chain's length does |
| Slots.UniqueAcrossTable | hashtable/hashtable.py:180-205 | when each chain has unique keys and every entry is in its home slot, no key repeats anywhere in the table |
| Slots.CountIsDistinctKeys | hashtable/hashtable.py:136-146 | in a table that keeps the invariant, the number of entries is the number of distinct keys |
| Slots.EntriesGrow | hashtable/hashtable.py:265-269 | visiting the slots in order visits the entries of each slot, from its head, after those of earlier slots |
| Slots.EmptyTable | hashtable/hashtable.py:261 | the new slot list has the requested number of slots, all `None` |
| Slots.InsertEntry | hashtable/hashtable.py:272-279 | defines linking one node into its home slot: in at the head of the slot's list, a new list when the slot is `None`; the slot count stays the same |
| Slots.Rehash | hashtable/hashtable.py:261-282 | defines the slot list `resize` builds: `n` empty slots, then each entry in visiting order linked into its home slot; it has exactly `n` slots |
| Slots.InsertEntryAddsOne | hashtable/hashtable.py:272-279 | linking one entry into its home slot adds exactly that entry to the table's entries |
| Slots.InsertFreshEntry | hashtable/hashtable.py:272-279 | linking in an entry whose key the table does not hold keeps the invariant and adds exactly that key with its value |
| Slots.RehashSnoc | hashtable/hashtable.py:269-282 | moving one more node is one more link into its home slot |
| Slots.RehashMovesEachEntryOnce | hashtable/hashtable.py:265-282 | the rebuilt slot list holds each moved entry exactly once |
| Slots.RehashKeepsMapping | hashtable/hashtable.py:265-282 | rebuilding from entries with unique keys gives a table that keeps the invariant and holds their mapping |
| Slots.RehashTable | hashtable/hashtable.py:252-282 | rehashing a valid table into any positive number of slots, or into none when it is empty, gives a valid table with the same entries, the same count and the same mapping |
| HashTables.MIN_CAPACITY | hashtable/hashtable.py:99-100 | defines the slot count a new table starts with, 8 |
| HashTables.ShrinkTest | hashtable/hashtable.py:227 | the load-factor test `n / s < 0.2` holds exactly when `5 * n < s` |
| HashTables.CountIsSize | hashtable/hashtable.py:136-146 | the table's `num_elements` is the number of keys it holds |
| HashTables.PutThenGet | hashtable/hashtable.py:180-205 | `get(k)` right after `put(k, v)` returns `v`, whatever the table held |
| HashTables.HashTable.constructor | hashtable/hashtable.py:111-115 | for any requested capacity, the table starts with exactly 8 slots, all `None`, a count of 0 and no keys |
| HashTables.HashTable.NumSlots | hashtable/hashtable.py:118-129 | the number of slots, not of entries |
| HashTables.HashTable.LoadFactor | hashtable/hashtable.py:132-146 | the count divided by the number of slots, computed exactly |
| HashTables.HashTable.Get | hashtable/hashtable.py:232-250 | returns the value the table maps the key to, or none when it holds no entry with that key; the result is none whenever the home slot is `None` |
| HashTables.HashTable.Put | hashtable/hashtable.py:180-205 | keeps the invariant; maps the key to the value and leaves every other key alone; the count rises by one exactly when the key is new; only the home slot changes, a `None` home slot becomes a one-entry list, and a list already there gets the new entry at its head when the key is new and the key's entry overwritten in place otherwise; the slot count never changes |
| HashTables.HashTable.Delete | hashtable/hashtable.py:210-230 | through the corrected `Chains.Delete` (see "## Findings"), so an emptied home list or a long home chain never crashes or hangs: keeps the invariant; warns exactly when the home slot is `None`; drops exactly the key; decrements the count exactly when the key was present; changes nothing when the key is absent; halves the slot count, rounding down, exactly when a removal leaves `5 * count < slots`. It also states the whole new state through the slots just after the unlinking: there, every other slot is as before, and the home chain is the old one with its first entry for the key unlinked. The final slots are those slots, or their rehash after a shrink |
| HashTables.HashTable.ShrinkIfSparse | hashtable/hashtable.py:227-228 | keeps the invariant, the mapping and the count; halves the slot count, rounding down, exactly when `5 * count < slots`; the shrunk slot list is the rehash of the old entries, and without a shrink the slots are untouched |
| HashTables.PutInSlot | hashtable/hashtable.py:191-205 | the home chain gains an entry exactly when the table lacks the key: a `None` slot becomes a one-entry list, an existing list gets the entry at its head, or has the key's entry overwritten at its position; written back, it keeps the invariant, maps the key to the value and holds one entry more exactly when the key was new |
| HashTables.UnlinkInSlot | hashtable/hashtable.py:223-225 | unlinking from the home chain removes something exactly when the table holds the key; the new chain is the old one with its first entry for the key unlinked, one shorter; written back, it keeps the invariant, drops exactly that key and leaves one entry fewer |
| HashTables.HashTable.UnlinkFromSlot | hashtable/hashtable.py:222-226 | unlinking from an existing home chain keeps the invariant; it reports a removal exactly when the key was present; it drops exactly that key, and the count and the chain each shrink by one on removal; the new home chain is the old one with its first entry for the key unlinked, and every other slot is unchanged |
| HashTables.HashTable.Resize | hashtable/hashtable.py:252-282 | yields exactly the requested number of slots in a fresh list; keeps the invariant, the mapping, the count and every entry exactly once; the new slots are the rehash of the old entries in visiting order |
| HashTables.HashTable.MoveSlots | hashtable/hashtable.py:265-282 | the loop over the old slots leaves the new slot list equal to the rehash of all old entries, with the count equal to the number of entries moved |
| HashTables.HashTable.MoveSlot | hashtable/hashtable.py:266-282 | one old slot's chain, or nothing when the slot is `None`, is moved into the new slot list |
| HashTables.HashTable.MoveChain | hashtable/hashtable.py:268-282 | the walk along one old chain links each node in turn into its home slot and counts it |
| HashTables.HashTable.LinkIn | hashtable/hashtable.py:270-282 | one node is linked in at the head of its home slot, creating the list when the slot is `None`, and counted |
| WordCounting.RemovedChars | applications/word_count/word_count.py:3 | defines `removed_char`: the twenty punctuation characters dropped from every token; the apostrophe is not among them |
| WordCounting.IsSpace | applications/word_count/word_count.py:7 | defines the characters `str.split()` splits on, for ASCII: space, tab to carriage return, and 0x1C-0x1F |
| WordCounting.TokenLength | applications/word_count/word_count.py:7 | a token extends to the first whitespace character or the end of the string |
| WordCounting.Split | applications/word_count/word_count.py:7 | every token from splitting is non-empty and free of whitespace |
| WordCounting.SplitKeepsNonSpace | applications/word_count/word_count.py:7 | the tokens, joined back together, are exactly the non-whitespace characters of the string, in order |
| WordCounting.SplitEmpty | applications/word_count/word_count.py:7 | splitting gives no tokens exactly when the string holds only whitespace |
| WordCounting.SplitToken | applications/word_count/word_count.py:7 | a non-empty string with no whitespace splits into just itself |
| WordCounting.SplitAtSpace | applications/word_count/word_count.py:7 | a whitespace character separates: the tokens of `a + [c] + b` are those of `a` followed by those of `b`. With `SplitToken` and `SplitEmpty` this fixes the result on every string, so tokens are the maximal non-whitespace runs |
| WordCounting.RunIs | applications/word_count/word_count.py:7 | the leading run's length is the one its description gives: non-whitespace up to it, whitespace or the end at it |
| WordCounting.Scrubbed | applications/word_count/word_count.py:8-11 | defines the inner loop's result: the token with every character of `removed_char` dropped and the rest kept in order |
| WordCounting.ScrubbedChars | applications/word_count/word_count.py:3-11 | a character survives scrubbing exactly when it is in the token and not in `removed_char` |
| WordCounting.ScrubbedClean | applications/word_count/word_count.py:8-11 | a token with no character of `removed_char` comes out of scrubbing unchanged |
| WordCounting.Scrub | applications/word_count/word_count.py:8-11 | the inner loop builds exactly the scrubbed token |
| WordCounting.LowerChar | applications/word_count/word_count.py:12 | defines ASCII lowercasing of one character: `A`-`Z` become `a`-`z`, every other character is kept |
| WordCounting.Lower | applications/word_count/word_count.py:12 | defines `str.lower()` on ASCII as lowercasing each character; the length is kept |
| WordCounting.LowerIdempotent | applications/word_count/word_count.py:12 | lowercasing twice is lowercasing once |
| WordCounting.LowerKeepsRemoved | applications/word_count/word_count.py:3-12 | lowercasing neither brings in nor removes a character of `removed_char` |
| WordCounting.Normalize | applications/word_count/word_count.py:8-12 | defines the word a token counts as: scrubbed of `removed_char`, then lowercased; it is never longer than the token |
| WordCounting.NormalizeClean | applications/word_count/word_count.py:3-12 | a counted word holds no character of `removed_char` and is its own lowercase form |
| WordCounting.StopIndex | applications/word_count/word_count.py:14-17 | the loop counts exactly the tokens before the first one whose word is empty |
| WordCounting.StopIndexUnique | applications/word_count/word_count.py:16-17 | the stopping point is the only position before which every word is non-empty and at which the word is empty or the tokens end |
| WordCounting.StopIgnoresLaterTokens | applications/word_count/word_count.py:16-17 | once a token's word is empty, no later token matters, whatever it holds |
| WordCounting.Bump | applications/word_count/word_count.py:14-19 | counting a word adds it as a key, raises its count by one or starts it at one, and leaves every other count alone |
| WordCounting.Tally | applications/word_count/word_count.py:14-19 | defines the dictionary the loop builds: the words of the tokens bumped one after another, from the first |
| WordCounting.TallyIsMultiplicity | applications/word_count/word_count.py:14-19 | a word is a key exactly when it occurs among the counted tokens' words, and its count is its number of occurrences |
| WordCounting.CountToken | applications/word_count/word_count.py:8-19 | one pass of the loop body: it breaks exactly when the word is empty, and otherwise counts the word, without ever adding the empty word |
| WordCounting.CountWords | applications/word_count/word_count.py:2-24 | defines the result of `word_count`: the counts of the words of the tokens before the first token whose word is empty |
| WordCounting.WordCount | applications/word_count/word_count.py:2-24 | the method with its loops and `break` returns exactly the dictionary of counts of the words before the stopping point |
| WordCounting.BlankGivesNothing | applications/word_count/word_count.py:5-7 | an empty or all-whitespace string gives `{}` |
| WordCounting.CountWordsKeys | applications/word_count/word_count.py:3-19 | every key is a non-empty word that holds no character of `removed_char`, equals its own lowercase form and has count at least 1 |
| WordCounting.CountWordsCounts | applications/word_count/word_count.py:7-19 | each count is the number of tokens before the stop whose word is the key; these occurrences number exactly the counted tokens, so the counts sum to that number |
| WordCounting.ApostropheKept | applications/word_count/word_count.py:3 | the apostrophe is not removed: `doesn't` is counted as `doesn't` |

## Left out

- `HashTable.fnv1` is a stub that returns nothing, so there is nothing to model.
- Every `__repr__` and both `__main__` demo blocks are left out. They only format and print.
- The warning `delete` prints is not modelled as output. `HashTable.Delete` returns it as the flag `warned`.
- Pointer rewiring and node identity are not modelled:
  - A `LinkedList` is a value, the sequence of its entries from the head.
  - `put`, `delete` and `resize` compute the new chain and write it back into the slot.
  - The model does not capture that `resize` reuses the old `Node` objects, and it does not capture aliasing between lists.
- Floating point is not modelled. The load factor is an exact rational. `HashTables.ShrinkTest` shows that the test `< 0.2` is `5 * n < s`.
  - The float test `n / s < 0.2` gives the same answer as `5 * n < s` while `s` stays below about 2^56. When `5 * n < s`, the exact quotient sits at least `1 / (5 * s)` below 0.2, more than the rounding error of the division and of the constant `0.2`; when `5 * n >= s`, the exact quotient is at least 0.2 and rounding cannot take it below the constant.
- `HashTables.HashTable.Get` returns `Option<V>`, which keeps a stored value apart from an absent key for every value. In the source, `get` returns `node.value.value`, so a key stored with the value `None` reads back as `None`, the same as an absent key.
- `HashTables.HashTable.Resize` takes a natural number. `delete` passes `get_num_slots() / 2`, a float that `int()` truncates, and the model passes the floor quotient, which equals it.
- The `self.capacity` field is not modelled. It is read only at hashtable/hashtable.py:115, to size the initial list, and the model uses `MIN_CAPACITY` there in its place. Nothing reads it after `__init__`, and `resize` never updates it.
- `key.encode()` is not modelled. Keys are given as their UTF-8 byte sequences.
- `str.split()` and `str.lower()` are modelled on ASCII only:
  - whitespace is space, tab to carriage return, and `\x1c` to `\x1f`;
  - lowercasing maps `A`-`Z` to `a`-`z`.
  - Unicode whitespace and case mapping are not modelled.
- The test `word == " "` at applications/word_count/word_count.py:16 is not modelled separately. No token contains a space (`WordCounting.Split`), and no word is longer than its token. So the test could only be true for `" "`, which is never a word.
- The `if s == ""` test at the end of `word_count` is modelled. It returns the same `{}` the loop produces.
- No minimum slot count is claimed. The comment beside `MIN_CAPACITY` promises at least 8 slots, but `delete` keeps halving the table, down to 0 slots.
  - `Get`, `Put` and `Delete` require at least one slot: `hash_index` divides by the slot count.
  - `Resize` requires at least one slot unless the table is empty.
- The eight methods `PutInSlot`, `UnlinkInSlot`, `HashTable.UnlinkFromSlot`, `ShrinkIfSparse`, `MoveSlots`, `MoveSlot`, `MoveChain` and `LinkIn` have no counterpart functions in the source. They are the bodies and loops of `put`, `delete` and `resize`, split out so that each part is proved on its own.
- `WordCounting.CountWordsCounts` does not compute the sum of the counts directly. It states that the counts are the multiplicities of a multiset, and that this multiset's size is the number of counted tokens.

## Findings

| source | as written | input that shows it | evidently intended | confidence | as-written member | corrected member |
|---|---|---|---|---|---|---|
| hashtable/hashtable.py:80 | the `else` branch evaluates `curr.next` and discards it, so `curr` never advances | deleting a key that is absent from a chain of two entries, e.g. chain `[("x", 1), ("y", 2)]` and key `"z"`; the scan then stays on `"y"` forever | `curr = curr.next` | high; not executed | Chains.DeleteAsWrittenNeverEnds | Chains.Delete |
| hashtable/hashtable.py:62 | `curr.value` is read with no test that the list has a head | 8 slots; put three keys with different home slots; delete one of them twice. The first delete leaves an empty list in its slot and does not shrink, since 5 * 2 is not below 8. The second delete finds that slot not `None` and reads the missing head | return none for an empty list | high; not executed | Chains.DeleteAsWrittenCrashesOnEmpty | Chains.Delete |
