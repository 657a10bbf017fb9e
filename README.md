# SimpleLRU in Dafny

This project models `Afina::Backend::SimpleLRU`. It is a key/value cache bounded by total bytes: each entry costs `key.size() + value.size()`, and the cache evicts the least recently used entry exactly. The cache keeps two structures in step:

- a doubly linked recency list (`_lru_head` and `_lru_tail`, node `prev` and `next`, most recent first);
- an index `_lru_index` from key to node.

A byte counter `_cur_size` is checked against the capacity `_max_size`.

The project has three modules.

- `LruModel` (`lru_model.dfy`) is the recency list as a value: a `seq<Entry>`, head first. It defines one function per primitive, and the lemmas prove what each primitive promises.
  - `EvictUntil` is the eviction loop of `addNode`, and `Admit` is `addNode`.
  - `Remove` is `deleteNode`.
  - `Touch` is `moveToHead`.
  - `EvictOthers`, `SetValue` and `Replace` are `changeNode` as intended.
- `SimpleLruCache` (`simple_lru.dfy`) is the class `SimpleLRU` with the fields of the C++ class.
  - The nodes live in an arena: a map from slot numbers to `Node(key, value, prev, next)`. A `Link` is a nullable slot pointer.
  - `head`, `tail`, `index`, `curSize` and the constant `maxSize` are the other fields.
  - A ghost `order` lists the slots from head to tail.
  - The invariant `Valid()` says four things. The list is well linked (the head has no `prev`, the tail has no `next`, neighbours point at each other). The index maps exactly the list's keys to their nodes. Each key appears once. `curSize` is the total size of the entries and is at most `maxSize`.
  - Every method is proved against the `LruModel` function of the recency list it leaves behind (`Entries() == Touch(old(Entries()), k)`, and so on).
  - The pointer surgery of each primitive is written on values in a step method (`DeleteNodeIn`, `AddNodeIn`, `MoveTailIn`, `WriteValueIn`), which branches exactly as the source does. The class methods store the new state into the fields.
- `ChangeNodeAsWritten` (`change_node_as_written.dfy`) is `changeNode` and `Set` as written, with `size_t` arithmetic. That includes the `moveToHead` they end with: for an interior node, `deleteNode` followed by `PutIfAbsent`, with its size check and `addNode`'s eviction loop, on the counter as it stands. It exhibits the defects listed under Findings. The rest of the model uses the corrected behaviour.

`moveToHead` could relink an interior node in place. The code instead deletes it and puts its pair back with `PutIfAbsent` (`src/storage/SimpleLRU.cpp:145-150`), and `SimpleLRU.Reinsert` models exactly that. `LruModel.ReinsertIsTouch` proves that the result is the same list as promoting the entry, and that nothing is evicted on the way.

## Model

| member | source | states |
|---|---|---|
| SimpleLruCache.SimpleLRU.Put | src/storage/SimpleLRU.cpp:7-22 | Succeeds exactly when key and value together fit the capacity. Then the key's old entry is gone and the pair is admitted at the head, evicting from the tail. On failure nothing changes. The invariant is kept. |
| SimpleLruCache.SimpleLRU.PutIfAbsent | src/storage/SimpleLRU.cpp:25-40 | Succeeds exactly when the pair fits and the key is absent. Then the pair is admitted at the head. Otherwise nothing changes. |
| SimpleLruCache.SimpleLRU.Set | src/storage/SimpleLRU.cpp:43-52 | Succeeds exactly when the key is present and the pair fits (corrected, see Findings). Then the result is the same as Put's. Otherwise nothing changes, so an absent key stays absent. |
| SimpleLruCache.SimpleLRU.Delete | src/storage/SimpleLRU.cpp:55-65 | Returns true exactly when the key is present. The new list is the old one without the key. An absent key leaves everything unchanged. |
| SimpleLruCache.SimpleLRU.Get | src/storage/SimpleLRU.cpp:68-79 | Returns true exactly when the key is present. The value returned is the stored one, and the entry is promoted to the head. An absent key changes nothing. |
| SimpleLruCache.SimpleLRU.AddNode | src/storage/SimpleLRU.cpp:81-106 | For an absent key whose pair fits: evict from the tail until the pair fits, put it at the head, index it and charge its bytes. The result is `Admit` of the old list, and the invariant holds. |
| SimpleLruCache.SimpleLRU.MakeRoom | src/storage/SimpleLRU.cpp:85-89 | The loop deletes the tail node while the free room is below the need. The result is `EvictUntil` of the old list, and no key enters the index. |
| SimpleLruCache.SimpleLRU.DeleteNode | src/storage/SimpleLRU.cpp:108-129 | Deletes any node (sole, tail, head or interior). Exactly that key leaves the list and the index. Its bytes are freed, and the other entries keep their order. |
| SimpleLruCache.SimpleLRU.MoveToHead | src/storage/SimpleLRU.cpp:131-153 | The node's key was in the list, and the new list is `Touch` of the old one: that entry first, the rest in their old order. |
| SimpleLruCache.SimpleLRU.HeadStays | src/storage/SimpleLRU.cpp:133-137 | For the sole node or the head, promoting changes nothing. |
| SimpleLruCache.SimpleLRU.MoveTail | src/storage/SimpleLRU.cpp:139-143 | Relinking the tail node in front of the head gives `Touch` of the old list. |
| SimpleLruCache.SimpleLRU.Reinsert | src/storage/SimpleLRU.cpp:145-150 | Deleting an interior node and putting its pair back with PutIfAbsent gives `Touch` of the old list. |
| SimpleLruCache.SimpleLRU.EvictOthersFor | src/storage/SimpleLRU.cpp:159-165 | The eviction loop of changeNode (corrected). It ends with `EvictOthers` of the old list. The key stays indexed at the same node. |
| SimpleLruCache.SimpleLRU.ChangeNode | src/storage/SimpleLRU.cpp:155-169 | changeNode (corrected): evict others, write the value, charge the growth, promote. The result is `Replace` of the old list, and the invariant, byte counter included, holds. |
| SimpleLruCache.SimpleLRU.TailVictim | src/storage/SimpleLRU.cpp:161-164 | The node the corrected loop deletes holds the model's `Victim`. That is the tail, or its predecessor when the tail is the node being updated. |
| SimpleLruCache.DeleteNodeIn | src/storage/SimpleLRU.cpp:108-129 | The four unlinking branches keep the list well linked and indexed. The key leaves the index, the list is `Remove`d, and the counter drops by the entry's size. |
| SimpleLruCache.AddNodeIn | src/storage/SimpleLRU.cpp:91-104 | Both linking branches (empty list, non-empty list) keep the invariant. The new entry is at the head, and the index gains the key. |
| SimpleLruCache.MoveTailIn | src/storage/SimpleLRU.cpp:139-152 | The tail relinking keeps the invariant and puts the last entry first. |
| SimpleLruCache.WriteValueIn | src/storage/SimpleLRU.cpp:167 | Overwriting the node's value is `SetValue` on the list. The counter moves by the change in size, so the invariant holds. |
| SimpleLruCache.DeleteNodeState | src/storage/SimpleLRU.cpp:110-127 | After unlinking position i, the head and tail are as the branches say. The view is `Remove` of the key, and its size drops by the entry's size. |
| SimpleLruCache.AddNodeState | src/storage/SimpleLRU.cpp:91-103 | After prepending, the new slot is the head, the tail is unchanged unless the list was empty, and the view gains the entry at the front. |
| SimpleLruCache.MoveTailState | src/storage/SimpleLRU.cpp:139-143 | After promoting the tail, the old tail is the head and its predecessor the tail. The view is the last entry followed by the others, with the same size. |
| SimpleLruCache.WriteValueState | src/storage/SimpleLRU.cpp:167 | After the write, the links and index are intact. The view is `SetValue`, and its size moves by the difference in value lengths. |
| SimpleLruCache.TailIsTouch | src/storage/SimpleLRU.cpp:139-143 | Promoting the tail node's key is putting the last entry first. |
| LruModel.Lookup | src/storage/SimpleLRU.cpp:70-75 | Finds nothing exactly when the key is absent. |
| LruModel.LookupAt | src/storage/SimpleLRU.cpp:75 | With each key once, the value found is the entry's own. |
| LruModel.Remove | src/storage/SimpleLRU.cpp:108-129 | The keys lose exactly k. The list shrinks if k was there and is unchanged otherwise, and still has each key once. |
| LruModel.RemoveAt | src/storage/SimpleLRU.cpp:125-127 | Removing the key at position i cuts out that entry and keeps the rest in order. |
| LruModel.RemoveKeepsInvariant | src/storage/SimpleLRU.cpp:110-111 | Removing keeps the invariant and frees exactly the entry's bytes. Every other key's value is unchanged. |
| LruModel.RemoveIsIdempotent | src/storage/SimpleLRU.cpp:57-60 | After a removal the key is absent, and removing it again changes nothing, so a second Delete reports false. |
| LruModel.EvictUntil | src/storage/SimpleLRU.cpp:85-89 | The result is a prefix of the list whose free room fits the need. It is the longest such prefix: one more entry would not fit. |
| LruModel.EvictUntilFits | src/storage/SimpleLRU.cpp:85 | When the need already fits, nothing is evicted. |
| LruModel.EvictTail | src/storage/SimpleLRU.cpp:86-88 | While the need does not fit, the list is non-empty. Deleting its tail key shortens it and leads to the same eviction result. |
| LruModel.Admit | src/storage/SimpleLRU.cpp:81-106 | addNode on the recency list: the result never exceeds the capacity. |
| LruModel.AdmitKeepsInvariant | src/storage/SimpleLRU.cpp:81-106 | Admitting an absent key keeps each key once and the size within capacity. The pair is first and found by Lookup. The rest is a prefix of the old list, and the size grows by the pair's bytes over the kept prefix. |
| LruModel.EvictionOrderExample | src/storage/SimpleLRU.cpp:85-89 | With capacity 10 holding c, b and a, admitting d/"4444" evicts a and then b, leaving d and c with 9 bytes. |
| LruModel.ReinsertIsTouch | src/storage/SimpleLRU.cpp:145-150 | Deleting an entry and admitting it again evicts nothing and equals promoting it. |
| LruModel.Touch | src/storage/SimpleLRU.cpp:131-153 | moveToHead on the recency list: the key's entry comes first with its value, followed by the other entries in their old order. The set of keys is unchanged, and so is each key appearing once. |
| LruModel.TouchAt | src/storage/SimpleLRU.cpp:131-153 | Promoting the key at position i cuts that entry out and puts it first. |
| LruModel.TouchHead | src/storage/SimpleLRU.cpp:133-137 | Promoting the head changes nothing. |
| LruModel.TouchTail | src/storage/SimpleLRU.cpp:139-143 | Promoting the tail puts the last entry first, the others in order. |
| LruModel.TouchKeepsInvariant | src/storage/SimpleLRU.cpp:131-153 | Promoting keeps the invariant, the multiset of entries, the total size and every lookup. The key is first and the rest keep their order. |
| LruModel.TouchPermutes | src/storage/SimpleLRU.cpp:131-153 | Promoting permutes the entries and keeps their total size. |
| LruModel.TouchKeepsLookup | src/storage/SimpleLRU.cpp:75-76 | Promoting changes no key's value. |
| LruModel.TouchPromotesExample | src/storage/SimpleLRU.cpp:68-79 | After a lookup of c in [d, c], the next capacity-forcing admission evicts d and not c. |
| LruModel.SetValue | src/storage/SimpleLRU.cpp:167 | Writing a value keeps the length and the key at every position. |
| LruModel.SetValueAt | src/storage/SimpleLRU.cpp:167 | Writing the value of the key at i replaces that entry only. Each key stays once, and the size moves by the change in value length. |
| LruModel.SetValueThenRemove | src/storage/SimpleLRU.cpp:167 | After the write the key has the new value, and the other entries are untouched. |
| LruModel.EvictOthers | src/storage/SimpleLRU.cpp:159-165 | The corrected loop keeps the key and its value, and ends with room for the value's growth. Its removals are only of entries other than the key, from the tail. |
| LruModel.Victim | src/storage/SimpleLRU.cpp:161-164 | The entry the corrected loop evicts is the last one or the one before it. |
| LruModel.EvictOthersStep | src/storage/SimpleLRU.cpp:161-164 | While the growth does not fit there are at least two entries, and the victim is not the key being updated. Removing it keeps the key and its value. |
| LruModel.EvictOthersFits | src/storage/SimpleLRU.cpp:161 | When the growth fits, nothing is evicted. |
| LruModel.EvictOthersTail | src/storage/SimpleLRU.cpp:162-164 | Deleting the victim shortens the list and leads to the same eviction result. |
| LruModel.OthersLoseTheirTail | src/storage/SimpleLRU.cpp:162-164 | Among the entries other than the key, the victim is the last one. |
| LruModel.EvictOthersIsEvictUntil | src/storage/SimpleLRU.cpp:159-165 | The corrected changeNode loop evicts the same entries as addNode's loop would for the pair, once the key is left out. |
| LruModel.Replace | src/storage/SimpleLRU.cpp:155-169 | changeNode as intended, on the recency list: the updated pair comes first, followed by a prefix of the other entries in their old order, so only the least recently used others are evicted. |
| LruModel.ReplaceIsReinsert | src/storage/SimpleLRU.cpp:13-19 | Updating a present key gives the same list as deleting it and admitting the pair, so Put's two branches agree. |
| LruModel.ReplaceKeepsInvariant | src/storage/SimpleLRU.cpp:155-169 | Updating keeps the invariant. The new pair is first with the new value, and the rest is a prefix of the others, so the key itself is never evicted. |
| LruModel.PutThenGet | src/storage/SimpleLRU.cpp:7-22 | After a successful Put (or Set) of k/v, the key is present with value v and already at the head, so Get returns v and changes nothing. |
| ChangeNodeAsWritten.SizeSub | src/storage/SimpleLRU.cpp:159 | size_t subtraction: exact when no underflow, otherwise wraps to 2^64 minus the shortfall. |
| ChangeNodeAsWritten.EvictAsWritten | src/storage/SimpleLRU.cpp:161-165 | The loop as written either reaches the null tail, or stops with a prefix whose unsigned room is at least delta. Once the updated node is deleted, it stays deleted. |
| ChangeNodeAsWritten.SizeAdd | src/storage/SimpleLRU.cpp:104 | size_t addition: exact below 2^64, otherwise wraps by 2^64. |
| ChangeNodeAsWritten.MoveToHeadAsWritten | src/storage/SimpleLRU.cpp:131-153 | moveToHead as written, after the write of line 167. It never writes through a freed node. When it completes, the key is at the head. When PutIfAbsent refuses the pair on the interior path, the key is gone from the list. |
| ChangeNodeAsWritten.ChangeNodeAsWritten | src/storage/SimpleLRU.cpp:155-169 | changeNode as written, ending in moveToHead as written. When it completes, the key is at the head. When it loses the key, the key is absent from the list. |
| ChangeNodeAsWritten.SetAsWritten | src/storage/SimpleLRU.cpp:43-52 | Set as written rejects only an absent key. Otherwise it runs changeNode as written, with no size check. |
| ChangeNodeAsWritten.EvictKeepsCounter | src/storage/SimpleLRU.cpp:161-165 | A counter that matches the list keeps matching through the loop. |
| ChangeNodeAsWritten.EvictReachesNullTail | src/storage/SimpleLRU.cpp:161-165 | When the counter equals the list's total size and delta exceeds the capacity, the loop deletes every node and then reaches the null tail. |
| ChangeNodeAsWritten.EvictKeepsKey | src/storage/SimpleLRU.cpp:161-165 | Unless the loop deleted the updated node, its key is still in the list. |
| ChangeNodeAsWritten.ShrinkingUpdateDereferencesNullTail | src/storage/SimpleLRU.cpp:159-165 | An update that shortens a value ends by deleting the null tail. This holds when the counter equals the list's total size and the capacity plus the old value's length is below 2^64. |
| ChangeNodeAsWritten.NearSizeMaxShrinkWritesFreedNode | src/storage/SimpleLRU.cpp:159-167 | With capacity 2^64 - 1 holding a/"333" and the counter at 4, shortening to "1" stops the loop once a is deleted, and the write goes to the freed node instead of the null tail. |
| ChangeNodeAsWritten.StaleCounterStopsLoop | src/storage/SimpleLRU.cpp:161-165 | Over [c/"", a/ten characters, b/""] with capacity 20 and the stale counter 3, delta 21 stops the loop after b and a are deleted: the counter wraps to 2^64 - 9 and the room becomes 29. |
| ChangeNodeAsWritten.ShrinkingExample | src/storage/SimpleLRU.cpp:159-165 | Shortening "333" to "1" under capacity 10 ends by deleting the null tail. |
| ChangeNodeAsWritten.DeleteThenAdd | src/storage/SimpleLRU.cpp:148-149 | With a capacity below 2^63 and the counter within it, deleteNode's subtraction of an entry's bytes and addNode's addition of them cancel in size_t, and the room in between covers the entry. |
| ChangeNodeAsWritten.MoveToHeadKeepsCounter | src/storage/SimpleLRU.cpp:131-153 | With a capacity below 2^63, a list that fits it and a counter that does not exceed it, moveToHead as written promotes the key and leaves the counter unchanged, on all three paths. |
| ChangeNodeAsWritten.WriteThenPromote | src/storage/SimpleLRU.cpp:167-168 | With a capacity below 2^63, suppose the loop keeps the key with a counter equal to the kept list's size and room for the growth. Then the write and moveToHead as written promote the key. The counter stays, and the stored bytes are the counter plus the growth. |
| ChangeNodeAsWritten.GrowingUpdateLeavesCounterStale | src/storage/SimpleLRU.cpp:167 | Starting from a counter equal to the list's total size and a capacity below 2^63: when an update that grows the value completes, the bytes stored exceed the counter by exactly the growth of the value. |
| ChangeNodeAsWritten.SizeMaxInteriorUpdate | src/storage/SimpleLRU.cpp:131-153 | At capacity 2^64 - 1, the wrapped counter after deleteNode leaves less room than the entry. moveToHead of the interior a in [b, a, c] with the counter 0 evicts c and ends with the counter at 2^64 - 1. Growing a to ten characters from the exact counter 3 ends on the null tail. |
| ChangeNodeAsWritten.StaleCounterGrowth | src/storage/SimpleLRU.cpp:155-169 | From the stale counter 2 over [a/ten characters, b/""] with capacity 20, growing b to "y" completes with 13 bytes stored against the counter 2: an excess of 11, not the growth 1. |
| ChangeNodeAsWritten.GrowingExample | src/storage/SimpleLRU.cpp:167 | Growing "1" to "4444" stores 5 bytes while the counter stays at 2. |
| ChangeNodeAsWritten.GrowingTailEvictsItself | src/storage/SimpleLRU.cpp:161-167 | With capacity 10 holding b/"1", a/"1" (a least recent), `Put("a", "12345678")` deletes a's own node, and the write then goes to a freed node. |
| ChangeNodeAsWritten.SetAcceptsOversizePair | src/storage/SimpleLRU.cpp:43-52 | Set accepts a 12-byte pair under capacity 10 and ends with a write to a freed node. |
| ChangeNodeAsWritten.StaleCounterExample | src/storage/SimpleLRU.cpp:81-106 | With capacity 20, growing a's value from "" to ten characters at the head leaves 12 bytes stored with the counter at 2. Then Put("c", "") reaches addNode, whose loop on the counter 2 evicts nothing, and the counter becomes 3. |
| ChangeNodeAsWritten.OversizeSetLosesKey | src/storage/SimpleLRU.cpp:145-150 | Under that counter of 3, Set of a 20-character value for the interior key a passes the loop and is written. moveToHead then deletes a, PutIfAbsent refuses the 21-byte pair, and the list is [c, b] with the counter wrapped to 2^64 - 18. |

## Left out

- Ownership by `std::unique_ptr` and raw node pointers are modelled as an arena of slots with nullable slot links. Freeing a node removes its slot. Slots are never reused.
- `SimpleLRU.h` is not part of this model, so neither is the constructor's body or `lru_node`'s declaration. `SimpleLRU.constructor` starts with an empty cache of the given capacity.
- The corrected class uses unbounded `nat` for sizes; only `ChangeNodeAsWritten` models `size_t` wrap-around. In the corrected class `_cur_size <= _max_size` always holds, so `addNode`'s unsigned subtraction never wraps there.
- SimpleLruCache.SimpleLRU.Get: returns the value as a second result, `""` when the key is absent. The source instead leaves the caller's out-parameter untouched.
- SimpleLruCache.SimpleLRU.Set: returns false for a pair larger than the capacity. The source has no such check, and its outcome is shown by `ChangeNodeAsWritten.SetAcceptsOversizePair`.
- SimpleLruCache.SimpleLRU.ChangeNode: models the evident intent (signed delta, no self-eviction, counter charged). The code as written is in `ChangeNodeAsWritten`.
- ChangeNodeAsWritten.MoveToHeadAsWritten: the tail path is modelled by its effect on the list (`Touch`), not by its pointer assignments. Those assignments are proved separately, for the corrected class, by `SimpleLruCache.MoveTailIn`.
- ChangeNodeAsWritten.EvictReachesNullTail: stated only for a counter equal to the list's total size. With a stale counter, deleting a node can wrap the counter and stop the loop early, as `StaleCounterStopsLoop` shows.
- ChangeNodeAsWritten.ShrinkingUpdateDereferencesNullTail: stated only for a counter equal to the list's total size and a capacity more than the old value's length below 2^64. With a capacity within that distance of SIZE_MAX, the loop can stop after deleting the node itself, and line 167 writes through the freed node instead, as `NearSizeMaxShrinkWritesFreedNode` shows.
- Sizes count characters: one `char` of a Dafny `string` stands for one byte of `std::string::size()`, so multi-byte encodings are not modelled.
- ChangeNodeAsWritten.DeleteThenAdd: stated only for a capacity below 2^63. At capacity 2^64 - 1 the room after the wrapped subtraction can be less than the entry, as `SizeMaxInteriorUpdate` shows.
- ChangeNodeAsWritten.MoveToHeadKeepsCounter: stated only for a capacity below 2^63. At capacity 2^64 - 1 the interior path can evict other entries and change the counter, as `SizeMaxInteriorUpdate` shows.
- ChangeNodeAsWritten.WriteThenPromote: stated only for a capacity below 2^63 and a counter equal to the kept list's size. At capacity 2^64 - 1 the write and promotion can end on the null tail, as `SizeMaxInteriorUpdate` shows.
- ChangeNodeAsWritten.GrowingUpdateLeavesCounterStale: stated for a starting counter equal to the list's total size, updates that do not shorten the value, a capacity below 2^63 and a value shorter than 2^64. From a stale counter the excess is the old lag plus the growth, as `StaleCounterGrowth` shows. Shortening updates are covered by `ShrinkingUpdateDereferencesNullTail`.
- The assignments `_lru_tail->next = nullptr` and `_lru_head->prev = nullptr` at the end of `moveToHead` are part of `MoveTailIn`. On the interior path they change nothing, because `PutIfAbsent` already leaves a well-linked list, so `Reinsert` does not repeat them.
- Running time is not modelled, nor is the difference between relinking a node and deleting and reinserting it.
- The lock that serialises calls (`MapBasedGlobalLockImpl`) and the protocol layer that calls the cache are not part of this model.

## Findings

| source | as written | input that shows it | evidently intended | confidence | as-written member | corrected member |
|---|---|---|---|---|---|---|
| src/storage/SimpleLRU.cpp:159-165 | `delta` is a `size_t`, so a shorter value makes it wrap to nearly 2^64. Suppose the counter matches the list and the capacity is more than the old value's length below SIZE_MAX. Then no room is enough: the loop deletes every node and then calls `deleteNode` on the null tail. Nearer SIZE_MAX, it instead deletes the node itself and line 167 writes through it. | Capacity 10 holding a/"333"; `Set("a", "1")` | A signed delta: a value that shrinks needs no eviction | not executed | ChangeNodeAsWritten.ShrinkingUpdateDereferencesNullTail | SimpleLruCache.SimpleLRU.EvictOthersFor |
| src/storage/SimpleLRU.cpp:167 | The new value is written, but `_cur_size` is not changed, so the counter falls behind the stored bytes. At capacity SIZE_MAX, even from an exact counter, an interior update whose growth exceeds the other entries' bytes makes `moveToHead`'s `deleteNode` wrap the counter. `addNode`'s loop then drains the list and reaches the null tail (`SizeMaxInteriorUpdate`). | Capacity 10 holding a/"1"; `Put("a", "4444")` stores 5 bytes with the counter at 2 | Charge the change in size along with the write | not executed | ChangeNodeAsWritten.GrowingUpdateLeavesCounterStale | SimpleLruCache.SimpleLRU.ChangeNode |
| src/storage/SimpleLRU.cpp:161-167 | The loop deletes the tail even when it is the node being updated. The write at line 167 then goes through a freed node. | Capacity 10 holding b/"1", a/"1" (a least recent); `Put("a", "12345678")` | Evict the least recently used entry other than the one being updated | not executed | ChangeNodeAsWritten.GrowingTailEvictsItself | LruModel.EvictOthersStep |
| src/storage/SimpleLRU.cpp:145-150 | With the counter lagging the stored bytes, `Set` of a pair larger than the capacity can pass the loop. When the node is interior, `moveToHead` deletes it, which wraps the counter below zero, and `PutIfAbsent` refuses the pair. The key is lost and `Set` still returns true. | Capacity 20: `Put("b", "")`, `Put("a", "")`, `Put("a", "xxxxxxxxxx")`, `Put("c", "")`, then `Set("a", <20 characters>)` | Reject the oversize pair and keep the counter exact, so the key keeps its new value | not executed | ChangeNodeAsWritten.OversizeSetLosesKey | SimpleLruCache.SimpleLRU.Set |
| src/storage/SimpleLRU.cpp:43-52 | `Set` has no size check, unlike `Put` and `PutIfAbsent`, so a pair larger than the capacity reaches `changeNode`. | Capacity 10 holding a/"1"; `Set("a", "12345678901")` | Reject the pair, as `Put` does | not executed | ChangeNodeAsWritten.SetAcceptsOversizePair | SimpleLruCache.SimpleLRU.Set |
