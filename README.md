# cxx::binder — a copy-on-write note binder, modelled in Dafny

`cxx::binder<K, V>` (binder.h) keeps an ordered list of notes, each a key and
a value, together with an index from key to list node. Keys are unique.
Copying a binder is cheap: the copy shares the list and the index of the
original through `shared_ptr`s, and a binder clones them (`make_copy`) only
when it is about to change them while another binder still holds them
(copy-on-write). The mutable `read(k)` hands out a `V&` into the notes. It
sets the flag `writeable_ref` so that a later copy of that binder gets a deep
copy rather than a share. The mutators are meant to give the strong exception
guarantee: if one throws, the binder is as it was. The shared branch of
insert_after as written does not (see "## Findings"); the model proves the
guarantee for the corrected branch.

The project has four modules and one client module:

- `NoteSeq` (notes.dfy) is the abstract content of a binder: a sequence of
  `(key, value)` pairs in iteration order. It holds the functions for each
  edit (`InsertFront`, `InsertAfter`, `RemoveFront`, `RemoveKey`), lookup,
  position and iteration order (`Values`), and the lemmas that state what
  each edit does.
- `Alloc` (alloc.dfy) injects failures. Every allocation of a list, a map,
  a node or a map entry, and every value copy, is one step drawn from an
  `Allocator`; `binder()` draws two (the list and the map). The steps
  succeed while its budget lasts, so every exception path of binder.h can be
  reached.
- `Nodes` (nodes.dfy) is the storage: `NoteList` is the `std::list` (nodes
  are `Cell` objects, so a node keeps its identity as a list iterator does)
  and `KeyIndex` is the `std::map`. It holds the imperative steps binder.h
  performs on them: copying the list, filling a new index, emplacing and
  erasing. Each step is proved against the `NoteSeq` functions.
- `Cxx` (binder.h itself) holds the `Binder` class with its fields `notes`,
  `index` and `writeableRef`, and the `ConstIterator`. Each public member of
  binder.h is a method proved against the `NoteSeq` function for its edit. It
  states the thrown error for each input, what is drawn from the allocator,
  the new notes on success, the unchanged binder on failure, and that other
  holders of a shared list see no change. The use count of `notes_` is the
  field `refs`; a ghost multiset of owners ties it to the binders holding
  the list.
- `Sharing` (sharing.dfy) shows copy-on-write across several binders, and
  that the contracts of one call carry over to the next.

## Model

| member | source | states |
|---|---|---|
| NoteSeq.Values | binder.h:66-72 | the values met walking the list front to back are the value of each note, in list order, one per note |
| NoteSeq.Position | binder.h:200 | the note of a present key: its key is k and no earlier note holds k |
| NoteSeq.KeySetSize | binder.h:298-300 | with unique keys there are as many keys as notes (size of the index equals size of the list) |
| NoteSeq.LookupPresent | binder.h:289-296 | looking a key up succeeds exactly when the key is present |
| NoteSeq.LookupAt | binder.h:289-296 | with unique keys the lookup of the i-th note's key yields that note's value |
| NoteSeq.InsertFrontSpec | binder.h:159-196 | the new note is first, the old notes follow in order, keys stay unique, the key set grows by k, k is bound to v and every other binding is kept |
| NoteSeq.InsertAfterAt | binder.h:213 | the new note is spliced in right behind the first note of prev_k |
| NoteSeq.InsertAfterSpec | binder.h:198-237 | the new note sits right after prev_k's note, keys stay unique, k is bound to v, other bindings are kept, and removing k gives back the old notes |
| NoteSeq.SplicedInKeys | binder.h:213-214 | splicing in a note for an absent key keeps keys unique and adds that key |
| NoteSeq.SplicedInUnique | binder.h:201 | splicing in a note for an absent key keeps keys unique |
| NoteSeq.SplicedInKeySet | binder.h:214 | the key set after a splice is the old one plus the new key |
| NoteSeq.SplicedInLookup | binder.h:213-214 | after the splice the new key is bound to the new value |
| NoteSeq.SplicedInLookupOther | binder.h:213-214 | after the splice every other key keeps its binding |
| NoteSeq.SplicedInSpec | binder.h:213-214 | a splice of an absent key at i: it sits at i, keys unique, new binding, other bindings kept, and cutting it out gives back the notes |
| NoteSeq.RemoveFrontSpec | binder.h:239-254 | remove() drops exactly the first note: one note fewer, the rest in order, keys unique, the first key gone and unbound |
| NoteSeq.RemoveKeyAt | binder.h:268 | remove(k) cuts out exactly the first note holding k |
| NoteSeq.CutOutKeys | binder.h:268-269 | cutting out a note keeps keys unique and drops exactly its key |
| NoteSeq.CutOutLookup | binder.h:268-269 | cutting out a note unbinds its key |
| NoteSeq.CutOutLookupOther | binder.h:268-269 | cutting out a note keeps every other binding |
| NoteSeq.RemoveKeySpec | binder.h:256-272 | remove(k) of a present key removes that key only: the notes before and after it in order, k gone and unbound, other bindings kept |
| NoteSeq.InsertFrontRemoveKey | binder.h:159-196 | insert_front followed by remove of the same key gives back the notes |
| NoteSeq.InsertFrontRemoveFront | binder.h:239-254 | insert_front followed by remove() gives back the notes |
| NoteSeq.FrontInsertionsIterateReversed | binder_tests.cpp:165-185 | inserting fronts 1, 2, 3 iterates as 3, 2, 1 |
| NoteSeq.MixedInsertionsOrder | binder.h:159-272 | fronts 1 and 2 then 3 after 2 iterate as 2, 3, 1; removing 1 and then the front leaves only the note of 3 |
| Alloc.Allocator.Acquire | binder.h:329 | one allocation or value copy succeeds exactly while steps are left, and uses one up |
| Nodes.DistinctAt | binder.h:332 | two nodes at different positions of an index-consistent list hold different keys |
| Nodes.DistinctPairwise | binder.h:332 | the node-by-node distinctness of keys is equivalent to pairwise distinctness |
| Nodes.IndexOf | binder.h:286 | the position found holds the node looked for |
| Nodes.DistinctUnique | binder.h:18 | nodes with distinct keys hold notes with unique keys |
| Nodes.UniqueDistinct | binder.h:331-333 | notes with unique keys are held by nodes with distinct keys |
| Nodes.IndexedKeys | binder.h:18 | the index's keys are exactly the notes' keys, and those are unique |
| Nodes.IndexedHas | binder.h:161 | a key is in the index exactly when some note holds it |
| Nodes.IndexedSize | binder.h:188 | the index has as many entries as the list has nodes |
| Nodes.IndexedLookup | binder.h:291-295 | the value reached through the index is the value the notes bind to the key |
| Nodes.IndexedPosition | binder.h:286 | the node the index holds for k is at k's position and holds k's value |
| Nodes.MatchesSplice | binder.h:223 | a node spliced in at i holds the note spliced in at i |
| Nodes.MatchesCut | binder.h:268 | cutting out node and note at i keeps them paired |
| Nodes.IndexedSplice | binder.h:223-224 | entering a new node under a new key keeps the index exact |
| Nodes.DistinctSplice | binder.h:223 | a node with a new key keeps node keys distinct |
| Nodes.IndexedCut | binder.h:268-269 | erasing a node together with its key keeps the index exact |
| Nodes.DistinctCut | binder.h:268 | erasing a node keeps node keys distinct |
| Nodes.IndexedInsertAfter | binder.h:213 | inserting at the position after the index's node of prev_k is InsertAfter on the notes |
| Nodes.IndexedRemoveKey | binder.h:268-269 | erasing the index's node of k is RemoveKey on the notes |
| Nodes.CopyList | binder.h:329 | the list copy succeeds exactly when one step per note plus one is left; then a fresh list with one owner holds the same notes in new nodes of its own |
| Nodes.Clone | binder.h:328-334 | make_copy succeeds exactly when 2n+2 steps are left; then a fresh list with the same notes and an exact index over it, the original untouched |
| Nodes.NewIndex | binder.h:330-333 | a new index over a list succeeds with n+1 steps and is then exact |
| Nodes.FillIndex | binder.h:331-333 | the loop enters every node under its key: with n steps the index is exact |
| Nodes.LinkNode | binder.h:172 | one step links a fresh node for the note at position i; a failure changes nothing |
| Nodes.Emplace | binder.h:172-173 | node then index entry, one step each; after success the note is at i and the index is exact |
| Nodes.TryEmplace | binder.h:179-193 | succeeds with two steps and puts the note at i; a failure leaves list and index as they were |
| Nodes.EmplaceAfter | binder.h:223-224 | with two steps the notes become InsertAfter of the old notes |
| Nodes.CloneInsertFront | binder.h:170-173 | with 2n+4 steps a fresh copy holds InsertFront of the notes, the original untouched |
| Nodes.CloneInsertAfter | binder.h:211-214 | with 2n+4 steps a fresh copy holds InsertAfter of the notes, the node of prev_k found in the copy's own index |
| Nodes.EraseAt | binder.h:250-251 | the note at position i and its key leave list and index, which stay exact |
| Nodes.EraseKey | binder.h:268-269 | the notes become RemoveKey of the old notes, and the index stays exact |
| Nodes.CloneEraseFront | binder.h:244-251 | with 2n+2 steps a fresh copy holds RemoveFront of the notes, the original untouched |
| Nodes.CloneEraseKey | binder.h:262-269 | with 2n+2 steps a fresh copy holds RemoveKey of the notes, found through the copy's own index |
| Nodes.EraseAll | binder.h:313-314 | list and index end up empty |
| Nodes.CloneEraseAll | binder.h:309-314 | with 2n+2 steps a fresh, empty copy, the original untouched |
| Nodes.Store | binder.h:286 | writing through the returned reference changes the value of that node's note only, in that node's list |
| Cxx.AdvanceMoves | binder.h:69-77 | n increments of ++ move n nodes along the same list |
| Cxx.Binder.Create | binder.h:96-100 | binder() succeeds exactly when the list and the map can both be allocated (two steps); then a fresh, empty binder that owns its new list alone, flag clear; otherwise no binder |
| Cxx.Binder.Share | binder.h:106-107 | the copy constructor's first step takes other's list and index |
| Cxx.Binder.Join | binder.h:106 | taking a share raises the use count by this binder |
| Cxx.Binder.Release | binder.h:113 | giving up a share lowers the use count by this binder |
| Cxx.Binder.Dispose | binder.h:37 | the destructor gives up this binder's share |
| Cxx.Binder.SoleOwner | binder.h:165 | a use count of one means this binder is the list's only holder |
| Cxx.Binder.MakeCopy | binder.h:328-334 | succeeds exactly with 2n+2 steps; then fresh list and index, one owner, same notes and keys |
| Cxx.Binder.MakeCopySafe | binder.h:336-346 | as MakeCopy, the binder owning the copy alone; a failure leaves the binder as it was; success gives up the share of the old list, whose notes stay |
| Cxx.Binder.Unshare | binder.h:279-283 | the binder ends as sole owner with the same notes, cloning (2n+2 steps) only when shared; a failure leaves it as it was |
| Cxx.Binder.InsertFront | binder.h:159-196 | a present key throws before any clone; otherwise success exactly when the clone (if shared) and two steps are affordable, and then the notes are InsertFront of the old ones, the flag is clear, the binder owns its list alone and exactly the clone's steps (if shared) plus two were drawn; any failure leaves the binder as it was; other holders of the old list see no change |
| Cxx.Binder.InsertFrontCopy | binder.h:167-178 | shared branch: succeeds with 2n+4 steps, fresh sole-owned notes with the note first; a failure restores the binder |
| Cxx.Binder.InsertFrontInPlace | binder.h:179-193 | unshared branch: succeeds with two steps, the note goes first; a failure restores list and index |
| Cxx.Binder.InsertAfter | binder.h:198-237 | an absent prev_k or present k throws before any clone; otherwise success exactly when affordable, the notes are InsertAfter of the old ones, the flag is clear, the binder owns its list alone and exactly the clone's steps (if shared) plus two were drawn; a failure leaves the binder as it was; other holders see no change |
| Cxx.Binder.InsertAfterCopy | binder.h:208-219 | shared branch: fresh sole-owned notes with the note after prev_k, located in the copy; a failure restores the binder |
| Cxx.Binder.InsertAfterInPlace | binder.h:220-233 | unshared branch: the notes become InsertAfter; a failure restores list and index |
| Cxx.Binder.RemoveFront | binder.h:239-254 | an empty binder throws; otherwise success exactly when the clone (if shared) is affordable, the notes lose their first note, the flag is clear, the binder owns its list alone and exactly the clone's steps (if shared) were drawn; a failure leaves the binder as it was |
| Cxx.Binder.RemoveFrontCopy | binder.h:244-251 | shared branch: fresh sole-owned notes without the first note |
| Cxx.Binder.RemoveFrontInPlace | binder.h:250-251 | unshared branch: the notes become RemoveFront of the old ones |
| Cxx.Binder.RemoveKey | binder.h:256-272 | an absent key throws before any clone; otherwise success exactly when affordable, the notes become RemoveKey of the old ones, the flag is clear, the binder owns its list alone (in place: the owners stay just this binder) and exactly the clone's steps (if shared) were drawn; a failure leaves the binder as it was |
| Cxx.Binder.RemoveKeyCopy | binder.h:262-269 | shared branch: fresh sole-owned notes without the note of k, located in the copy |
| Cxx.Binder.RemoveKeyInPlace | binder.h:268-269 | unshared branch: the notes become RemoveKey of the old ones |
| Cxx.Binder.Read | binder.h:274-287 | an absent key throws before any clone and costs nothing; otherwise, when the clone (if shared) is affordable, the binder owns its list alone, exactly the clone's steps (if shared) were drawn, the notes are unchanged, the flag is set and the node of k in its own list is returned; a failure leaves the binder as it was |
| Cxx.Binder.ReadConst | binder.h:289-296 | the value bound to k, or KeyNotFound; it reads only, so neither clones nor sets the flag |
| Cxx.Binder.Size | binder.h:298-300 | the number of notes, which is also the number of keys and of index entries |
| Cxx.Binder.Clear | binder.h:302-316 | an empty binder is left exactly as it is, flag included, at no cost; otherwise success exactly when the clone (if shared) is affordable, the notes become empty, the flag is clear, the binder owns its list alone and exactly the clone's steps (if shared) were drawn; a failure leaves the binder as it was |
| Cxx.Binder.ClearCopy | binder.h:309-314 | shared branch: fresh, sole-owned, empty notes |
| Cxx.Binder.ReadAfterClear | binder_tests.cpp:148-163 | after clear both reads of any key throw KeyNotFound |
| Cxx.Binder.CBegin | binder.h:318-321 | an iterator at the first note of this binder's list; it equals cend exactly when the binder is empty, and otherwise yields the first value |
| Cxx.Binder.CEnd | binder.h:323-326 | the iterator that one increment per note reaches from the first position of this binder's list |
| Cxx.Binder.Iteration | binder_tests.cpp:165-185 | n increments from cbegin yield the n-th value, and reach cend exactly after the last note |
| Cxx.Binder.CopyOf | binder.h:102-120 | the copy holds other's notes with the flag clear; it shares other's list exactly when other's flag is clear, and otherwise a fresh deep copy, owned by the new binder alone and costing 2n+2 steps, that fails (no binder) when unaffordable; sharing adds the new binder to the owners of other's list; other is unchanged |
| Cxx.Binder.Assign | binder.h:132-157 | self-assignment changes nothing; otherwise the notes become other's, shared exactly when other's flag is clear, and the flag is reset; a deep copy is fresh, owned alone and costs 2n+2 steps, and a failed one leaves this binder as it was, flag included; a share adds this binder to the owners of other's list, and leaving the old list removes it from that list's owners, whose use count stays exact; other is unchanged |
| Cxx.Binder.AssignCopy | binder.h:140-154 | from a flagged binder: a fresh sole-owned copy of other's notes for 2n+2 steps, this binder leaving the owners of its old list; a failure restores this binder |
| Cxx.Binder.AssignShare | binder.h:140-156 | from an unflagged binder: this binder shares other's list and index, flag clear; it joins the owners of other's list and leaves those of its old list, unless the two are one list |
| Cxx.Binder.SharedNotUnique | binder.h:165 | two binders holding the same list make its use count at least two, so a mutator of either clones first |
| Cxx.Binder.LocateThenCopy | binder.h:199-213 | as written: the node found before make_copy belongs to the old list, still held by others, and not to the copy |
| Sharing.InsertFrontElsewhere | binder_tests.cpp:105-118 | insert_front on one binder leaves the notes of any other binder unchanged, shared list or not |
| Sharing.InsertFrontTwice | binder.h:159-196 | a binder owning its list alone, with four steps, inserts two new keys in place: both succeed, all steps are used, and the notes are the two InsertFronts in turn |
| Sharing.AssignKeepsOthers | binder.h:132-157 | after operator= any third binder, whether it holds this binder's old list or other's, is still valid with the same notes |

Proof steps without a row of their own: `NoteSeq.HeadKeyNotInTail` and
`NoteSeq.KeySetCons` (used by `NoteSeq.RemoveFrontSpec` and
`NoteSeq.InsertFrontSpec`), `NoteSeq.SplicedIn`, `NoteSeq.SpliceFront` and
`NoteSeq.SpliceCut` (used by `NoteSeq.SplicedInSpec`, `Nodes.TryEmplace` and
`Nodes.CloneInsertFront`), `NoteSeq.CutOut` (used by `NoteSeq.RemoveKeySpec`
and `Nodes.EraseAt`), and `Cxx.ConstIterator.Deref` (operator*,
binder.h:66) and `Cxx.ConstIterator.Next` (operator++, binder.h:69-72), the
dereference and the single increment that `Cxx.AdvanceMoves`,
`Cxx.Binder.CBegin` and `Cxx.Binder.Iteration` are about. The unnamed
constructor of `Cxx.Binder` is the part of `Cxx.Binder.Create` that runs once
both allocations have succeeded (binder.h:97-99), and `Cxx.Binder.Share` is
the first step of `Cxx.Binder.CopyOf` (binder.h:106-107).

## Left out

- The move constructor (binder.h:122-130) is not modelled: it leaves the source binder with null pointers, and every other member may then dereference them.
- `shared_ptr` reference counting is modelled by an explicit count on the list (`refs`), updated where a binder takes or gives up a share. Temporary copies of the pointers inside a member (`old_notes`, `old_index`) do not count, so `unique()` is read as "no other binder holds the list".
- The index's use count is not modelled: binder.h only ever tests the list's.
- Iterator invalidation after edits is not modelled. An iterator is a list and a position; nothing states what an old iterator designates after a change.
- Allocation granularity is an assumption: make_copy costs one step for the list, one per node, one for the map and one per map entry (`CloneCost`). An exception from V's copy constructor is folded into the node's step.
- Cxx.Binder.InsertFrontCopy, Cxx.Binder.InsertAfterCopy, Cxx.Binder.RemoveFrontCopy, Cxx.Binder.RemoveKeyCopy, Cxx.Binder.ClearCopy and Cxx.Binder.AssignCopy install the copy only once every step has succeeded. The source assigns `notes_` during make_copy and restores it on failure; both leave the same state after return.
- Cxx.Binder.MakeCopy states its failure state weaker than the source's: each field is either unchanged or fresh, and every caller restores both.
- Two tests of binder_tests.cpp have no client method of their own; both follow from the contracts named here. test_copy_on_write_2 (binder_tests.cpp:121-133) is a mutable read on a shared binder followed by a write: Cxx.Binder.Read clones first (`CopiedOnWrite()`) and leaves the old list to its other holders (`LeftShared`), and Nodes.Store changes only the node's own list, so the first binder still reads the old value. test_copy_on_write_3 (binder_tests.cpp:135-147) writes through read(k) and then copies the binder: Cxx.Binder.Read sets the flag, Nodes.Store changes only that node's list, and Cxx.Binder.CopyOf deep-copies a flagged binder, so the copy holds the same value in nodes of its own.
- bintest.cpp, binderT.h and binder_example_1.cpp are not part of this model. Nor is the output printed by binder_tests.cpp.
- The node and its index entry in insert_front and insert_after are taken to fail as two separate steps; the failure of `std::next` or of key comparison is not modelled.

## Findings

| source | as written | input that shows it | evidently intended | confidence | as-written member | corrected member |
|---|---|---|---|---|---|---|
| binder.h:200, 212-213 | in the shared branch of insert_after, `it` is found in the old index before make_copy and its node is used after it, so the new note is emplaced into the old list that other binders still hold, through an iterator that does not belong to the new list; should `index_->emplace` (line 214) then throw, the catch block (lines 215-218) puts the old list back with the extra node still in it, so the strong guarantee fails too | b1 holding key 1; b2 a copy of b1; b2.insert_after(1, 2, v) | locate prev_k in the copy's own index, so the note lands in b2's copy and b1 is unchanged | not executed | Cxx.Binder.LocateThenCopy | Cxx.Binder.InsertAfterCopy |
| binder.h:257, 265-269 | in the shared branch of remove(k), `it` is found in the old index before make_copy_safe; the new list and the new map then erase the old list's node and the old map's entry, which belong to neither | b1 holding key 1; b2 a copy of b1; b2.remove(1) | locate k in the copy's own index, so only b2's copy loses the note | not executed | Cxx.Binder.LocateThenCopy | Cxx.Binder.RemoveKeyCopy |
