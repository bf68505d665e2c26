/**
 * cxx::binder<K, V> of binder.h: a copy-on-write sequence of notes with an
 * index from key to note.
 *
 * A Binder holds one NoteList (notes_) and one KeyIndex (index_), as the
 * binder holds two shared_ptrs, and several Binders may hold the same pair.
 * The NoteList carries the use count of notes_ (`refs`, what unique() reads)
 * and, as a ghost, one entry per binder holding it, so that a use count of
 * one proves that no other binder can see the list.
 */
module Cxx {
  import opened NoteSeq
  import opened Alloc
  import opened Nodes

  /** The exceptions binder.h throws; Thrown is an allocation or value-copy failure. */
  datatype Error = KeyAlreadyExists | InvalidKey | BinderEmpty | KeyNotFound | Thrown

  datatype Outcome = Done | Failed(error: Error)

  datatype Result<T> = Ok(value: T) | Err(error: Error)
  {
    /** The outcome of a call that returned this result. */
    function Status(): Outcome
    {
      if Ok? then Done else Failed(error)
    }
  }

  /** Steps make_copy draws from the allocator: the list, n nodes, the map, n entries. */
  function CloneCost(n: nat): nat
  {
    2 * n + 2
  }

  /** Steps binder() draws: make_shared of the list, then of the map (binder.h:97-98). */
  const CreateCost: nat := 2

  /**
   * Steps a mutator draws: a clone first when the list has other owners
   * (refs != 1, binder.h:165), then its own steps.
   */
  function WriteCost(refs: nat, n: nat, steps: nat): nat
  {
    (if refs == 1 then 0 else CloneCost(n)) + steps
  }

  /** An iterator is a position in one particular list (binder.h:54-90). */
  datatype ConstIterator<K, V> = ConstIterator(list: NoteList<K, V>, pos: nat)
  {
    /** operator*: the value of the node the iterator stands on. */
    function Deref(): V
      reads list
      requires pos < |list.entries|
    {
      list.entries[pos].1
    }

    /** operator++: the next node of the same list. */
    function Next(): (it: ConstIterator<K, V>)
      requires pos < |list.entries|
      reads list
      ensures it.list == list && it.pos == pos + 1
    {
      ConstIterator(list, pos + 1)
    }
  }

  /** The iterator reached from it after n increments. */
  ghost function Advance<K, V>(it: ConstIterator<K, V>, n: nat): ConstIterator<K, V>
    reads it.list
    requires it.pos + n <= |it.list.entries|
    decreases n
  {
    if n == 0 then it else Advance(it.Next(), n - 1)
  }

  /** Stepping n times from a position moves n nodes along the same list. */
  lemma {:induction false} AdvanceMoves<K, V>(it: ConstIterator<K, V>, n: nat)
    requires it.pos + n <= |it.list.entries|
    ensures Advance(it, n) == ConstIterator(it.list, it.pos + n)
    decreases n
  {
    if n > 0 {
      AdvanceMoves(it.Next(), n - 1);
    }
  }

  class Binder<K(==), V> {
    var notes: NoteList<K, V>
    var index: KeyIndex<K, V>
    /** writeable_ref: a mutable reference into the notes was handed out. */
    var writeableRef: bool

    /**
     * The binder holds one of the shares its list counts, its index indexes
     * that list, and a binder that handed out a writable reference owns its
     * list alone.
     */
    ghost predicate Valid()
      reads this, notes, index
    {
      && this in notes.owners && notes.refs == |notes.owners|
      && index.list == notes
      && Indexed(index.locs, notes.cells) && Homed(notes.cells, notes) && Matches(notes.cells, notes.entries)
      && (writeableRef ==> notes.refs == 1)
    }

    /** The notes this binder shows, in iteration order. */
    ghost function Notes(): seq<(K, V)>
      reads this, notes
    {
      notes.entries
    }

    /**
     * The binder is as it was before the call, sharing included: what the
     * strong guarantee promises after a failure, and what a call that returns
     * early leaves.
     */
    twostate predicate AsBefore()
      reads this, notes, index
    {
      && notes == old(notes) && index == old(index) && writeableRef == old(writeableRef)
      && notes.cells == old(notes.cells) && notes.entries == old(notes.entries) && index.locs == old(index.locs)
      && notes.refs == old(notes.refs) && notes.owners == old(notes.owners)
    }

    /**
     * Copy-on-write, seen from the other holders of list l and index ix: their
     * nodes and entries are as they were, and this binder gave up its share
     * if `left` holds.
     */
    twostate predicate LeftShared(l: NoteList<K, V>, ix: KeyIndex<K, V>, left: bool)
      reads l, ix
    {
      && l.cells == old(l.cells) && l.entries == old(l.entries) && ix.locs == old(ix.locs)
      && l.owners == (if left then old(l.owners) - multiset{this} else old(l.owners))
      && l.refs == |l.owners|
    }

    /**
     * A successful mutator worked in place when this binder owned its list
     * alone, and on a fresh clone otherwise.
     */
    twostate predicate CopiedOnWrite()
      reads this
    {
      if old(notes.refs) == 1 then notes == old(notes) && index == old(index)
      else fresh(notes) && fresh(index)
    }

    /** A use count of one means that this binder is the list's only holder. */
    lemma SoleOwner()
      requires Valid() && notes.refs == 1
      ensures notes.owners == multiset{this}
    {
      assert |notes.owners - multiset{this}| == 0;
    }

    /**
     * This binder is the only holder of its list: what every successful
     * mutator leaves, so that the next one works in place.
     */
    ghost predicate OwnsAlone()
      reads this, notes
    {
      notes.refs == 1 && notes.owners == multiset{this}
    }

    /**
     * binder() (binder.h:96-100): the list, then the map. Either allocation
     * may throw, and then no binder comes into being; otherwise an empty
     * binder with a list and an index of its own.
     */
    static method Create(alloc: Allocator) returns (r: Result<Binder<K, V>>)
      modifies alloc
      ensures r.Status() == if old(alloc.left) >= CreateCost then Done else Failed(Thrown)
      ensures r.Ok? ==> && fresh(r.value) && fresh(r.value.notes) && fresh(r.value.index)
                        && r.value.Valid() && r.value.OwnsAlone() && r.value.Notes() == [] && !r.value.writeableRef
                        && alloc.left == old(alloc.left) - CreateCost
      ensures r.Err? ==> alloc.left == 0
    {
      var ok := alloc.Acquire();
      if !ok {
        return Err(Thrown);
      }
      ok := alloc.Acquire();
      if !ok {
        return Err(Thrown);
      }
      var b := new Binder();
      r := Ok(b);
    }

    /** The body of binder() once both allocations have succeeded. */
    constructor ()
      ensures Valid() && Notes() == [] && !writeableRef
      ensures fresh(notes) && fresh(index) && OwnsAlone()
    {
      var l := new NoteList();
      notes := l;
      index := new KeyIndex(l);
      writeableRef := false;
      new;
      l.refs, l.owners := 1, multiset{this};
    }

    /** The first step of the copy constructor (binder.h:106-107): take other's list and index. */
    constructor Share(other: Binder<K, V>)
      ensures notes == other.notes && index == other.index && !writeableRef
    {
      notes := other.notes;
      index := other.index;
      writeableRef := false;
    }

    /** This binder takes a share of l: the use count of l goes up. */
    method Join(l: NoteList<K, V>)
      requires l.refs == |l.owners|
      modifies l`refs, l`owners
      ensures l.owners == old(l.owners) + multiset{this} && l.refs == |l.owners|
    {
      l.refs, l.owners := l.refs + 1, l.owners + multiset{this};
    }

    /** This binder gives up its share of l: the use count of l goes down. */
    method Release(l: NoteList<K, V>)
      requires this in l.owners && l.refs == |l.owners|
      modifies l`refs, l`owners
      ensures l.owners == old(l.owners) - multiset{this} && l.refs == |l.owners|
    {
      assert |l.owners - multiset{this}| == |l.owners| - 1;
      l.refs, l.owners := l.refs - 1, l.owners - multiset{this};
    }

    /** ~binder() (binder.h:37): gives up this binder's share of its list. */
    method Dispose()
      requires Valid()
      modifies notes`refs, notes`owners
      ensures notes.owners == old(notes.owners) - multiset{this} && notes.refs == |notes.owners|
    {
      Release(notes);
    }

    /**
     * make_copy (binder.h:328-334): notes_ becomes a copy of the list once the
     * copy is complete, then index_ a new map that is filled with the copy's
     * nodes. It may fail at any step and then leaves the fields pointing at
     * whatever was installed so far; every caller restores them.
     */
    method MakeCopy(alloc: Allocator) returns (ok: bool)
      requires Indexed(index.locs, notes.cells) && Matches(notes.cells, notes.entries)
      modifies this`notes, this`index, alloc
      ensures ok == (old(alloc.left) >= CloneCost(old(|notes.entries|)))
      ensures ok ==> alloc.left == old(alloc.left) - CloneCost(old(|notes.entries|))
      ensures ok ==> && fresh(notes) && fresh(index) && index.list == notes
                     && notes.refs == 1 && notes.owners == multiset{this}
                     && Indexed(index.locs, notes.cells) && Homed(notes.cells, notes)
                     && Matches(notes.cells, notes.entries) && notes.entries == old(notes.entries)
                     && index.locs.Keys == old(index.locs).Keys
      ensures !ok ==> (notes == old(notes) || fresh(notes)) && (index == old(index) || fresh(index))
    {
      var l, ix;
      ok, l, ix := Clone(notes, index, this, alloc);
      if l != null {
        notes := l;
      }
      if ix != null {
        index := ix;
      }
    }

    /**
     * make_copy_safe (binder.h:336-346): make_copy, or on failure the old list
     * and index back in place. On success this binder gives up its share of
     * the old list.
     */
    method MakeCopySafe(alloc: Allocator) returns (ok: bool)
      requires Valid()
      modifies this`notes, this`index, notes`refs, notes`owners, alloc
      ensures ok == (old(alloc.left) >= CloneCost(|old(Notes())|))
      ensures ok ==> alloc.left == old(alloc.left) - CloneCost(|old(Notes())|)
      ensures ok ==> && Valid() && fresh(notes) && fresh(index) && OwnsAlone()
                     && Notes() == old(Notes()) && writeableRef == old(writeableRef)
                     && index.locs.Keys == old(index.locs).Keys
      ensures !ok ==> AsBefore()
      ensures LeftShared(old(notes), old(index), ok)
    {
      var oldNotes, oldIndex := notes, index;
      ok := MakeCopy(alloc);
      if !ok {
        notes, index := oldNotes, oldIndex;
        return;
      }
      Release(oldNotes);
    }

    /**
     * `if (!notes_.unique()) make_copy_safe();`, the first step of read(k)
     * (binder.h:279-283): afterwards this binder owns its list alone, holding
     * the same notes, or, when the clone failed, it is as it was.
     */
    method Unshare(alloc: Allocator) returns (ok: bool)
      requires Valid()
      modifies this`notes, this`index, notes`refs, notes`owners, alloc
      ensures ok == (old(alloc.left) >= WriteCost(old(notes.refs), |old(Notes())|, 0))
      ensures ok ==> && Valid() && OwnsAlone() && Notes() == old(Notes())
                     && writeableRef == old(writeableRef) && CopiedOnWrite()
                     && alloc.left == old(alloc.left) - WriteCost(old(notes.refs), |old(Notes())|, 0)
      ensures old(notes.refs) == 1 ==> AsBefore() && alloc.left == old(alloc.left)
      ensures !ok ==> AsBefore()
      ensures old(notes.refs) != 1 ==> LeftShared(old(notes), old(index), ok)
    {
      ok := true;
      if notes.refs != 1 {
        ok := MakeCopySafe(alloc);
      } else {
        SoleOwner();
      }
    }

    /**
     * insert_front (binder.h:159-196). A present key throws before anything
     * else happens; otherwise the note goes first, into a clone when the list
     * is shared. A failure while cloning or inserting restores the list and
     * index: by dropping the clone, or by popping the node and erasing the key.
     */
    method InsertFront(k: K, v: V, alloc: Allocator) returns (out: Outcome)
      requires Valid()
      modifies this, notes, index, alloc
      ensures Valid()
      ensures out == if k in KeySet(old(Notes())) then Failed(KeyAlreadyExists)
                     else if old(alloc.left) >= WriteCost(old(notes.refs), |old(Notes())|, InsertCost) then Done
                     else Failed(Thrown)
      ensures out == Failed(KeyAlreadyExists) ==> alloc.left == old(alloc.left)
      ensures out == Done ==>
        Notes() == NoteSeq.InsertFront(old(Notes()), k, v) && !writeableRef && CopiedOnWrite() && OwnsAlone()
      ensures out == Done ==> alloc.left == old(alloc.left) - WriteCost(old(notes.refs), |old(Notes())|, InsertCost)
      ensures out != Done ==> AsBefore()
      ensures old(notes.refs) != 1 ==> LeftShared(old(notes), old(index), out == Done)
    {
      IndexedKeys(index.locs, notes.cells, notes.entries);
      if k in index.locs {
        return Failed(KeyAlreadyExists);
      }
      var shared := notes.refs != 1;
      var ok;
      if shared {
        ok := InsertFrontCopy(k, v, alloc);
      } else {
        SoleOwner();
        ok := InsertFrontInPlace(k, v, alloc);
      }
      if !ok {
        return Failed(Thrown);
      }
      writeableRef := false;
      out := Done;
    }

    /**
     * The shared branch of insert_front (binder.h:167-178): make_copy, then
     * the note goes first in the copy; on a failure the old list and index
     * are put back. The copy is installed, and the old list's share given
     * up, once every step has succeeded, which leaves the same state.
     */
    method InsertFrontCopy(k: K, v: V, alloc: Allocator) returns (ok: bool)
      requires Valid() && notes.refs != 1 && k !in index.locs
      modifies this`notes, this`index, notes`refs, notes`owners, alloc
      ensures ok == (old(alloc.left) >= CloneCost(|old(notes.entries)|) + InsertCost)
      ensures ok ==> alloc.left == old(alloc.left) - (CloneCost(|old(notes.entries)|) + InsertCost)
      ensures ok ==> && Valid() && fresh(notes) && fresh(index) && OwnsAlone()
                     && Notes() == [(k, v)] + old(Notes())
      ensures !ok ==> AsBefore()
      ensures LeftShared(old(notes), old(index), ok)
    {
      var l, ix;
      ok, l, ix := CloneInsertFront(notes, index, this, k, v, alloc);
      if ok {
        Release(notes);
        notes, index := l, ix;
      }
    }

    /**
     * The unshared branch of insert_front (binder.h:179-193): the note goes
     * first in the list itself; on a failure a node already added is popped
     * and an index entry already added is erased.
     */
    method InsertFrontInPlace(k: K, v: V, alloc: Allocator) returns (ok: bool)
      requires Valid() && notes.refs == 1 && k !in index.locs
      modifies notes`cells, notes`entries, index`locs, alloc
      ensures ok == (old(alloc.left) >= InsertCost)
      ensures ok ==> alloc.left == old(alloc.left) - InsertCost
      ensures Valid()
      ensures ok ==> Notes() == [(k, v)] + old(Notes())
      ensures !ok ==> notes.cells == old(notes.cells) && notes.entries == old(notes.entries) && index.locs == old(index.locs)
    {
      ghost var s := Notes();
      ok := TryEmplace(notes, index, 0, k, v, alloc);
      if ok {
        SpliceFront(s, (k, v));
      }
    }

    /**
     * insert_after (binder.h:198-237). An absent prev_k or a present k throws
     * before anything else happens; otherwise the note goes right after the
     * note of prev_k, into a clone when the list is shared. A failure while
     * cloning or inserting restores the list and index: by dropping the clone,
     * or by erasing the node and the key.
     */
    method InsertAfter(prevK: K, k: K, v: V, alloc: Allocator) returns (out: Outcome)
      requires Valid()
      modifies this, notes, index, alloc
      ensures Valid()
      ensures out == if prevK !in KeySet(old(Notes())) || k in KeySet(old(Notes())) then Failed(InvalidKey)
                     else if old(alloc.left) >= WriteCost(old(notes.refs), |old(Notes())|, InsertCost) then Done
                     else Failed(Thrown)
      ensures out == Failed(InvalidKey) ==> alloc.left == old(alloc.left)
      ensures out == Done ==>
        Notes() == NoteSeq.InsertAfter(old(Notes()), prevK, k, v) && !writeableRef && CopiedOnWrite() && OwnsAlone()
      ensures out == Done ==> alloc.left == old(alloc.left) - WriteCost(old(notes.refs), |old(Notes())|, InsertCost)
      ensures out != Done ==> AsBefore()
      ensures old(notes.refs) != 1 ==> LeftShared(old(notes), old(index), out == Done)
    {
      IndexedKeys(index.locs, notes.cells, notes.entries);
      if prevK !in index.locs || k in index.locs {
        return Failed(InvalidKey);
      }
      var shared := notes.refs != 1;
      var ok;
      if shared {
        ok := InsertAfterCopy(prevK, k, v, alloc);
      } else {
        SoleOwner();
        ok := InsertAfterInPlace(prevK, k, v, alloc);
      }
      if !ok {
        return Failed(Thrown);
      }
      writeableRef := false;
      out := Done;
    }

    /**
     * The shared branch of insert_after (binder.h:208-219): make_copy, then
     * the note goes after the node of prev_k in the copy, found through the
     * copy's own index; on a failure the old list and index are put back.
     * The copy is installed, and the old list's share given up, once every
     * step has succeeded, which leaves the same state.
     */
    method InsertAfterCopy(prevK: K, k: K, v: V, alloc: Allocator) returns (ok: bool)
      requires Valid() && notes.refs != 1 && prevK in index.locs && k !in index.locs
      modifies this`notes, this`index, notes`refs, notes`owners, alloc
      ensures ok == (old(alloc.left) >= CloneCost(|old(notes.entries)|) + InsertCost)
      ensures ok ==> alloc.left == old(alloc.left) - (CloneCost(|old(notes.entries)|) + InsertCost)
      ensures ok ==> && Valid() && fresh(notes) && fresh(index) && OwnsAlone()
                     && Notes() == NoteSeq.InsertAfter(old(Notes()), prevK, k, v)
      ensures !ok ==> AsBefore()
      ensures LeftShared(old(notes), old(index), ok)
    {
      var l, ix;
      ok, l, ix := CloneInsertAfter(notes, index, this, prevK, k, v, alloc);
      if ok {
        Release(notes);
        notes, index := l, ix;
      }
    }

    /**
     * The unshared branch of insert_after (binder.h:220-233): the note goes
     * after the node of prev_k in the list itself; on a failure a node
     * already added is erased, and so is an index entry already added.
     */
    method InsertAfterInPlace(prevK: K, k: K, v: V, alloc: Allocator) returns (ok: bool)
      requires Valid() && notes.refs == 1 && prevK in index.locs && k !in index.locs
      modifies notes`cells, notes`entries, index`locs, alloc
      ensures ok == (old(alloc.left) >= InsertCost)
      ensures ok ==> alloc.left == old(alloc.left) - InsertCost
      ensures Valid()
      ensures ok ==> Notes() == NoteSeq.InsertAfter(old(Notes()), prevK, k, v)
      ensures !ok ==> notes.cells == old(notes.cells) && notes.entries == old(notes.entries) && index.locs == old(index.locs)
    {
      var i := IndexOf(notes.cells, index.locs[prevK]) + 1;
      ghost var at := IndexedInsertAfter(index.locs, notes.cells, notes.entries, prevK, k, v);
      ok := TryEmplace(notes, index, i, k, v, alloc);
    }

    /**
     * remove() (binder.h:239-254). An empty binder throws before anything
     * else happens; otherwise the first note and its key go, from a clone when
     * the list is shared. Only the clone can fail, and make_copy_safe then
     * leaves the binder as it was.
     */
    method RemoveFront(alloc: Allocator) returns (out: Outcome)
      requires Valid()
      modifies this, notes, index, alloc
      ensures Valid()
      ensures out == if old(Notes()) == [] then Failed(BinderEmpty)
                     else if old(alloc.left) >= WriteCost(old(notes.refs), |old(Notes())|, 0) then Done
                     else Failed(Thrown)
      ensures out == Failed(BinderEmpty) ==> alloc.left == old(alloc.left)
      ensures out == Done ==>
        Notes() == NoteSeq.RemoveFront(old(Notes())) && !writeableRef && CopiedOnWrite() && OwnsAlone()
      ensures out == Done ==> alloc.left == old(alloc.left) - WriteCost(old(notes.refs), |old(Notes())|, 0)
      ensures out != Done ==> AsBefore()
      ensures old(notes.refs) != 1 ==> LeftShared(old(notes), old(index), out == Done)
    {
      if |notes.cells| == 0 {
        return Failed(BinderEmpty);
      }
      var ok := true;
      if notes.refs != 1 {
        ok := RemoveFrontCopy(alloc);
      } else {
        SoleOwner();
        RemoveFrontInPlace();
      }
      if !ok {
        return Failed(Thrown);
      }
      writeableRef := false;
      out := Done;
    }

    /**
     * The shared branch of remove() (binder.h:244-251): make_copy_safe, then
     * the first note leaves the copy. The copy is installed, and the old
     * list's share given up, once it exists, which leaves the same state.
     */
    method RemoveFrontCopy(alloc: Allocator) returns (ok: bool)
      requires Valid() && notes.refs != 1 && Notes() != []
      modifies this`notes, this`index, notes`refs, notes`owners, alloc
      ensures ok == (old(alloc.left) >= CloneCost(|old(notes.entries)|))
      ensures ok ==> alloc.left == old(alloc.left) - CloneCost(|old(notes.entries)|)
      ensures ok ==> && Valid() && fresh(notes) && fresh(index) && OwnsAlone()
                     && Notes() == NoteSeq.RemoveFront(old(Notes()))
      ensures !ok ==> AsBefore()
      ensures LeftShared(old(notes), old(index), ok)
    {
      var l, ix;
      ok, l, ix := CloneEraseFront(notes, index, this, alloc);
      if ok {
        Release(notes);
        notes, index := l, ix;
      }
    }

    /** The unshared branch of remove() (binder.h:250-251), in the list itself. */
    method RemoveFrontInPlace()
      requires Valid() && notes.refs == 1 && Notes() != []
      modifies notes`cells, notes`entries, index`locs
      ensures Valid() && Notes() == NoteSeq.RemoveFront(old(Notes()))
    {
      assert notes.entries[..0] + notes.entries[1..] == notes.entries[1..];
      // index_->erase(notes_->begin()->first); notes_->pop_front()
      EraseAt(notes, index, 0);
    }

    /**
     * remove(k) (binder.h:256-272). An absent key throws before anything else
     * happens; otherwise the note of k and its key go, from a clone when the
     * list is shared, and the node is found through the index of the list it
     * is erased from. Only the clone can fail, and make_copy_safe then leaves
     * the binder as it was.
     */
    method RemoveKey(k: K, alloc: Allocator) returns (out: Outcome)
      requires Valid()
      modifies this, notes, index, alloc
      ensures Valid()
      ensures out == if k !in KeySet(old(Notes())) then Failed(KeyNotFound)
                     else if old(alloc.left) >= WriteCost(old(notes.refs), |old(Notes())|, 0) then Done
                     else Failed(Thrown)
      ensures out == Failed(KeyNotFound) ==> alloc.left == old(alloc.left)
      ensures out == Done ==>
        Notes() == NoteSeq.RemoveKey(old(Notes()), k) && !writeableRef && CopiedOnWrite() && OwnsAlone()
      ensures out == Done ==> alloc.left == old(alloc.left) - WriteCost(old(notes.refs), |old(Notes())|, 0)
      ensures out != Done ==> AsBefore()
      ensures old(notes.refs) != 1 ==> LeftShared(old(notes), old(index), out == Done)
    {
      IndexedHas(index.locs, notes.cells, notes.entries, k);
      if k !in index.locs {
        return Failed(KeyNotFound);
      }
      var ok := true;
      if notes.refs != 1 {
        ok := RemoveKeyCopy(k, alloc);
      } else {
        SoleOwner();
        RemoveKeyInPlace(k);
      }
      if !ok {
        return Failed(Thrown);
      }
      writeableRef := false;
      out := Done;
    }

    /**
     * The shared branch of remove(k) (binder.h:262-269): make_copy_safe, then
     * the note of k leaves the copy, found through the copy's own index. The
     * copy is installed, and the old list's share given up, once it exists,
     * which leaves the same state.
     */
    method RemoveKeyCopy(k: K, alloc: Allocator) returns (ok: bool)
      requires Valid() && notes.refs != 1 && k in index.locs
      modifies this`notes, this`index, notes`refs, notes`owners, alloc
      ensures ok == (old(alloc.left) >= CloneCost(|old(notes.entries)|))
      ensures ok ==> alloc.left == old(alloc.left) - CloneCost(|old(notes.entries)|)
      ensures ok ==> && Valid() && fresh(notes) && fresh(index) && OwnsAlone()
                     && Notes() == NoteSeq.RemoveKey(old(Notes()), k)
      ensures !ok ==> AsBefore()
      ensures LeftShared(old(notes), old(index), ok)
    {
      var l, ix;
      ok, l, ix := CloneEraseKey(notes, index, this, k, alloc);
      if ok {
        Release(notes);
        notes, index := l, ix;
      }
    }

    /** The unshared branch of remove(k) (binder.h:268-269), in the list itself. */
    method RemoveKeyInPlace(k: K)
      requires Valid() && notes.refs == 1 && k in index.locs
      modifies notes`cells, notes`entries, index`locs
      ensures Valid() && Notes() == NoteSeq.RemoveKey(old(Notes()), k)
    {
      EraseKey(notes, index, k);
    }

    /**
     * read(k), the mutable read (binder.h:274-287). An absent key throws
     * before anything else happens; otherwise the list is unshared, the flag
     * writeable_ref set, and the node of k handed out: the V& of the source,
     * through which Store writes.
     */
    method Read(k: K, alloc: Allocator) returns (r: Result<Cell<K, V>>)
      requires Valid()
      modifies this`notes, this`index, this`writeableRef, notes`refs, notes`owners, alloc
      ensures Valid()
      ensures r.Status() == if k !in KeySet(old(Notes())) then Failed(KeyNotFound)
                            else if old(alloc.left) >= WriteCost(old(notes.refs), |old(Notes())|, 0) then Done
                            else Failed(Thrown)
      ensures r == Err(KeyNotFound) ==> alloc.left == old(alloc.left)
      ensures r.Ok? ==> && Notes() == old(Notes()) && writeableRef && OwnsAlone() && CopiedOnWrite()
                        && alloc.left == old(alloc.left) - WriteCost(old(notes.refs), |old(Notes())|, 0)
                        && r.value in notes.cells && r.value.list == notes && r.value.key == k
                        && IndexOf(notes.cells, r.value) == Position(Notes(), k)
                        && Lookup(Notes(), k) == Some(Notes()[Position(Notes(), k)].1)
      ensures r.Err? ==> AsBefore()
      ensures old(notes.refs) != 1 ==> LeftShared(old(notes), old(index), r.Ok?)
    {
      IndexedHas(index.locs, notes.cells, notes.entries, k);
      if k !in index.locs {
        return Err(KeyNotFound);
      }
      var ok := Unshare(alloc);
      if !ok {
        return Err(Thrown);
      }
      writeableRef := true;
      IndexedPosition(index.locs, notes.cells, notes.entries, k);
      r := Ok(index.locs[k]);
    }

    /**
     * read(k) const (binder.h:289-296): the value of the note of k, or
     * KeyNotFound. It changes nothing, so it neither clones nor sets the flag.
     */
    function ReadConst(k: K): (r: Result<V>)
      reads this, notes, index
      requires Valid()
      ensures r == match Lookup(Notes(), k)
                   case Some(v) => Ok(v)
                   case None => Err(KeyNotFound)
    {
      IndexedLookup(index.locs, notes.cells, notes.entries, k);
      LookupPresent(notes.entries, k);
      if k !in index.locs then Err(KeyNotFound)
      else Ok(notes.entries[IndexOf(notes.cells, index.locs[k])].1)
    }

    /** size() (binder.h:298-300): the number of notes, one per key. */
    function Size(): (n: nat)
      reads this, notes, index
      requires Valid()
      ensures n == |Notes()| && n == |KeySet(Notes())| && n == |index.locs|
    {
      IndexedSize(index.locs, notes.cells, notes.entries);
      IndexedKeys(index.locs, notes.cells, notes.entries);
      KeySetSize(notes.entries);
      |notes.cells|
    }

    /**
     * clear() (binder.h:302-316). An empty binder is left exactly as it is,
     * flag included, and clones nothing; otherwise the list is unshared and
     * then emptied with its index.
     */
    method Clear(alloc: Allocator) returns (out: Outcome)
      requires Valid()
      modifies this, notes, index, alloc
      ensures Valid()
      ensures out == if old(Notes()) == [] || old(alloc.left) >= WriteCost(old(notes.refs), |old(Notes())|, 0) then Done
                     else Failed(Thrown)
      ensures old(Notes()) == [] ==> AsBefore() && alloc.left == old(alloc.left)
      ensures out == Done ==> Notes() == []
      ensures out == Done && old(Notes()) != [] ==> && !writeableRef && CopiedOnWrite() && OwnsAlone()
                                                    && alloc.left == old(alloc.left) - WriteCost(old(notes.refs), |old(Notes())|, 0)
      ensures out != Done ==> AsBefore()
      ensures old(notes.refs) != 1 && old(Notes()) != [] ==> LeftShared(old(notes), old(index), out == Done)
    {
      if |notes.cells| == 0 {
        return Done;
      }
      var ok := true;
      if notes.refs != 1 {
        ok := ClearCopy(alloc);
      } else {
        SoleOwner();
        EraseAll(notes, index);
      }
      if !ok {
        return Failed(Thrown);
      }
      writeableRef := false;
      out := Done;
    }

    /**
     * The shared branch of clear() (binder.h:309-314): make_copy_safe, then
     * the copy is emptied. The copy is installed, and the old list's share
     * given up, once it exists, which leaves the same state.
     */
    method ClearCopy(alloc: Allocator) returns (ok: bool)
      requires Valid() && notes.refs != 1
      modifies this`notes, this`index, notes`refs, notes`owners, alloc
      ensures ok == (old(alloc.left) >= CloneCost(|old(notes.entries)|))
      ensures ok ==> alloc.left == old(alloc.left) - CloneCost(|old(notes.entries)|)
      ensures ok ==> Valid() && fresh(notes) && fresh(index) && OwnsAlone() && Notes() == []
      ensures !ok ==> AsBefore()
      ensures LeftShared(old(notes), old(index), ok)
    {
      var l, ix;
      ok, l, ix := CloneEraseAll(notes, index, this, alloc);
      if ok {
        Release(notes);
        notes, index := l, ix;
      }
    }

    /**
     * After clear() both reads of any key throw KeyNotFound: the const read
     * by its result, the mutable read because no note holds the key.
     */
    lemma ReadAfterClear(k: K)
      requires Valid() && Notes() == []
      ensures ReadConst(k) == Err(KeyNotFound) && k !in KeySet(Notes())
    {
    }

    /** cbegin() (binder.h:318-321): an iterator on the first note. */
    function CBegin(): (it: ConstIterator<K, V>)
      reads this, notes
      ensures it.list == notes && it.pos == 0
      ensures it == CEnd() <==> Notes() == []
      ensures Notes() != [] ==> it.Deref() == Notes()[0].1
    {
      ConstIterator(notes, 0)
    }

    /**
     * cend() (binder.h:323-326): the iterator past the last note of the list,
     * where one increment per note from the first position ends.
     */
    function CEnd(): (it: ConstIterator<K, V>)
      reads this, notes
      ensures it == Advance(ConstIterator(notes, 0), |Notes()|)
    {
      AdvanceMoves(ConstIterator(notes, 0), |notes.entries|);
      ConstIterator(notes, |notes.entries|)
    }

    /**
     * Iterating from cbegin() visits the values of the notes in their order
     * and reaches cend() after the last one, and not before.
     */
    lemma Iteration(n: nat)
      requires n <= |Notes()|
      ensures Advance(CBegin(), n) == ConstIterator(notes, n)
      ensures n < |Notes()| ==> Advance(CBegin(), n).Deref() == Values(Notes())[n]
      ensures Advance(CBegin(), n) == CEnd() <==> n == |Notes()|
    {
      AdvanceMoves(CBegin(), n);
    }

    /**
     * binder(binder const&) (binder.h:102-120): the new binder takes other's
     * list and index or, when other handed out a writable reference, a deep
     * copy of them; a failed copy throws and no binder comes into being. The
     * new binder never carries the flag, and other is left as it was.
     */
    static method CopyOf(other: Binder<K, V>, alloc: Allocator) returns (r: Result<Binder<K, V>>)
      requires other.Valid()
      modifies other.notes`refs, other.notes`owners, alloc
      ensures other.Valid() && other.Notes() == old(other.Notes())
      ensures r.Status() == if !other.writeableRef || old(alloc.left) >= CloneCost(|other.Notes()|) then Done
                            else Failed(Thrown)
      ensures r.Ok? ==> && fresh(r.value) && r.value.Valid() && r.value.Notes() == other.Notes()
                        && !r.value.writeableRef && (r.value.notes == other.notes <==> !other.writeableRef)
      ensures r.Ok? && other.writeableRef ==> && fresh(r.value.notes) && fresh(r.value.index) && r.value.OwnsAlone()
                                              && alloc.left == old(alloc.left) - CloneCost(|other.Notes()|)
      ensures !other.writeableRef ==> alloc.left == old(alloc.left)
      ensures other.notes.owners == if r.Ok? && !other.writeableRef then old(other.notes.owners) + multiset{r.value}
                                    else old(other.notes.owners)
    {
      var b := new Binder.Share(other);
      if other.writeableRef {
        var ok := b.MakeCopy(alloc);
        if !ok {
          return Err(Thrown);
        }
      } else {
        b.Join(other.notes);
      }
      r := Ok(b);
    }

    /**
     * operator= (binder.h:132-157). Self-assignment changes nothing.
     * Otherwise this binder takes other's list and index or, when other
     * handed out a writable reference, a deep copy of them; a failed copy
     * throws and leaves this binder as it was, flag included. Success resets
     * the flag, and other is left as it was.
     */
    method Assign(other: Binder<K, V>, alloc: Allocator) returns (out: Outcome)
      requires Valid() && other.Valid()
      modifies this`notes, this`index, this`writeableRef, notes`refs, notes`owners,
               other.notes`refs, other.notes`owners, alloc
      ensures Valid() && other.Valid()
      ensures out == if this == other || !other.writeableRef || old(alloc.left) >= CloneCost(|old(other.Notes())|) then Done
                     else Failed(Thrown)
      ensures this == other ==> AsBefore() && alloc.left == old(alloc.left)
      ensures out == Done ==> Notes() == old(other.Notes())
      ensures out == Done && this != other ==> !writeableRef && (notes == other.notes <==> !other.writeableRef)
      ensures out != Done ==> AsBefore()
      ensures other.Notes() == old(other.Notes()) && other.writeableRef == old(other.writeableRef)
      ensures out == Done && this != other && other.writeableRef ==>
        && fresh(notes) && fresh(index) && OwnsAlone() && alloc.left == old(alloc.left) - CloneCost(|old(other.Notes())|)
      ensures this == other || !other.writeableRef ==> alloc.left == old(alloc.left)
      ensures other.notes == old(other.notes)
      ensures other.notes.owners == if out == Done && !other.writeableRef && old(notes) != other.notes
                                    then old(other.notes.owners) + multiset{this}
                                    else old(other.notes.owners)
      ensures old(notes).owners == if out == Done && notes != old(notes)
                                   then old(notes.owners) - multiset{this}
                                   else old(notes.owners)
      ensures old(notes).refs == |old(notes).owners|
    {
      if this == other {
        return Done;
      }
      var ok := true;
      if other.writeableRef {
        ok := AssignCopy(other, alloc);
      } else {
        AssignShare(other);
      }
      out := if ok then Done else Failed(Thrown);
    }

    /**
     * operator= from a binder that handed out a writable reference
     * (binder.h:140-154): a deep copy of other's list and index, installed
     * once complete; on failure the old ones are put back and the flag is
     * kept.
     */
    method AssignCopy(other: Binder<K, V>, alloc: Allocator) returns (ok: bool)
      requires Valid() && other.Valid() && this != other && other.writeableRef
      modifies this`notes, this`index, this`writeableRef, notes`refs, notes`owners, alloc
      ensures ok == (old(alloc.left) >= CloneCost(|other.Notes()|))
      ensures ok ==> Valid() && fresh(notes) && fresh(index) && OwnsAlone() && Notes() == other.Notes() && !writeableRef
      ensures ok ==> alloc.left == old(alloc.left) - CloneCost(|other.Notes()|)
      ensures !ok ==> AsBefore()
      ensures other.Valid() && other.notes.owners == old(other.notes.owners) && old(notes) != other.notes
      ensures old(notes).owners == if ok then old(notes.owners) - multiset{this} else old(notes.owners)
      ensures old(notes).refs == |old(notes).owners|
    {
      other.SoleOwner();
      var oldNotes, oldIndex := notes, index;
      notes, index := other.notes, other.index;
      ok := MakeCopy(alloc);
      if !ok {
        notes, index := oldNotes, oldIndex;
        return;
      }
      Release(oldNotes);
      writeableRef := false;
    }

    /**
     * operator= from a binder without the flag (binder.h:140-156): this
     * binder gives up its list and takes a share of other's, unless it
     * holds that list already.
     */
    method AssignShare(other: Binder<K, V>)
      requires Valid() && other.Valid() && this != other && !other.writeableRef
      modifies this`notes, this`index, this`writeableRef, notes`refs, notes`owners, other.notes`refs, other.notes`owners
      ensures Valid() && other.Valid() && notes == other.notes && index == other.index && !writeableRef
      ensures other.notes.owners == if old(notes) == other.notes then old(other.notes.owners)
                                    else old(other.notes.owners) + multiset{this}
      ensures old(notes).owners == if old(notes) == other.notes then old(notes.owners)
                                   else old(notes.owners) - multiset{this}
      ensures old(notes).refs == |old(notes).owners|
    {
      if notes != other.notes {
        Release(notes);
        Join(other.notes);
        notes, index := other.notes, other.index;
      } else {
        index := other.index;
      }
      writeableRef := false;
    }

    /**
     * Two binders holding the same list are two of its owners, so its use
     * count is not one: a mutator of either one clones first (binder.h:165).
     */
    lemma SharedNotUnique(other: Binder<K, V>)
      requires Valid() && other.Valid() && this != other && notes == other.notes
      ensures notes.refs >= 2
    {
      var rest := notes.owners - multiset{this};
      assert other in rest;
      assert notes.owners == multiset{this} + rest;
      assert |rest| >= 1;
    }

    /**
     * The shared branches of insert_after and remove(k) as written
     * (binder.h:199-213, 257-269): the node of key is looked up in the index
     * before make_copy and used after it. That node belongs to the old list,
     * which the other binders still hold, and not to the copy this binder now
     * owns, so inserting after it or erasing it would reach their notes.
     */
    method LocateThenCopy(key: K, alloc: Allocator) returns (ok: bool, at: Cell<K, V>)
      requires Valid() && notes.refs != 1 && key in index.locs
      modifies this`notes, this`index, notes`refs, notes`owners, alloc
      ensures ok == (old(alloc.left) >= CloneCost(|old(Notes())|))
      ensures ok ==> && at.list == old(notes) && at in old(notes.cells) && at.key == key
                     && at !in notes.cells && old(notes).owners != multiset{}
    {
      at := index.locs[key];
      ok := MakeCopySafe(alloc);
    }
  }
}
