/**
 * Copy-on-write seen from several binders (test_copy_on_write,
 * binder_tests.cpp:105-118): what a mutator does to one binder never reaches
 * the notes of another.
 */
module Sharing {
  import opened NoteSeq
  import opened Alloc
  import opened Nodes
  import opened Cxx

  /**
   * insert_front on binder a leaves the notes of every other binder b as
   * they were, whether or not the two shared a list (binder.h:165-178).
   */
  method InsertFrontElsewhere<K, V>(a: Binder<K, V>, b: Binder<K, V>, k: K, v: V, alloc: Allocator)
    returns (out: Outcome)
    requires a.Valid() && b.Valid() && a != b
    modifies a, a.notes, a.index, alloc
    ensures b.Valid() && b.Notes() == old(b.Notes())
    ensures out == Done ==> a.Notes() == InsertFront(old(a.Notes()), k, v)
  {
    if a.notes == b.notes {
      a.SharedNotUnique(b);
    }
    out := a.InsertFront(k, v, alloc);
  }

  /**
   * A binder that owns its list alone inserts twice in place: two insertions
   * cost exactly two steps each, and the second sees the first's note. The
   * first insert_front leaves the binder sole owner, so the second clones
   * nothing either (binder.h:165, 179-193).
   */
  method InsertFrontTwice<K, V>(a: Binder<K, V>, k1: K, v1: V, k2: K, v2: V, alloc: Allocator)
    returns (out1: Outcome, out2: Outcome)
    requires a.Valid() && a.notes.refs == 1 && k1 != k2
    requires k1 !in KeySet(a.Notes()) && k2 !in KeySet(a.Notes())
    requires alloc.left == 2 * InsertCost
    modifies a, a.notes, a.index, alloc
    ensures out1 == Done && out2 == Done && alloc.left == 0
    ensures a.Valid() && a.OwnsAlone() && a.notes == old(a.notes)
    ensures a.Notes() == InsertFront(InsertFront(old(a.Notes()), k1, v1), k2, v2)
  {
    IndexedKeys(a.index.locs, a.notes.cells, a.notes.entries);
    out1 := a.InsertFront(k1, v1, alloc);
    InsertFrontSpec(old(a.Notes()), k1, v1);
    out2 := a.InsertFront(k2, v2, alloc);
  }

  /**
   * operator= moves a's share from its old list to b's (binder.h:141-142):
   * a third binder c holding either list keeps a valid use count and its
   * notes.
   */
  method AssignKeepsOthers<K, V>(a: Binder<K, V>, b: Binder<K, V>, c: Binder<K, V>, alloc: Allocator)
    returns (out: Outcome)
    requires a.Valid() && b.Valid() && c.Valid() && c != a && c != b
    modifies a`notes, a`index, a`writeableRef, a.notes`refs, a.notes`owners,
             b.notes`refs, b.notes`owners, alloc
    ensures c.Valid() && c.Notes() == old(c.Notes())
    ensures out == Done ==> a.Notes() == old(b.Notes())
  {
    if c.writeableRef {
      // c holds its list alone, so neither a's nor b's list is c's
      c.SoleOwner();
    }
    out := a.Assign(b, alloc);
  }
}
