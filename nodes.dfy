/**
 * The storage behind a binder of binder.h: the std::list of notes and the
 * std::map from key to list iterator, and the steps binder.h performs on
 * them (copying the list, rebuilding the index, emplacing and erasing).
 *
 * A list node is a Cell object, so a node keeps its identity while the list
 * around it changes, as a std::list iterator does; a list iterator is modelled
 * by the Cell it designates, or by its position where the sequence needs one.
 * A NoteList keeps its nodes and the notes they hold in two sequences of the
 * same length: entries[i] is the note of node cells[i]. Every node records
 * the list it was created for: nodes are never shared between two lists.
 */
module Nodes {
  import opened NoteSeq
  import opened Alloc

  /** A node of a list: the list it belongs to and the key of its note. */
  class Cell<K, V> {
    const list: NoteList<K, V>
    const key: K

    constructor (l: NoteList<K, V>, k: K)
      ensures list == l && key == k
    {
      list := l;
      key := k;
    }
  }

  /**
   * The list behind notes_: its nodes, their notes, its use count and
   * (ghost) one entry per share of it a binder holds.
   */
  class NoteList<K, V> {
    var cells: seq<Cell<K, V>>
    var entries: seq<(K, V)>
    var refs: nat
    ghost var owners: multiset<object>

    constructor ()
      ensures cells == [] && entries == [] && refs == 0 && owners == multiset{}
    {
      cells := [];
      entries := [];
      refs := 0;
      owners := multiset{};
    }
  }

  /** The map behind index_, and (ghost) the list it indexes. */
  class KeyIndex<K(==), V> {
    var locs: map<K, Cell<K, V>>
    ghost const list: NoteList<K, V>

    constructor (l: NoteList<K, V>)
      ensures locs == map[] && list == l
    {
      locs := map[];
      list := l;
    }
  }

  /** entries[i] is the note held by node cells[i]. */
  ghost predicate Matches<K, V>(cells: seq<Cell<K, V>>, entries: seq<(K, V)>)
  {
    |cells| == |entries| && forall i :: 0 <= i < |cells| ==> cells[i].key == entries[i].0
  }

  /**
   * The index locates every node of the list by its key and nothing else:
   * keys are unique, every node's key maps to that node and every entry maps
   * its key to a node of the list holding that key.
   */
  ghost predicate Indexed<K, V>(locs: map<K, Cell<K, V>>, cells: seq<Cell<K, V>>)
  {
    && DistinctKeys(cells)
    && (forall i :: 0 <= i < |cells| ==> cells[i].key in locs && locs[cells[i].key] == cells[i])
    && (forall k :: k in locs ==> locs[k] in cells && locs[k].key == k)
  }

  /**
   * No two nodes hold the same key: the first node's key recurs nowhere
   * after it, and so on down the list. Stated node by node so that a proof
   * about a list sees one node at a time; PairwiseDistinct is the same
   * property over all pairs at once.
   */
  ghost predicate DistinctKeys<K, V>(cells: seq<Cell<K, V>>)
    decreases |cells|
  {
    cells == [] || ((forall j :: 1 <= j < |cells| ==> cells[j].key != cells[0].key) && DistinctKeys(cells[1..]))
  }

  ghost predicate PairwiseDistinct<K, V>(cells: seq<Cell<K, V>>)
  {
    forall i, j :: 0 <= i < j < |cells| ==> cells[i].key != cells[j].key
  }

  /** Two nodes at different positions hold different keys. */
  lemma DistinctAt<K, V>(cells: seq<Cell<K, V>>, i: nat, j: nat)
    requires DistinctKeys(cells) && i < |cells| && j < |cells| && i != j
    ensures cells[i].key != cells[j].key
  {
    DistinctPairwise(cells);
  }

  lemma {:induction false} DistinctPairwise<K, V>(cells: seq<Cell<K, V>>)
    ensures DistinctKeys(cells) <==> PairwiseDistinct(cells)
    decreases |cells|
  {
    if cells != [] {
      var t := cells[1..];
      DistinctPairwise(t);
      if DistinctKeys(cells) {
        forall i, j | 0 <= i < j < |cells| ensures cells[i].key != cells[j].key {
          if i > 0 {
            assert cells[i] == t[i - 1] && cells[j] == t[j - 1];
          }
        }
      }
      if PairwiseDistinct(cells) {
        forall a, b | 0 <= a < b < |t| ensures t[a].key != t[b].key {
          assert t[a] == cells[a + 1] && t[b] == cells[b + 1];
        }
      }
    }
  }

  /** Every node belongs to list l. */
  ghost predicate Homed<K, V>(cells: seq<Cell<K, V>>, l: NoteList<K, V>)
  {
    forall i :: 0 <= i < |cells| ==> cells[i].list == l
  }

  /**
   * The position of a node in its list. std::list reaches a node through the
   * iterator in O(1); the sequence model needs the position to splice at.
   */
  function IndexOf<T(==)>(s: seq<T>, x: T): (i: nat)
    requires x in s
    ensures i < |s| && s[i] == x
  {
    if s[0] == x then 0 else 1 + IndexOf(s[1..], x)
  }

  // -----------------------------------------------------------------------
  // Facts about a list and its index

  /** Nodes with distinct keys hold notes with unique keys. */
  lemma DistinctUnique<K, V>(cells: seq<Cell<K, V>>, s: seq<(K, V)>)
    requires DistinctKeys(cells) && Matches(cells, s)
    ensures UniqueKeys(s)
  {
    DistinctPairwise(cells);
    forall i, j | 0 <= i < j < |s| ensures s[i].0 != s[j].0 {
      assert s[i].0 == cells[i].key && s[j].0 == cells[j].key;
    }
  }

  /** The index's keys are the notes' keys, and those are unique. */
  lemma IndexedKeys<K, V>(locs: map<K, Cell<K, V>>, cells: seq<Cell<K, V>>, s: seq<(K, V)>)
    requires Indexed(locs, cells) && Matches(cells, s)
    ensures locs.Keys == KeySet(s) && UniqueKeys(s)
  {
    DistinctUnique(cells, s);
    forall k | k in locs ensures k in KeySet(s) {
      var i := IndexOf(cells, locs[k]);
      assert s[i].0 == k;
    }
    forall k | k in KeySet(s) ensures k in locs {
      var i :| 0 <= i < |s| && s[i].0 == k;
      assert cells[i].key == k;
    }
  }

  /** A key is in the index exactly when some note holds it. */
  lemma IndexedHas<K, V>(locs: map<K, Cell<K, V>>, cells: seq<Cell<K, V>>, s: seq<(K, V)>, k: K)
    requires Indexed(locs, cells) && Matches(cells, s)
    ensures k in locs <==> k in KeySet(s)
  {
    if k in locs {
      var i := IndexOf(cells, locs[k]);
      assert s[i].0 == k;
    }
    if k in KeySet(s) {
      var i :| 0 <= i < |s| && s[i].0 == k;
      assert cells[i].key == k;
    }
  }

  /** The index has as many entries as the list has nodes (size() of either). */
  lemma IndexedSize<K, V>(locs: map<K, Cell<K, V>>, cells: seq<Cell<K, V>>, s: seq<(K, V)>)
    requires Indexed(locs, cells) && Matches(cells, s)
    ensures |locs| == |cells|
  {
    IndexedKeys(locs, cells, s);
    KeySetSize(s);
    assert |locs| == |locs.Keys|;
  }

  /** Looking a key up in the index agrees with looking it up in the notes. */
  lemma IndexedLookup<K, V>(locs: map<K, Cell<K, V>>, cells: seq<Cell<K, V>>, s: seq<(K, V)>, k: K)
    requires Indexed(locs, cells) && Matches(cells, s)
    ensures k in locs <==> k in KeySet(s)
    ensures k in locs ==> Lookup(s, k) == Some(s[IndexOf(cells, locs[k])].1)
  {
    IndexedKeys(locs, cells, s);
    if k in locs {
      LookupAt(s, IndexOf(cells, locs[k]));
    }
  }

  /** The index leads to the note of k: the one at k's position, holding k's value. */
  lemma IndexedPosition<K, V>(locs: map<K, Cell<K, V>>, cells: seq<Cell<K, V>>, s: seq<(K, V)>, k: K)
    requires Indexed(locs, cells) && Matches(cells, s) && k in locs
    ensures k in KeySet(s) && IndexOf(cells, locs[k]) == Position(s, k)
    ensures Lookup(s, k) == Some(s[Position(s, k)].1)
  {
    IndexedLookup(locs, cells, s, k);
    DistinctUnique(cells, s);
  }

  /** A node spliced in at position i holds the note spliced in at position i. */
  lemma MatchesSplice<K, V>(cells: seq<Cell<K, V>>, s: seq<(K, V)>, i: nat, c: Cell<K, V>, v: V)
    requires Matches(cells, s) && i <= |cells|
    ensures Matches(cells[..i] + [c] + cells[i..], s[..i] + [(c.key, v)] + s[i..])
  {
    SplicedIn(cells, i, c);
    SplicedIn(s, i, (c.key, v));
  }

  /** Cutting out the node and the note at position i keeps them paired. */
  lemma MatchesCut<K, V>(cells: seq<Cell<K, V>>, s: seq<(K, V)>, i: nat)
    requires Matches(cells, s) && i < |cells|
    ensures Matches(cells[..i] + cells[i + 1..], s[..i] + s[i + 1..])
  {
    CutOut(cells, i);
    CutOut(s, i);
  }

  /** Entering a new node under a new key keeps the index exact. */
  lemma IndexedSplice<K, V>(locs: map<K, Cell<K, V>>, cells: seq<Cell<K, V>>, i: nat, c: Cell<K, V>)
    requires Indexed(locs, cells) && i <= |cells| && c.key !in locs
    ensures Indexed(locs[c.key := c], cells[..i] + [c] + cells[i..])
  {
    var r := cells[..i] + [c] + cells[i..];
    var m := locs[c.key := c];
    SplicedIn(cells, i, c);
    assert forall j :: 0 <= j < |cells| ==> cells[j].key != c.key;
    DistinctSplice(cells, i, c);
    forall j | 0 <= j < |r| ensures r[j].key in m && m[r[j].key] == r[j] {
      if j < i {
        assert r[j] == cells[j];
      } else if j > i {
        assert r[j] == cells[j - 1];
      }
    }
    forall k | k in m ensures m[k] in r {
      if k != c.key {
        var j := IndexOf(cells, locs[k]);
        assert r[if j < i then j else j + 1] == cells[j];
      }
    }
  }

  lemma DistinctSplice<K, V>(cells: seq<Cell<K, V>>, i: nat, c: Cell<K, V>)
    requires DistinctKeys(cells) && i <= |cells|
    requires forall j :: 0 <= j < |cells| ==> cells[j].key != c.key
    ensures DistinctKeys(cells[..i] + [c] + cells[i..])
  {
    var r := cells[..i] + [c] + cells[i..];
    SplicedIn(cells, i, c);
    DistinctPairwise(cells);
    DistinctPairwise(r);
    forall a, b | 0 <= a < b < |r| ensures r[a].key != r[b].key {
      if a == i {
        assert r[b] == cells[b - 1];
      } else if b == i {
        assert r[a] == cells[a];
      } else {
        assert r[a] == cells[if a < i then a else a - 1];
        assert r[b] == cells[if b < i then b else b - 1];
      }
    }
  }

  /** Erasing the node at position i together with its key keeps the index exact. */
  lemma IndexedCut<K, V>(locs: map<K, Cell<K, V>>, cells: seq<Cell<K, V>>, i: nat)
    requires Indexed(locs, cells) && i < |cells|
    ensures Indexed(locs - {cells[i].key}, cells[..i] + cells[i + 1..])
  {
    var r := cells[..i] + cells[i + 1..];
    var m := locs - {cells[i].key};
    CutOut(cells, i);
    DistinctCut(cells, i);
    forall j | 0 <= j < |r| ensures r[j].key in m && m[r[j].key] == r[j] {
      assert r[j] == cells[if j < i then j else j + 1];
      DistinctAt(cells, i, if j < i then j else j + 1);
    }
    forall k | k in m ensures m[k] in r {
      var j := IndexOf(cells, locs[k]);
      assert j != i;
      assert r[if j < i then j else j - 1] == cells[j];
    }
  }

  lemma DistinctCut<K, V>(cells: seq<Cell<K, V>>, i: nat)
    requires DistinctKeys(cells) && i < |cells|
    ensures DistinctKeys(cells[..i] + cells[i + 1..])
  {
    var r := cells[..i] + cells[i + 1..];
    CutOut(cells, i);
    DistinctPairwise(cells);
    DistinctPairwise(r);
    forall a, b | 0 <= a < b < |r| ensures r[a].key != r[b].key {
      assert r[a] == cells[if a < i then a else a + 1];
      assert r[b] == cells[if b < i then b else b + 1];
    }
  }

  /**
   * Inserting after the node the index holds for p, i.e. at the position
   * following it, is what InsertAfter does to the notes.
   */
  lemma IndexedInsertAfter<K, V>(locs: map<K, Cell<K, V>>, cells: seq<Cell<K, V>>, s: seq<(K, V)>, p: K, k: K, v: V)
    returns (i: nat)
    requires Indexed(locs, cells) && Matches(cells, s) && p in locs
    ensures i == IndexOf(cells, locs[p]) + 1 && i <= |cells|
    ensures InsertAfter(s, p, k, v) == s[..i] + [(k, v)] + s[i..]
  {
    i := IndexOf(cells, locs[p]) + 1;
    DistinctUnique(cells, s);
    assert s[i - 1].0 == p;
    InsertAfterAt(s, p, k, v, i - 1);
  }

  /** Erasing the node the index holds for k is what RemoveKey does to the notes. */
  lemma IndexedRemoveKey<K, V>(locs: map<K, Cell<K, V>>, cells: seq<Cell<K, V>>, s: seq<(K, V)>, k: K)
    returns (i: nat)
    requires Indexed(locs, cells) && Matches(cells, s) && k in locs
    ensures i == IndexOf(cells, locs[k]) && i < |cells|
    ensures RemoveKey(s, k) == s[..i] + s[i + 1..]
  {
    i := IndexOf(cells, locs[k]);
    DistinctUnique(cells, s);
    assert s[i].0 == k;
    RemoveKeyAt(s, k, i);
  }

  // -----------------------------------------------------------------------
  // The steps binder.h performs on a list and its index

  /** Steps of one insertion: the list node holding a copy of the value, then the index entry. */
  const InsertCost: nat := 2

  /**
   * std::make_shared<list_type>(*notes_): one step for the list, then a new
   * node per note, each holding a copy of its value. The new list starts with
   * one share, held by owner.
   */
  method CopyList<K, V>(src: seq<(K, V)>, owner: object, alloc: Allocator) returns (ok: bool, l: NoteList?<K, V>)
    modifies alloc
    ensures ok == (old(alloc.left) > |src|)
    ensures alloc.left == if ok then old(alloc.left) - (|src| + 1) else 0
    ensures ok ==> && l != null && fresh(l) && l.refs == 1 && l.owners == multiset{owner}
                   && l.entries == src && Matches(l.cells, l.entries) && Homed(l.cells, l)
  {
    l := null;
    ok := alloc.Acquire();
    if !ok {
      return;
    }
    l := new NoteList();
    var i := 0;
    while i < |src|
      invariant 0 <= i <= |src| && l.entries == src[..i]
      invariant fresh(l) && l.refs == 0 && l.owners == multiset{}
      invariant Matches(l.cells, l.entries) && Homed(l.cells, l)
      invariant alloc.left == old(alloc.left) - (i + 1)
    {
      ok := alloc.Acquire();
      if !ok {
        return;
      }
      var c := new Cell(l, src[i].0);
      l.cells, l.entries := l.cells + [c], l.entries + [src[i]];
      i := i + 1;
    }
    assert l.entries == src;
    l.refs, l.owners := 1, multiset{owner};
  }

  /** Unique keys in the notes make the keys of their nodes distinct. */
  lemma UniqueDistinct<K, V>(cells: seq<Cell<K, V>>, s: seq<(K, V)>)
    requires UniqueKeys(s) && Matches(cells, s)
    ensures DistinctKeys(cells)
  {
    forall i, j | 0 <= i < j < |cells| ensures cells[i].key != cells[j].key {
      assert s[i].0 != s[j].0;
    }
    DistinctPairwise(cells);
  }

  /**
   * make_copy (binder.h:328-334) without the assignments to notes_ and
   * index_: a copy of list l, owned by owner, then a new index over the copy.
   * The copy comes back once it is complete, and the new map once it was
   * allocated, filled or not. Nothing of l or ix changes.
   */
  method Clone<K, V>(l: NoteList<K, V>, ix: KeyIndex<K, V>, owner: object, alloc: Allocator)
    returns (ok: bool, l': NoteList?<K, V>, ix': KeyIndex?<K, V>)
    requires Indexed(ix.locs, l.cells) && Matches(l.cells, l.entries)
    modifies alloc
    ensures ok == (old(alloc.left) >= 2 * |l.entries| + 2)
    ensures ok ==> alloc.left == old(alloc.left) - (2 * |l.entries| + 2)
    ensures l' != null <==> old(alloc.left) > |l.entries|
    ensures ix' != null <==> old(alloc.left) > |l.entries| + 1
    ensures l' != null ==> fresh(l') && l'.refs == 1 && l'.owners == multiset{owner}
    ensures ix' != null ==> l' != null && fresh(ix') && ix'.list == l'
    ensures ok ==> && l' != null && ix' != null
                   && Indexed(ix'.locs, l'.cells) && Homed(l'.cells, l') && Matches(l'.cells, l'.entries)
                   && l'.entries == l.entries && ix'.locs.Keys == ix.locs.Keys
  {
    DistinctUnique(l.cells, l.entries);
    ix' := null;
    var copied;
    copied, l' := CopyList(l.entries, owner, alloc);
    if !copied {
      return false, null, null;
    }
    UniqueDistinct(l'.cells, l'.entries);
    ok, ix' := NewIndex(l', alloc);
    if ok {
      IndexedKeys(ix.locs, l.cells, l.entries);
      IndexedKeys(ix'.locs, l'.cells, l'.entries);
    }
  }

  /**
   * The index half of make_copy: a new, empty map for one step, then every
   * node of list l entered into it, one step each. The map comes back once it
   * was allocated, filled or not.
   */
  method NewIndex<K, V>(l: NoteList<K, V>, alloc: Allocator) returns (ok: bool, ix: KeyIndex?<K, V>)
    requires DistinctKeys(l.cells)
    modifies alloc
    ensures ok == (old(alloc.left) > |l.cells|)
    ensures alloc.left == if ok then old(alloc.left) - (|l.cells| + 1) else 0
    ensures (ix != null <==> old(alloc.left) > 0) && (ix != null ==> fresh(ix) && ix.list == l)
    ensures ok ==> ix != null && Indexed(ix.locs, l.cells)
  {
    ix := null;
    ok := alloc.Acquire();
    if !ok {
      return;
    }
    ix := new KeyIndex(l);
    ok := FillIndex(ix, l.cells, alloc);
  }

  /** The loop of make_copy: enters every node of a list into an empty index, one step each. */
  method FillIndex<K, V>(ix: KeyIndex<K, V>, cells: seq<Cell<K, V>>, alloc: Allocator) returns (ok: bool)
    requires ix.locs == map[] && DistinctKeys(cells)
    modifies ix`locs, alloc
    ensures ok == (old(alloc.left) >= |cells|)
    ensures alloc.left == if ok then old(alloc.left) - |cells| else 0
    ensures ok ==> Indexed(ix.locs, cells)
  {
    DistinctPairwise(cells);
    ok := true;
    var i := 0;
    while i < |cells|
      invariant 0 <= i <= |cells|
      invariant forall j :: 0 <= j < i ==> cells[j].key in ix.locs && ix.locs[cells[j].key] == cells[j]
      invariant forall k :: k in ix.locs ==> exists j :: 0 <= j < i && ix.locs[k] == cells[j] && cells[j].key == k
      invariant alloc.left == old(alloc.left) - i
    {
      ok := alloc.Acquire();
      if !ok {
        return;
      }
      // index_->emplace(it->first, it)
      ix.locs := ix.locs[cells[i].key := cells[i]];
      i := i + 1;
    }
  }

  /**
   * notes_->emplace(pos, k, v): a new node for the note, linked in at
   * position i. Allocating the node and copying the value is one step.
   */
  method LinkNode<K, V>(l: NoteList<K, V>, i: nat, k: K, v: V, alloc: Allocator) returns (ok: bool, c: Cell?<K, V>)
    requires Homed(l.cells, l) && Matches(l.cells, l.entries) && i <= |l.cells|
    modifies l`cells, l`entries, alloc
    ensures ok == (old(alloc.left) > 0)
    ensures alloc.left == if ok then old(alloc.left) - 1 else old(alloc.left)
    ensures !ok ==> l.cells == old(l.cells) && l.entries == old(l.entries)
    ensures ok ==> && c != null && fresh(c) && c.list == l && c.key == k
                   && l.cells == old(l.cells)[..i] + [c] + old(l.cells)[i..]
                   && l.entries == old(l.entries)[..i] + [(k, v)] + old(l.entries)[i..]
                   && Homed(l.cells, l) && Matches(l.cells, l.entries)
  {
    c := null;
    ok := alloc.Acquire();
    if !ok {
      return;
    }
    c := new Cell(l, k);
    MatchesSplice(l.cells, l.entries, i, c, v);
    SplicedIn(l.cells, i, c);
    l.cells, l.entries := l.cells[..i] + [c] + l.cells[i..], l.entries[..i] + [(k, v)] + l.entries[i..];
  }

  /**
   * notes_->emplace(pos, k, v) followed by index_->emplace(k, new_it): a node
   * for the note at position i, then an index entry for it, one step each.
   * A failure of the first step changes nothing; a failure of the second
   * leaves the node in the list.
   */
  method Emplace<K, V>(l: NoteList<K, V>, ix: KeyIndex<K, V>, i: nat, k: K, v: V, alloc: Allocator)
    returns (ok: bool, c: Cell?<K, V>)
    requires Indexed(ix.locs, l.cells) && Homed(l.cells, l) && Matches(l.cells, l.entries)
    requires i <= |l.cells| && k !in ix.locs
    modifies l`cells, l`entries, ix`locs, alloc
    ensures ok == (old(alloc.left) >= InsertCost)
    ensures alloc.left == if ok then old(alloc.left) - InsertCost else 0
    ensures old(alloc.left) == 0 ==> l.cells == old(l.cells) && l.entries == old(l.entries)
    ensures old(alloc.left) > 0 ==> && c != null && fresh(c) && c.list == l && c.key == k
                                    && l.cells == old(l.cells)[..i] + [c] + old(l.cells)[i..]
                                    && l.entries == old(l.entries)[..i] + [(k, v)] + old(l.entries)[i..]
    ensures ix.locs == if ok then old(ix.locs)[k := c] else old(ix.locs)
    ensures Homed(l.cells, l) && Matches(l.cells, l.entries)
    ensures ok ==> Indexed(ix.locs, l.cells)
  {
    ghost var before := l.cells;
    ok, c := LinkNode(l, i, k, v, alloc);
    if !ok {
      return;
    }
    IndexedSplice(ix.locs, before, i, c);
    ok := alloc.Acquire();
    if ok {
      ix.locs := ix.locs[k := c];
    }
  }

  /**
   * The unshared branches of insert_front and insert_after: Emplace, and on a
   * failure the new node is erased if the list grew and the key is erased if
   * the index grew, so that a failure leaves list and index as they were.
   */
  method TryEmplace<K, V>(l: NoteList<K, V>, ix: KeyIndex<K, V>, i: nat, k: K, v: V, alloc: Allocator)
    returns (ok: bool)
    requires Indexed(ix.locs, l.cells) && Homed(l.cells, l) && Matches(l.cells, l.entries)
    requires i <= |l.cells| && k !in ix.locs
    modifies l`cells, l`entries, ix`locs, alloc
    ensures ok == (old(alloc.left) >= InsertCost)
    ensures ok ==> alloc.left == old(alloc.left) - InsertCost
    ensures Indexed(ix.locs, l.cells) && Homed(l.cells, l) && Matches(l.cells, l.entries)
    ensures ok ==> l.entries == old(l.entries)[..i] + [(k, v)] + old(l.entries)[i..]
    ensures !ok ==> l.cells == old(l.cells) && l.entries == old(l.entries) && ix.locs == old(ix.locs)
  {
    IndexedSize(ix.locs, l.cells, l.entries);
    var prvSize := |l.cells|;
    ghost var cells, entries := l.cells, l.entries;
    var c;
    ok, c := Emplace(l, ix, i, k, v, alloc);
    if !ok {
      if |l.cells| != prvSize {
        SpliceCut(cells, i, c);
        SpliceCut(entries, i, (k, v));
        // notes_->erase(new_it), which is notes_->pop_front() when i is 0
        l.cells, l.entries := l.cells[..i] + l.cells[i + 1..], l.entries[..i] + l.entries[i + 1..];
      }
      var locs := ix.locs;
      if |locs| != prvSize {
        // index_->erase(k)
        locs := locs - {k};
      }
      ix.locs := locs;
    }
  }

  /**
   * std::next(index_->find(p)->second), then Emplace there: the note goes
   * right after the node of p.
   */
  method EmplaceAfter<K, V>(l: NoteList<K, V>, ix: KeyIndex<K, V>, p: K, k: K, v: V, alloc: Allocator)
    returns (ok: bool)
    requires Indexed(ix.locs, l.cells) && Homed(l.cells, l) && Matches(l.cells, l.entries)
    requires p in ix.locs && k !in ix.locs
    modifies l`cells, l`entries, ix`locs, alloc
    ensures ok == (old(alloc.left) >= InsertCost)
    ensures ok ==> alloc.left == old(alloc.left) - InsertCost
    ensures ok ==> && Indexed(ix.locs, l.cells) && Homed(l.cells, l) && Matches(l.cells, l.entries)
                   && l.entries == InsertAfter(old(l.entries), p, k, v)
  {
    var i := IndexOf(l.cells, ix.locs[p]) + 1;
    ghost var at := IndexedInsertAfter(ix.locs, l.cells, l.entries, p, k, v);
    var c;
    ok, c := Emplace(l, ix, i, k, v, alloc);
  }

  /**
   * The shared branch of insert_front (binder.h:170-173): make_copy, then the
   * note goes first in the copy. Copy and index come back when every step
   * succeeded.
   */
  method CloneInsertFront<K, V>(l: NoteList<K, V>, ix: KeyIndex<K, V>, owner: object, k: K, v: V, alloc: Allocator)
    returns (ok: bool, l': NoteList?<K, V>, ix': KeyIndex?<K, V>)
    requires Indexed(ix.locs, l.cells) && Matches(l.cells, l.entries) && k !in ix.locs
    modifies alloc
    ensures ok == (old(alloc.left) >= 2 * |l.entries| + 2 + InsertCost)
    ensures ok ==> alloc.left == old(alloc.left) - (2 * |l.entries| + 2 + InsertCost)
    ensures ok ==> && l' != null && ix' != null && fresh(l') && fresh(ix') && ix'.list == l'
                   && l'.refs == 1 && l'.owners == multiset{owner}
                   && Indexed(ix'.locs, l'.cells) && Homed(l'.cells, l') && Matches(l'.cells, l'.entries)
                   && l'.entries == InsertFront(l.entries, k, v)
  {
    ok, l', ix' := Clone(l, ix, owner, alloc);
    if ok {
      SpliceFront(l'.entries, (k, v));
      // notes_->emplace_front(k, v); index_->emplace(k, notes_->begin())
      var c;
      ok, c := Emplace(l', ix', 0, k, v, alloc);
    }
  }

  /**
   * The shared branch of insert_after (binder.h:211-214), with the position
   * taken from the copy's own index: make_copy, then the note goes right
   * after the copy's node of p. Copy and index come back when every step
   * succeeded.
   */
  method CloneInsertAfter<K, V>(l: NoteList<K, V>, ix: KeyIndex<K, V>, owner: object, p: K, k: K, v: V, alloc: Allocator)
    returns (ok: bool, l': NoteList?<K, V>, ix': KeyIndex?<K, V>)
    requires Indexed(ix.locs, l.cells) && Matches(l.cells, l.entries) && p in ix.locs && k !in ix.locs
    modifies alloc
    ensures ok == (old(alloc.left) >= 2 * |l.entries| + 2 + InsertCost)
    ensures ok ==> alloc.left == old(alloc.left) - (2 * |l.entries| + 2 + InsertCost)
    ensures ok ==> && l' != null && ix' != null && fresh(l') && fresh(ix') && ix'.list == l'
                   && l'.refs == 1 && l'.owners == multiset{owner}
                   && Indexed(ix'.locs, l'.cells) && Homed(l'.cells, l') && Matches(l'.cells, l'.entries)
                   && l'.entries == InsertAfter(l.entries, p, k, v)
  {
    ok, l', ix' := Clone(l, ix, owner, alloc);
    if ok {
      ok := EmplaceAfter(l', ix', p, k, v, alloc);
    }
  }

  /**
   * notes_->erase(pos) with index_->erase(key): the node at position i, its
   * note and its key leave list and index.
   */
  method EraseAt<K, V>(l: NoteList<K, V>, ix: KeyIndex<K, V>, i: nat)
    requires Indexed(ix.locs, l.cells) && Homed(l.cells, l) && Matches(l.cells, l.entries) && i < |l.cells|
    modifies l`cells, l`entries, ix`locs
    ensures Indexed(ix.locs, l.cells) && Homed(l.cells, l) && Matches(l.cells, l.entries)
    ensures l.entries == old(l.entries)[..i] + old(l.entries)[i + 1..]
  {
    IndexedCut(ix.locs, l.cells, i);
    MatchesCut(l.cells, l.entries, i);
    CutOut(l.cells, i);
    ix.locs := ix.locs - {l.cells[i].key};
    l.cells, l.entries := l.cells[..i] + l.cells[i + 1..], l.entries[..i] + l.entries[i + 1..];
  }

  /**
   * notes_->erase(it->second) with index_->erase(it), it being the index
   * entry of k (binder.h:268-269): the note of k and its key leave list and
   * index.
   */
  method EraseKey<K, V>(l: NoteList<K, V>, ix: KeyIndex<K, V>, k: K)
    requires Indexed(ix.locs, l.cells) && Homed(l.cells, l) && Matches(l.cells, l.entries) && k in ix.locs
    modifies l`cells, l`entries, ix`locs
    ensures Indexed(ix.locs, l.cells) && Homed(l.cells, l) && Matches(l.cells, l.entries)
    ensures l.entries == RemoveKey(old(l.entries), k)
  {
    var i := IndexOf(l.cells, ix.locs[k]);
    ghost var at := IndexedRemoveKey(ix.locs, l.cells, l.entries, k);
    EraseAt(l, ix, i);
  }

  /**
   * The shared branch of remove() (binder.h:244-251): make_copy, then the
   * first note leaves the copy and its key the copy's index. Copy and index
   * come back when the copy succeeded.
   */
  method CloneEraseFront<K, V>(l: NoteList<K, V>, ix: KeyIndex<K, V>, owner: object, alloc: Allocator)
    returns (ok: bool, l': NoteList?<K, V>, ix': KeyIndex?<K, V>)
    requires Indexed(ix.locs, l.cells) && Matches(l.cells, l.entries) && l.entries != []
    modifies alloc
    ensures ok == (old(alloc.left) >= 2 * |l.entries| + 2)
    ensures ok ==> alloc.left == old(alloc.left) - (2 * |l.entries| + 2)
    ensures ok ==> && l' != null && ix' != null && fresh(l') && fresh(ix') && ix'.list == l'
                   && l'.refs == 1 && l'.owners == multiset{owner}
                   && Indexed(ix'.locs, l'.cells) && Homed(l'.cells, l') && Matches(l'.cells, l'.entries)
                   && l'.entries == RemoveFront(l.entries)
  {
    ok, l', ix' := Clone(l, ix, owner, alloc);
    if ok {
      assert l.entries[..0] + l.entries[1..] == l.entries[1..];
      EraseAt(l', ix', 0);
    }
  }

  /**
   * The shared branch of remove(k) (binder.h:262-269), with the node of k
   * taken from the copy's own index: make_copy, then the note of k leaves
   * the copy and k the copy's index.
   */
  method CloneEraseKey<K, V>(l: NoteList<K, V>, ix: KeyIndex<K, V>, owner: object, k: K, alloc: Allocator)
    returns (ok: bool, l': NoteList?<K, V>, ix': KeyIndex?<K, V>)
    requires Indexed(ix.locs, l.cells) && Matches(l.cells, l.entries) && k in ix.locs
    modifies alloc
    ensures ok == (old(alloc.left) >= 2 * |l.entries| + 2)
    ensures ok ==> alloc.left == old(alloc.left) - (2 * |l.entries| + 2)
    ensures ok ==> && l' != null && ix' != null && fresh(l') && fresh(ix') && ix'.list == l'
                   && l'.refs == 1 && l'.owners == multiset{owner}
                   && Indexed(ix'.locs, l'.cells) && Homed(l'.cells, l') && Matches(l'.cells, l'.entries)
                   && l'.entries == RemoveKey(l.entries, k)
  {
    ok, l', ix' := Clone(l, ix, owner, alloc);
    if ok {
      EraseKey(l', ix', k);
    }
  }

  /** notes_->clear() with index_->clear(): list and index end up empty. */
  method EraseAll<K, V>(l: NoteList<K, V>, ix: KeyIndex<K, V>)
    modifies l`cells, l`entries, ix`locs
    ensures Indexed(ix.locs, l.cells) && Homed(l.cells, l) && Matches(l.cells, l.entries)
    ensures l.entries == []
  {
    l.cells, l.entries := [], [];
    ix.locs := map[];
  }

  /**
   * The shared branch of clear() (binder.h:309-314): make_copy, then the
   * copy and its index are emptied.
   */
  method CloneEraseAll<K, V>(l: NoteList<K, V>, ix: KeyIndex<K, V>, owner: object, alloc: Allocator)
    returns (ok: bool, l': NoteList?<K, V>, ix': KeyIndex?<K, V>)
    requires Indexed(ix.locs, l.cells) && Matches(l.cells, l.entries)
    modifies alloc
    ensures ok == (old(alloc.left) >= 2 * |l.entries| + 2)
    ensures ok ==> alloc.left == old(alloc.left) - (2 * |l.entries| + 2)
    ensures ok ==> && l' != null && ix' != null && fresh(l') && fresh(ix') && ix'.list == l'
                   && l'.refs == 1 && l'.owners == multiset{owner}
                   && Indexed(ix'.locs, l'.cells) && Homed(l'.cells, l') && Matches(l'.cells, l'.entries)
                   && l'.entries == []
  {
    ok, l', ix' := Clone(l, ix, owner, alloc);
    if ok {
      EraseAll(l', ix');
    }
  }

  /**
   * Assignment through the V& that read(k) returned: the note of that node
   * takes the new value, in whichever list the node is in.
   */
  method Store<K, V>(c: Cell<K, V>, x: V)
    requires c in c.list.cells && Matches(c.list.cells, c.list.entries)
    modifies c.list`entries
    ensures c.list.entries == old(c.list.entries)[IndexOf(c.list.cells, c) := (c.key, x)]
    ensures Matches(c.list.cells, c.list.entries)
  {
    var i := IndexOf(c.list.cells, c);
    c.list.entries := c.list.entries[i := (c.key, x)];
  }
}
