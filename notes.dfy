/**
 * The abstract content of a binder: its notes, a sequence of (key, value)
 * pairs in iteration order, and the edits the binder's operations make to it.
 * Everything here is a value; the classes in module Cxx are proved to keep
 * their state equal to one of these sequences.
 */
module NoteSeq {

  datatype Option<T> = None | Some(value: T)

  /** No key occurs twice: the binder refuses duplicate keys. */
  predicate UniqueKeys<K(==), V>(s: seq<(K, V)>)
  {
    forall i, j :: 0 <= i < j < |s| ==> s[i].0 != s[j].0
  }

  /** The keys of the notes, i.e. the domain of the binder's index. */
  function KeySet<K(==), V>(s: seq<(K, V)>): set<K>
  {
    set i | 0 <= i < |s| :: s[i].0
  }

  /**
   * What forward iteration yields: the value of the first note, then the
   * values of the rest. It is the value of each note, in order.
   */
  function Values<K(==), V>(s: seq<(K, V)>): (r: seq<V>)
    ensures |r| == |s|
    ensures forall i :: 0 <= i < |s| ==> r[i] == s[i].1
  {
    if s == [] then [] else [s[0].1] + Values(s[1..])
  }

  /** The value bound to k, if any. */
  function Lookup<K(==), V>(s: seq<(K, V)>, k: K): Option<V>
  {
    if s == [] then None
    else if s[0].0 == k then Some(s[0].1)
    else Lookup(s[1..], k)
  }

  /** Position of the note with key k; the first one, should there be several. */
  function Position<K(==), V>(s: seq<(K, V)>, k: K): (r: nat)
    requires k in KeySet(s)
    ensures r < |s| && s[r].0 == k
    ensures forall j :: 0 <= j < r ==> s[j].0 != k
  {
    if s[0].0 == k then 0
    else
      assert k in KeySet(s[1..]) by {
        var i :| 0 <= i < |s| && s[i].0 == k;
        assert s[1..][i - 1].0 == k;
      }
      1 + Position(s[1..], k)
  }

  function InsertFront<K(==), V>(s: seq<(K, V)>, k: K, v: V): seq<(K, V)>
  {
    [(k, v)] + s
  }

  /** The new note goes right after the note whose key is p. */
  function InsertAfter<K(==), V>(s: seq<(K, V)>, p: K, k: K, v: V): seq<(K, V)>
  {
    if s == [] then []
    else if s[0].0 == p then [s[0], (k, v)] + s[1..]
    else [s[0]] + InsertAfter(s[1..], p, k, v)
  }

  function RemoveFront<K(==), V>(s: seq<(K, V)>): seq<(K, V)>
    requires s != []
  {
    s[1..]
  }

  /** Drops the note whose key is k. */
  function RemoveKey<K(==), V>(s: seq<(K, V)>, k: K): seq<(K, V)>
  {
    if s == [] then []
    else if s[0].0 == k then s[1..]
    else [s[0]] + RemoveKey(s[1..], k)
  }

  // ---------------------------------------------------------------------
  // Keys and lookup

  lemma KeySetCons<K, V>(s: seq<(K, V)>)
    requires s != []
    ensures KeySet(s) == {s[0].0} + KeySet(s[1..])
  {
    forall k | k in KeySet(s) ensures k in {s[0].0} + KeySet(s[1..]) {
      var i :| 0 <= i < |s| && s[i].0 == k;
      if i > 0 { assert s[1..][i - 1].0 == k; }
    }
    forall k | k in KeySet(s[1..]) ensures k in KeySet(s) {
      var i :| 0 <= i < |s[1..]| && s[1..][i].0 == k;
      assert s[i + 1].0 == k;
    }
  }

  /** With unique keys, the index has exactly as many entries as the list. */
  lemma {:induction false} KeySetSize<K, V>(s: seq<(K, V)>)
    requires UniqueKeys(s)
    ensures |KeySet(s)| == |s|
  {
    if s != [] {
      KeySetCons(s);
      KeySetSize(s[1..]);
      HeadKeyNotInTail(s);
    }
  }

  /** With unique keys, the first key does not occur again. */
  lemma HeadKeyNotInTail<K, V>(s: seq<(K, V)>)
    requires UniqueKeys(s) && s != []
    ensures s[0].0 !in KeySet(s[1..])
  {
    forall j | 0 <= j < |s| - 1 ensures s[1..][j].0 != s[0].0 {
      assert s[1..][j] == s[j + 1];
    }
  }

  /** Lookup finds a key exactly when the key is present. */
  lemma {:induction false} LookupPresent<K, V>(s: seq<(K, V)>, k: K)
    ensures Lookup(s, k).Some? <==> k in KeySet(s)
  {
    if s != [] {
      KeySetCons(s);
      LookupPresent(s[1..], k);
    }
  }

  /** With unique keys, looking up the key of the i-th note yields its value. */
  lemma {:induction false} LookupAt<K, V>(s: seq<(K, V)>, i: nat)
    requires UniqueKeys(s) && i < |s|
    ensures Lookup(s, s[i].0) == Some(s[i].1)
  {
    if i > 0 {
      assert s[0].0 != s[i].0;
      assert s[1..][i - 1] == s[i];
      LookupAt(s[1..], i - 1);
    }
  }

  // ---------------------------------------------------------------------
  // insert_front

  /**
   * The new note comes first, the old notes follow in their order, the keys
   * stay unique and the new key is bound to v.
   */
  lemma InsertFrontSpec<K, V>(s: seq<(K, V)>, k: K, v: V)
    requires UniqueKeys(s) && k !in KeySet(s)
    ensures var r := InsertFront(s, k, v);
      && |r| == |s| + 1 && r[0] == (k, v) && r[1..] == s
      && UniqueKeys(r) && KeySet(r) == KeySet(s) + {k}
      && Lookup(r, k) == Some(v)
      && forall k' :: k' != k ==> Lookup(r, k') == Lookup(s, k')
  {
    var r := InsertFront(s, k, v);
    assert r[1..] == s;
    KeySetCons(r);
    forall i, j | 0 <= i < j < |r| ensures r[i].0 != r[j].0 {
      if i == 0 { assert r[j] == s[j - 1]; } else { assert r[i] == s[i - 1] && r[j] == s[j - 1]; }
    }
  }

  // ---------------------------------------------------------------------
  // insert_after

  /** insert_after splices the new note in right behind the first note of p. */
  lemma {:induction false} InsertAfterAt<K, V>(s: seq<(K, V)>, p: K, k: K, v: V, i: nat)
    requires i < |s| && s[i].0 == p && forall j :: 0 <= j < i ==> s[j].0 != p
    ensures InsertAfter(s, p, k, v) == s[..i + 1] + [(k, v)] + s[i + 1..]
  {
    if i > 0 {
      assert s[0].0 != p;
      assert s[1..][i - 1] == s[i];
      assert forall j :: 0 <= j < i - 1 ==> s[1..][j] == s[j + 1];
      InsertAfterAt(s[1..], p, k, v, i - 1);
      assert s[1..][..i] + [(k, v)] + s[1..][i..] == s[1..i + 1] + [(k, v)] + s[i + 1..];
      assert [s[0]] + s[1..i + 1] == s[..i + 1];
    }
  }

  /** Index bookkeeping for a note spliced in at position i. */
  lemma SplicedIn<T>(s: seq<T>, i: nat, x: T)
    requires i <= |s|
    ensures var r := s[..i] + [x] + s[i..];
      && |r| == |s| + 1 && r[i] == x
      && (forall j :: 0 <= j < i ==> r[j] == s[j])
      && (forall j :: i <= j < |s| ==> r[j + 1] == s[j])
  {
  }

  /** Keys stay unique and grow by k when k is spliced in at position i. */
  lemma SplicedInKeys<K, V>(s: seq<(K, V)>, i: nat, k: K, v: V)
    requires UniqueKeys(s) && k !in KeySet(s) && i <= |s|
    ensures var r := s[..i] + [(k, v)] + s[i..];
      UniqueKeys(r) && KeySet(r) == KeySet(s) + {k}
  {
    SplicedInUnique(s, i, k, v);
    SplicedInKeySet(s, i, k, v);
  }

  lemma SplicedInUnique<K, V>(s: seq<(K, V)>, i: nat, k: K, v: V)
    requires UniqueKeys(s) && k !in KeySet(s) && i <= |s|
    ensures UniqueKeys(s[..i] + [(k, v)] + s[i..])
  {
    var r := s[..i] + [(k, v)] + s[i..];
    SplicedIn(s, i, (k, v));
    forall a, b | 0 <= a < b < |r| ensures r[a].0 != r[b].0 {
      if a == i {
        assert r[b] == s[b - 1];
      } else if b == i {
        assert r[a] == s[a];
      } else {
        assert r[a] == s[if a < i then a else a - 1];
        assert r[b] == s[if b < i then b else b - 1];
      }
    }
  }

  lemma SplicedInKeySet<K, V>(s: seq<(K, V)>, i: nat, k: K, v: V)
    requires i <= |s|
    ensures KeySet(s[..i] + [(k, v)] + s[i..]) == KeySet(s) + {k}
  {
    var r := s[..i] + [(k, v)] + s[i..];
    SplicedIn(s, i, (k, v));
    forall x | x in KeySet(r) ensures x in KeySet(s) + {k} {
      var j :| 0 <= j < |r| && r[j].0 == x;
      if j < i { assert r[j] == s[j]; } else if j > i { assert r[j] == s[j - 1]; }
    }
    forall x | x in KeySet(s) + {k} ensures x in KeySet(r) {
      if x == k {
        assert r[i].0 == k;
      } else {
        var j :| 0 <= j < |s| && s[j].0 == x;
        if j < i { assert r[j] == s[j]; } else { assert r[j + 1] == s[j]; }
      }
    }
  }

  /** Splicing in a note for k binds k to v and leaves every other binding. */
  lemma SplicedInLookup<K, V>(s: seq<(K, V)>, i: nat, k: K, v: V)
    requires UniqueKeys(s) && k !in KeySet(s) && i <= |s|
    ensures var r := s[..i] + [(k, v)] + s[i..];
      && Lookup(r, k) == Some(v)
      && forall k' :: k' != k ==> Lookup(r, k') == Lookup(s, k')
  {
    var r := s[..i] + [(k, v)] + s[i..];
    SplicedInKeys(s, i, k, v);
    assert r[i] == (k, v);
    LookupAt(r, i);
    forall k' | k' != k ensures Lookup(r, k') == Lookup(s, k') {
      SplicedInLookupOther(s, i, k, v, k');
    }
  }

  lemma SplicedInLookupOther<K, V>(s: seq<(K, V)>, i: nat, k: K, v: V, k': K)
    requires UniqueKeys(s) && k !in KeySet(s) && i <= |s| && k' != k
    ensures Lookup(s[..i] + [(k, v)] + s[i..], k') == Lookup(s, k')
  {
    var r := s[..i] + [(k, v)] + s[i..];
    SplicedInKeys(s, i, k, v);
    if k' in KeySet(s) {
      var j := Position(s, k');
      LookupAt(s, j);
      if j < i {
        assert r[j] == s[j];
        LookupAt(r, j);
      } else {
        assert r[j + 1] == s[j];
        LookupAt(r, j + 1);
      }
    } else {
      LookupPresent(r, k');
      LookupPresent(s, k');
    }
  }

  /**
   * A note for an absent key k spliced in at position i: it sits at i, keys
   * stay unique, k is bound to v, every other binding stays, and removing k
   * again gives back the original notes.
   */
  lemma SplicedInSpec<K, V>(s: seq<(K, V)>, i: nat, k: K, v: V)
    requires UniqueKeys(s) && k !in KeySet(s) && i <= |s|
    ensures var r := s[..i] + [(k, v)] + s[i..];
      && |r| == |s| + 1 && r[i] == (k, v)
      && RemoveKey(r, k) == s
      && UniqueKeys(r) && KeySet(r) == KeySet(s) + {k}
      && Lookup(r, k) == Some(v)
      && forall k' :: k' != k ==> Lookup(r, k') == Lookup(s, k')
  {
    var r := s[..i] + [(k, v)] + s[i..];
    SplicedIn(s, i, (k, v));
    SplicedInKeys(s, i, k, v);
    SplicedInLookup(s, i, k, v);
    RemoveKeyAt(r, k, i);
    SpliceCut(s, i, (k, v));
  }

  /**
   * Inserting after a present key p a key k that is absent puts (k, v) right
   * behind p's note, keeps the keys unique, binds k to v and leaves every
   * other binding; removing k again gives back the original notes.
   */
  lemma InsertAfterSpec<K, V>(s: seq<(K, V)>, p: K, k: K, v: V)
    requires UniqueKeys(s) && p in KeySet(s) && k !in KeySet(s)
    ensures var r := InsertAfter(s, p, k, v);
      && |r| == |s| + 1
      && r[Position(s, p) + 1] == (k, v)
      && RemoveKey(r, k) == s
      && UniqueKeys(r) && KeySet(r) == KeySet(s) + {k}
      && Lookup(r, k) == Some(v)
      && forall k' :: k' != k ==> Lookup(r, k') == Lookup(s, k')
  {
    var i := Position(s, p);
    InsertAfterAt(s, p, k, v, i);
    SplicedInSpec(s, i + 1, k, v);
  }

  // ---------------------------------------------------------------------
  // remove() and remove(k)

  /** remove() drops exactly the first note and its key. */
  lemma RemoveFrontSpec<K, V>(s: seq<(K, V)>)
    requires UniqueKeys(s) && s != []
    ensures var r := RemoveFront(s);
      && |r| == |s| - 1 && [s[0]] + r == s
      && UniqueKeys(r) && KeySet(r) == KeySet(s) - {s[0].0}
      && Lookup(r, s[0].0) == None
  {
    var r := RemoveFront(s);
    KeySetCons(s);
    HeadKeyNotInTail(s);
    forall i, j | 0 <= i < j < |r| ensures r[i].0 != r[j].0 {
      assert r[i] == s[i + 1] && r[j] == s[j + 1];
    }
    LookupPresent(r, s[0].0);
  }

  /** remove(k) cuts out exactly the first note holding k. */
  lemma {:induction false} RemoveKeyAt<K, V>(s: seq<(K, V)>, k: K, i: nat)
    requires i < |s| && s[i].0 == k && forall j :: 0 <= j < i ==> s[j].0 != k
    ensures RemoveKey(s, k) == s[..i] + s[i + 1..]
  {
    if i > 0 {
      assert s[0].0 != k;
      assert s[1..][i - 1] == s[i];
      assert forall j :: 0 <= j < i - 1 ==> s[1..][j] == s[j + 1];
      RemoveKeyAt(s[1..], k, i - 1);
      assert s[1..][..i - 1] + s[1..][i..] == s[1..i] + s[i + 1..];
      assert [s[0]] + s[1..i] == s[..i];
    }
  }

  /** Splicing x in at the front puts it first; dropping the first element again gives s back. */
  lemma SpliceFront<T>(s: seq<T>, x: T)
    ensures s[..0] + [x] + s[0..] == [x] + s && ([x] + s)[1..] == s
  {
  }

  /** Cutting out the element just spliced in at position i gives s back. */
  lemma SpliceCut<T>(s: seq<T>, i: nat, x: T)
    requires i <= |s|
    ensures var r := s[..i] + [x] + s[i..]; r[..i] + r[i + 1..] == s
  {
    var r := s[..i] + [x] + s[i..];
    assert r[..i] == s[..i];
    assert r[i + 1..] == s[i..];
  }

  /** Index bookkeeping for the note at position i cut out. */
  lemma CutOut<T>(s: seq<T>, i: nat)
    requires i < |s|
    ensures var r := s[..i] + s[i + 1..];
      && |r| == |s| - 1
      && (forall j :: 0 <= j < i ==> r[j] == s[j])
      && (forall j :: i < j < |s| ==> r[j - 1] == s[j])
  {
  }

  /** Cutting out the note of k keeps the keys unique and drops k from them. */
  lemma CutOutKeys<K, V>(s: seq<(K, V)>, i: nat)
    requires UniqueKeys(s) && i < |s|
    ensures var r := s[..i] + s[i + 1..];
      UniqueKeys(r) && KeySet(r) == KeySet(s) - {s[i].0}
  {
    var r := s[..i] + s[i + 1..];
    CutOut(s, i);
    forall a, b | 0 <= a < b < |r| ensures r[a].0 != r[b].0 {
      assert r[a] == s[if a < i then a else a + 1];
      assert r[b] == s[if b < i then b else b + 1];
    }
    forall x | x in KeySet(r) ensures x in KeySet(s) - {s[i].0} {
      var j :| 0 <= j < |r| && r[j].0 == x;
      assert r[j] == s[if j < i then j else j + 1];
    }
    forall x | x in KeySet(s) - {s[i].0} ensures x in KeySet(r) {
      var j :| 0 <= j < |s| && s[j].0 == x;
      if j < i { assert r[j] == s[j]; } else { assert j != i; assert r[j - 1] == s[j]; }
    }
  }

  /** Cutting out the note of k unbinds k and leaves every other binding. */
  lemma CutOutLookup<K, V>(s: seq<(K, V)>, i: nat)
    requires UniqueKeys(s) && i < |s|
    ensures var r := s[..i] + s[i + 1..];
      && Lookup(r, s[i].0) == None
      && forall k' :: k' != s[i].0 ==> Lookup(r, k') == Lookup(s, k')
  {
    var r := s[..i] + s[i + 1..];
    CutOut(s, i);
    CutOutKeys(s, i);
    LookupPresent(r, s[i].0);
    forall k' | k' != s[i].0 ensures Lookup(r, k') == Lookup(s, k') {
      CutOutLookupOther(s, i, k');
    }
  }

  lemma CutOutLookupOther<K, V>(s: seq<(K, V)>, i: nat, k': K)
    requires UniqueKeys(s) && i < |s| && k' != s[i].0
    ensures Lookup(s[..i] + s[i + 1..], k') == Lookup(s, k')
  {
    var r := s[..i] + s[i + 1..];
    CutOutKeys(s, i);
    LookupPresent(r, k');
    LookupPresent(s, k');
    if k' in KeySet(s) {
      var j := Position(s, k');
      LookupAt(s, j);
      var jr := if j < i then j else j - 1;
      assert r[jr] == s[j];
      LookupAt(r, jr);
    }
  }

  /**
   * remove(k) of a present key removes that key only: one note fewer, the
   * other notes in their order, every other binding kept.
   */
  lemma RemoveKeySpec<K, V>(s: seq<(K, V)>, k: K)
    requires UniqueKeys(s) && k in KeySet(s)
    ensures var r := RemoveKey(s, k);
      && |r| == |s| - 1
      && r == s[..Position(s, k)] + s[Position(s, k) + 1..]
      && UniqueKeys(r) && KeySet(r) == KeySet(s) - {k}
      && Lookup(r, k) == None
      && forall k' :: k' != k ==> Lookup(r, k') == Lookup(s, k')
  {
    var i := Position(s, k);
    RemoveKeyAt(s, k, i);
    CutOut(s, i);
    CutOutKeys(s, i);
    CutOutLookup(s, i);
  }

  /** insert_front followed by remove of the same key restores the notes. */
  lemma InsertFrontRemoveKey<K, V>(s: seq<(K, V)>, k: K, v: V)
    requires k !in KeySet(s)
    ensures RemoveKey(InsertFront(s, k, v), k) == s
  {
    assert InsertFront(s, k, v)[1..] == s;
  }

  /** insert_front followed by remove() restores the notes. */
  lemma InsertFrontRemoveFront<K, V>(s: seq<(K, V)>, k: K, v: V)
    ensures RemoveFront(InsertFront(s, k, v)) == s
  {
    assert InsertFront(s, k, v)[1..] == s;
  }

  // ---------------------------------------------------------------------
  // Iteration order

  /** Inserting fronts 1, 2, 3 iterates as 3, 2, 1. */
  lemma FrontInsertionsIterateReversed<V>(a: V, b: V, c: V)
    ensures Values(InsertFront(InsertFront(InsertFront([], 1, a), 2, b), 3, c)) == [c, b, a]
  {
  }

  /**
   * Front 1 then front 2 then 3 after 2 iterate as 2, 3, 1; removing 1 and
   * then the front leaves the note of 3 alone.
   */
  lemma MixedInsertionsOrder<V>(a: V, b: V, c: V)
    ensures var s := InsertAfter(InsertFront(InsertFront([], 1, a), 2, b), 2, 3, c);
      && Values(s) == [b, c, a]
      && Values(RemoveFront(RemoveKey(s, 1))) == [c]
  {
    var s0 := InsertFront(InsertFront([], 1, a), 2, b);
    assert s0 == [(2, b), (1, a)];
    assert InsertAfter(s0, 2, 3, c) == [(2, b), (3, c), (1, a)];
    var s := [(2, b), (3, c), (1, a)];
    assert s[1..][1..] == [(1, a)];
    assert RemoveKey(s[1..], 1) == [(3, c)];
    assert RemoveKey(s, 1) == [(2, b), (3, c)];
  }
}
