/**
 * `pfs::ChannelMap` and `pfs::ChannelIteratorImpl` of Libpfs/channel.h.
 *
 * The `std::map<std::string, ChannelImpl*, string_cmp>` is modelled as the
 * sequence of its (name, channel) entries in iteration order; its keys are
 * strictly increasing under `string_cmp`, which makes them unique.  The
 * iterator's `ChannelMap::iterator` is an index into that sequence, the end
 * iterator being the index one past the last entry.  The iterator reads a map
 * that is not changed while it is in use, which is why every iterator
 * operation takes that same map as a parameter.
 */
module PfsChannelMap {
  import opened Wrappers
  import StringCmp

  /** The entries of a channel map, in ascending key order. */
  datatype ChannelMap<T> = ChannelMap(entries: seq<(string, T)>)
  {
    /** Keys strictly increase, so no name occurs twice. */
    ghost predicate Valid()
    {
      forall i, j :: 0 <= i < j < |entries| ==> StringCmp.Less(entries[i].0, entries[j].0)
    }

    /** `size()`. */
    function Size(): nat { |entries| }

    /** The name is a key of the map. */
    predicate Contains(name: string)
    {
      exists i :: 0 <= i < |entries| && entries[i].0 == name
    }
  }

  /** The empty map a frame starts with. */
  function Empty<T>(): (cm: ChannelMap<T>)
    ensures cm.Valid() && cm.Size() == 0
  {
    ChannelMap([])
  }

  /** Keys of a valid map are pairwise distinct. */
  lemma KeysUnique<T>(cm: ChannelMap<T>, i: nat, j: nat)
    requires cm.Valid() && i < |cm.entries| && j < |cm.entries| && i != j
    ensures cm.entries[i].0 != cm.entries[j].0
  {
    if i < j {
      StringCmp.LessIrreflexive(cm.entries[i].0);
    } else {
      StringCmp.LessIrreflexive(cm.entries[j].0);
    }
  }

  /** `find(name)`: the channel stored under `name`, or NULL when there is none. */
  function Find<T>(cm: ChannelMap<T>, name: string): (r: Option<T>)
    requires cm.Valid()
    ensures r.None? <==> !cm.Contains(name)
    ensures r.Some? ==> exists i :: 0 <= i < |cm.entries| && cm.entries[i] == (name, r.value)
  {
    FindFrom(cm, name, 0)
  }

  function FindFrom<T>(cm: ChannelMap<T>, name: string, from: nat): (r: Option<T>)
    requires from <= |cm.entries|
    ensures r.None? <==> forall i :: from <= i < |cm.entries| ==> cm.entries[i].0 != name
    ensures r.Some? ==> exists i :: from <= i < |cm.entries| && cm.entries[i] == (name, r.value)
    decreases |cm.entries| - from
  {
    if from == |cm.entries| then None
    else if cm.entries[from].0 == name then Some(cm.entries[from].1)
    else FindFrom(cm, name, from + 1)
  }

  /** Number of keys that sort before `name`: where `name` goes on insertion. */
  function Rank<T>(cm: ChannelMap<T>, name: string): (k: nat)
    requires cm.Valid()
    ensures k <= |cm.entries|
    ensures forall i :: 0 <= i < k ==> StringCmp.Less(cm.entries[i].0, name)
    ensures forall i :: k <= i < |cm.entries| ==> !StringCmp.Less(cm.entries[i].0, name)
  {
    RankFrom(cm, name, 0)
  }

  function RankFrom<T>(cm: ChannelMap<T>, name: string, from: nat): (k: nat)
    requires cm.Valid() && from <= |cm.entries|
    requires forall i :: 0 <= i < from ==> StringCmp.Less(cm.entries[i].0, name)
    ensures from <= k <= |cm.entries|
    ensures forall i :: 0 <= i < k ==> StringCmp.Less(cm.entries[i].0, name)
    ensures forall i :: k <= i < |cm.entries| ==> !StringCmp.Less(cm.entries[i].0, name)
    decreases |cm.entries| - from
  {
    if from == |cm.entries| || !StringCmp.Less(cm.entries[from].0, name) then
      assert forall i :: from <= i < |cm.entries| ==> !StringCmp.Less(cm.entries[i].0, name) by {
        forall i | from < i < |cm.entries| && StringCmp.Less(cm.entries[i].0, name)
          ensures false
        {
          StringCmp.LessTransitive(cm.entries[from].0, cm.entries[i].0, name);
        }
      }
      from
    else
      RankFrom(cm, name, from + 1)
  }

  /** The entries of `cm` with (name, ch) placed at position `k`. */
  function InsertAt<T>(cm: ChannelMap<T>, k: nat, name: string, ch: T): (r: ChannelMap<T>)
    requires k <= |cm.entries|
  {
    ChannelMap(cm.entries[..k] + [(name, ch)] + cm.entries[k..])
  }

  /** Placing a new name at its insertion point keeps the keys strictly increasing. */
  lemma InsertAtRankValid<T>(cm: ChannelMap<T>, name: string, ch: T)
    requires cm.Valid() && !cm.Contains(name)
    ensures InsertAt(cm, Rank(cm, name), name, ch).Valid()
  {
    var k := Rank(cm, name);
    var es := InsertAt(cm, k, name, ch).entries;
    forall i, j | 0 <= i < j < |es|
      ensures StringCmp.Less(es[i].0, es[j].0)
    {
      if j == k {
        assert es[i] == cm.entries[i];
      } else if i == k {
        assert es[j] == cm.entries[j - 1];
        StringCmp.LessConnected(name, cm.entries[j - 1].0);
      } else if i < k && k < j {
        assert es[i] == cm.entries[i] && es[j] == cm.entries[j - 1];
        StringCmp.LessConnected(name, cm.entries[j - 1].0);
        StringCmp.LessTransitive(es[i].0, name, es[j].0);
      } else if j < k {
        assert es[i] == cm.entries[i] && es[j] == cm.entries[j];
      } else {
        assert es[i] == cm.entries[i - 1] && es[j] == cm.entries[j - 1];
      }
    }
  }

  /** After placing a new name, it finds its channel and every other name finds what it found. */
  lemma InsertAtLookups<T>(cm: ChannelMap<T>, k: nat, name: string, ch: T, n: string)
    requires cm.Valid() && !cm.Contains(name) && k <= |cm.entries|
    requires InsertAt(cm, k, name, ch).Valid()
    ensures Find(InsertAt(cm, k, name, ch), n) == if n == name then Some(ch) else Find(cm, n)
  {
    var r := InsertAt(cm, k, name, ch);
    var es := r.entries;
    if n == name {
      assert es[k] == (name, ch);
      UniqueLookup(r, k);
    } else if cm.Contains(n) {
      var i :| 0 <= i < |cm.entries| && cm.entries[i].0 == n;
      var i' := if i < k then i else i + 1;
      assert es[i'] == cm.entries[i];
      UniqueLookup(cm, i);
      UniqueLookup(r, i');
    } else {
      forall i | 0 <= i < |es|
        ensures es[i].0 != n
      {
        if i < k {
          assert es[i] == cm.entries[i];
        } else if i > k {
          assert es[i] == cm.entries[i - 1];
        }
      }
    }
  }

  /**
   * `insert(name, ch)` of a name the map does not hold yet.  What a frame
   * does with a name it already holds is not fixed by channel.h, so that case
   * is excluded.
   */
  function Insert<T>(cm: ChannelMap<T>, name: string, ch: T): (r: ChannelMap<T>)
    requires cm.Valid() && !cm.Contains(name)
    ensures r.Valid()
    ensures r.Size() == cm.Size() + 1
    ensures Find(r, name) == Some(ch)
    ensures forall n :: n != name ==> Find(r, n) == Find(cm, n)
  {
    var k := Rank(cm, name);
    InsertAtRankValid(cm, name, ch);
    forall n { InsertAtLookups(cm, k, name, ch, n); }
    InsertAt(cm, k, name, ch)
  }

  /** In a valid map the value found under the key of entry `i` is that entry's value. */
  lemma UniqueLookup<T>(cm: ChannelMap<T>, i: nat)
    requires cm.Valid() && i < |cm.entries|
    ensures Find(cm, cm.entries[i].0) == Some(cm.entries[i].1)
  {
    var r := Find(cm, cm.entries[i].0);
    var j :| 0 <= j < |cm.entries| && cm.entries[j] == (cm.entries[i].0, r.value);
    if j != i {
      KeysUnique(cm, i, j);
    }
  }

  /** The entries of `cm` without entry `k`. */
  function EraseAt<T>(cm: ChannelMap<T>, k: nat): (r: ChannelMap<T>)
    requires k < |cm.entries|
  {
    ChannelMap(cm.entries[..k] + cm.entries[k + 1..])
  }

  /** Dropping one entry keeps the keys strictly increasing. */
  lemma EraseAtValid<T>(cm: ChannelMap<T>, k: nat)
    requires cm.Valid() && k < |cm.entries|
    ensures EraseAt(cm, k).Valid()
  {
    var es := EraseAt(cm, k).entries;
    forall i, j | 0 <= i < j < |es|
      ensures StringCmp.Less(es[i].0, es[j].0)
    {
      var i', j' := if i < k then i else i + 1, if j < k then j else j + 1;
      assert es[i] == cm.entries[i'] && es[j] == cm.entries[j'];
    }
  }

  /** Dropping entry `k` loses its key and keeps every other lookup. */
  lemma EraseAtLookups<T>(cm: ChannelMap<T>, k: nat, n: string)
    requires cm.Valid() && k < |cm.entries|
    ensures EraseAt(cm, k).Valid()
    ensures Find(EraseAt(cm, k), n) == if n == cm.entries[k].0 then None else Find(cm, n)
  {
    EraseAtValid(cm, k);
    var r := EraseAt(cm, k);
    var es := r.entries;
    if cm.Contains(n) && n != cm.entries[k].0 {
      var i :| 0 <= i < |cm.entries| && cm.entries[i].0 == n;
      var i' := if i < k then i else i - 1;
      assert es[i'] == cm.entries[i];
      UniqueLookup(cm, i);
      UniqueLookup(r, i');
    } else {
      forall i | 0 <= i < |es|
        ensures es[i].0 != n
      {
        var i' := if i < k then i else i + 1;
        assert es[i] == cm.entries[i'];
        if n == cm.entries[k].0 {
          KeysUnique(cm, k, i');
        }
      }
    }
  }

  /** A name absent from its own insertion point is absent from the map. */
  lemma AbsentAtRank<T>(cm: ChannelMap<T>, name: string)
    requires cm.Valid()
    requires var k := Rank(cm, name); !(k < |cm.entries| && cm.entries[k].0 == name)
    ensures !cm.Contains(name)
  {
    var k := Rank(cm, name);
    forall i | 0 <= i < |cm.entries|
      ensures cm.entries[i].0 != name
    {
      if i < k {
        StringCmp.LessIrreflexive(name);
      } else if i > k {
        assert StringCmp.Less(cm.entries[k].0, cm.entries[i].0);
      }
    }
  }

  /** `erase(name)`: drop the entry stored under `name`, if any. */
  function Remove<T>(cm: ChannelMap<T>, name: string): (r: ChannelMap<T>)
    requires cm.Valid()
    ensures r.Valid()
    ensures r.Size() == if cm.Contains(name) then cm.Size() - 1 else cm.Size()
    ensures Find(r, name) == None
    ensures forall n :: n != name ==> Find(r, n) == Find(cm, n)
  {
    var k := Rank(cm, name);
    if k < |cm.entries| && cm.entries[k].0 == name then
      EraseAtValid(cm, k);
      forall n { EraseAtLookups(cm, k, n); }
      EraseAt(cm, k)
    else
      AbsentAtRank(cm, name);
      cm
  }

  // ---------------------------------------------------------------------------
  // ChannelIteratorImpl
  // ---------------------------------------------------------------------------

  /** The iterator's cursor: the position of `it` in the map, `Size()` being `end()`. */
  datatype ChannelIterator = ChannelIterator(pos: nat)
  {
    /** The cursor is one of the map's positions or its end. */
    predicate ValidFor<T>(cm: ChannelMap<T>)
    {
      pos <= |cm.entries|
    }
  }

  /** `reset()`: `it = cm->begin()`, wherever the cursor was. */
  function Reset<T>(it: ChannelIterator, cm: ChannelMap<T>): (it': ChannelIterator)
    ensures it'.ValidFor(cm)
    ensures HasNext(it', cm) <==> cm.Size() > 0
    ensures HasNext(it', cm) ==> CurrentKey(it', cm) == Least(cm)
  {
    ChannelIterator(0)
  }

  /** The constructor `ChannelIteratorImpl(cm)` is `reset()` on the map. */
  function NewIterator<T>(cm: ChannelMap<T>): (it: ChannelIterator)
    requires cm.Valid()
    ensures it.ValidFor(cm)
    ensures !HasNext(it, cm) <==> cm.Size() == 0
    ensures cm.Size() > 0 ==> forall i :: 0 < i < cm.Size() ==> StringCmp.Less(CurrentKey(it, cm), cm.entries[i].0)
  {
    Reset(ChannelIterator(0), cm)
  }

  /** `hasNext()`: `it != cm->end()`. */
  predicate HasNext<T>(it: ChannelIterator, cm: ChannelMap<T>)
    requires it.ValidFor(cm)
  {
    it.pos != |cm.entries|
  }

  /** Key at the cursor, when it is not at the end. */
  function CurrentKey<T>(it: ChannelIterator, cm: ChannelMap<T>): (name: string)
    requires it.ValidFor(cm) && HasNext(it, cm)
  {
    cm.entries[it.pos].0
  }

  /** Least key of a non-empty map, i.e. the key at `begin()`. */
  function Least<T>(cm: ChannelMap<T>): (name: string)
    requires cm.Size() > 0
  {
    cm.entries[0].0
  }

  /**
   * `getNext()`: NULL and no move when exhausted, otherwise the channel at the
   * cursor, with the cursor advanced (`(it++)->second`).
   */
  function GetNext<T>(it: ChannelIterator, cm: ChannelMap<T>): (r: (Option<T>, ChannelIterator))
    requires it.ValidFor(cm)
    ensures r.1.ValidFor(cm)
    ensures !HasNext(it, cm) ==> r.0 == None && r.1 == it && !HasNext(r.1, cm)
    ensures HasNext(it, cm) ==> r.0 == Some(cm.entries[it.pos].1) && r.1.pos == it.pos + 1
  {
    if !HasNext(it, cm) then (None, it)
    else (Some(cm.entries[it.pos].1), ChannelIterator(it.pos + 1))
  }

  /** The channels of the map from position `from` on, in map order. */
  function ValuesFrom<T>(cm: ChannelMap<T>, from: nat): (vs: seq<T>)
    requires from <= |cm.entries|
  {
    seq(|cm.entries| - from, k requires 0 <= k < |cm.entries| - from => cm.entries[from + k].1)
  }

  /**
   * `while (it->hasNext()) out.push_back(it->getNext());`: the non-null
   * channels a client collects, and the iterator it is left with.
   */
  function Drain<T>(it: ChannelIterator, cm: ChannelMap<T>): (r: (seq<T>, ChannelIterator))
    requires it.ValidFor(cm)
    ensures r.0 == ValuesFrom(cm, it.pos)
    ensures r.1.ValidFor(cm) && !HasNext(r.1, cm)
    decreases |cm.entries| - it.pos
  {
    if !HasNext(it, cm) then ([], it)
    else
      var (c, next) := GetNext(it, cm);
      var (rest, last) := Drain(next, cm);
      ([c.value] + rest, last)
  }

  /**
   * Draining a fresh iterator over a map of n channels gives exactly the n
   * channels, the i-th being the one stored under the i-th smallest name (the
   * entries of a valid map ascend in `string_cmp` order), so each channel
   * comes once and in name order; the iterator is then exhausted and
   * `getNext()` keeps returning NULL.
   */
  lemma DrainYieldsAllInOrder<T>(cm: ChannelMap<T>)
    requires cm.Valid()
    ensures var (out, last) := Drain(NewIterator(cm), cm);
      && |out| == cm.Size()
      && (forall i :: 0 <= i < |out| ==> Find(cm, cm.entries[i].0) == Some(out[i]))
      && !HasNext(last, cm)
      && GetNext(last, cm) == (None, last)
  {
    var (out, last) := Drain(NewIterator(cm), cm);
    forall i | 0 <= i < |out|
      ensures Find(cm, cm.entries[i].0) == Some(out[i])
    {
      UniqueLookup(cm, i);
    }
  }

  /** After `reset()` a second drain yields the same channels as the first. */
  lemma ResetRedrains<T>(cm: ChannelMap<T>)
    requires cm.Valid()
    ensures var (first, last) := Drain(NewIterator(cm), cm);
      Drain(Reset(last, cm), cm).0 == first
  {
  }

  /**
   * Two channels added to an empty map, in either order, are drained in the
   * order of their names.
   */
  lemma DrainOfTwoInsertsIsNameOrdered<T>(a: string, b: string, x: T, y: T)
    requires StringCmp.Less(a, b)
    ensures var cm := Insert(Insert(Empty(), a, x), b, y);
      Drain(NewIterator(cm), cm).0 == [x, y]
    ensures var cm := Insert(Insert(Empty(), b, y), a, x);
      Drain(NewIterator(cm), cm).0 == [x, y]
  {
    TwoEntriesInNameOrder(Insert(Insert(Empty(), a, x), b, y), a, b, x, y);
    TwoEntriesInNameOrder(Insert(Insert(Empty(), b, y), a, x), a, b, x, y);
  }

  /** A valid map holding exactly `a` and `b`, with `a` the smaller, stores them as [a, b]. */
  lemma TwoEntriesInNameOrder<T>(cm: ChannelMap<T>, a: string, b: string, x: T, y: T)
    requires cm.Valid() && cm.Size() == 2 && StringCmp.Less(a, b)
    requires Find(cm, a) == Some(x) && Find(cm, b) == Some(y)
    ensures cm.entries == [(a, x), (b, y)]
  {
    var i :| 0 <= i < 2 && cm.entries[i] == (a, x);
    var j :| 0 <= j < 2 && cm.entries[j] == (b, y);
    StringCmp.LessIrreflexive(a);
    StringCmp.LessAsymmetric(a, b);
    assert StringCmp.Less(cm.entries[0].0, cm.entries[1].0);
    assert i == 0 && j == 1;
  }
}
