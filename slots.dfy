/** Storage shared by both versions of the incremental hash map.

    A map is a singly linked chain of chunks; a chunk is a fixed number of
    slots, each with an occupancy flag.  The ghost view of a map is a Table:
    one Row per chunk, in chain order, each row holding the element stored in
    every slot (None for a free slot).  This module gives the chunk object,
    the table view, the relation between a table and the abstract map it
    stores, and the order in which the iterators walk the chain. */
module Slots {

  datatype Option<T> = None | Some(value: T)

  /** The value type of a set's underlying map (struct empty). */
  datatype Empty = Empty

  /** A stored (key, value) pair. */
  datatype Element<K, V> = Element(key: K, value: V)

  /** Where an element lives: position of its chunk in the chain, and slot index in that chunk. */
  datatype Addr = Addr(chunk: nat, slot: nat)

  type Row<K, V> = seq<Option<Element<K, V>>>
  type Table<K, V> = seq<Row<K, V>>

  function EmptyRow<K, V>(size: nat): (r: Row<K, V>)
    ensures |r| == size && forall k :: 0 <= k < size ==> r[k].None?
  {
    seq(size, _ => None)
  }

  /** Every chunk has `size` slots. */
  ghost predicate Sized<K, V>(t: Table<K, V>, size: nat)
  {
    forall i :: 0 <= i < |t| ==> |t[i]| == size
  }

  ghost predicate Occupied<K, V>(t: Table<K, V>, a: Addr)
  {
    a.chunk < |t| && a.slot < |t[a.chunk]| && t[a.chunk][a.slot].Some?
  }

  ghost predicate Holds<K, V>(t: Table<K, V>, a: Addr, e: Element<K, V>)
  {
    a.chunk < |t| && a.slot < |t[a.chunk]| && t[a.chunk][a.slot] == Some(e)
  }

  ghost predicate RowNonEmpty<K, V>(row: Row<K, V>)
  {
    exists k :: 0 <= k < |row| && row[k].Some?
  }

  /** The table stores exactly the abstract map `contents`, and `pos` gives the
      one slot holding each key: keys are unique across all slots. */
  ghost predicate Abstracts<K, V>(t: Table<K, V>, contents: map<K, V>, pos: map<K, Addr>)
  {
    && contents.Keys == pos.Keys
    && (forall key :: key in pos ==> Holds(t, pos[key], Element(key, contents[key])))
    && (forall i, k :: 0 <= i < |t| && 0 <= k < |t[i]| && t[i][k].Some? ==>
          t[i][k].value.key in pos && pos[t[i][k].value.key] == Addr(i, k))
  }

  /** Every slot occupied in `r` is occupied in `r2`, which has as many slots. */
  ghost predicate RowGrows<K, V>(r: Row<K, V>, r2: Row<K, V>)
  {
    |r| == |r2| && forall k :: 0 <= k < |r| && r[k].Some? ==> r2[k].Some?
  }

  /** Every slot occupied in `t` is occupied in `t2`, and `t2` has at least the chunks of `t`. */
  ghost predicate Grows<K, V>(t: Table<K, V>, t2: Table<K, V>)
  {
    |t| <= |t2| && forall i :: 0 <= i < |t| ==> RowGrows(t[i], t2[i])
  }

  /** Filling a slot only grows the occupancy. */
  lemma StoreGrows<K, V>(t: Table<K, V>, i: nat, k: nat, e: Element<K, V>)
    requires i < |t| && k < |t[i]|
    ensures Grows(t, t[i := t[i][k := Some(e)]])
  {
    var t2 := t[i := t[i][k := Some(e)]];
    forall j | 0 <= j < |t|
      ensures RowGrows(t[j], t2[j])
    {
    }
  }

  /** Appending a chunk only grows the occupancy. */
  lemma AppendGrows<K, V>(t: Table<K, V>, r: Row<K, V>)
    ensures Grows(t, t + [r])
  {
    var t2 := t + [r];
    forall j | 0 <= j < |t|
      ensures RowGrows(t[j], t2[j])
    {
      assert t2[j] == t[j];
    }
  }

  /** Storing into the appended row is appending the stored-into row. */
  lemma AppendThenStore<K, V>(t: Table<K, V>, r: Row<K, V>, s: nat, e: Option<Element<K, V>>)
    requires s < |r|
    ensures var t1 := t + [r]; t1[|t| := t1[|t|][s := e]] == t + [r[s := e]]
  {
  }

  /** Storing `e` in the free slot `a` keeps the abstraction, with `e` added. */
  lemma StoreAbstracts<K, V>(t: Table<K, V>, contents: map<K, V>, pos: map<K, Addr>, a: Addr, e: Element<K, V>)
    requires Abstracts(t, contents, pos) && e.key !in contents
    requires a.chunk < |t| && a.slot < |t[a.chunk]| && t[a.chunk][a.slot].None?
    ensures Abstracts(t[a.chunk := t[a.chunk][a.slot := Some(e)]], contents[e.key := e.value], pos[e.key := a])
  {
    var t2: Table<K, V> := t[a.chunk := t[a.chunk][a.slot := Some(e)]];
    var pos2 := pos[e.key := a];
    forall key | key in pos
      ensures pos[key] != a
    {
      assert Holds(t, pos[key], Element(key, contents[key]));
    }
    forall i, k | 0 <= i < |t2| && 0 <= k < |t2[i]| && t2[i][k].Some?
      ensures t2[i][k].value.key in pos2 && pos2[t2[i][k].value.key] == Addr(i, k)
    {
      if Addr(i, k) != a {
        assert t2[i][k] == t[i][k];
      }
    }
  }

  /** Overwriting the value stored for a present key keeps the abstraction. */
  lemma OverwriteAbstracts<K, V>(t: Table<K, V>, contents: map<K, V>, pos: map<K, Addr>, key: K, v: V)
    requires Abstracts(t, contents, pos) && key in contents
    ensures var a := pos[key];
      a.chunk < |t| && a.slot < |t[a.chunk]| &&
      Abstracts(t[a.chunk := t[a.chunk][a.slot := Some(Element(key, v))]], contents[key := v], pos)
  {
    var a := pos[key];
    assert Holds(t, a, Element(key, contents[key]));
    var t2: Table<K, V> := t[a.chunk := t[a.chunk][a.slot := Some(Element(key, v))]];
    forall key2 | key2 in pos
      ensures Holds(t2, pos[key2], Element(key2, contents[key := v][key2]))
    {
      assert Holds(t, pos[key2], Element(key2, contents[key2]));
    }
    forall i, k | 0 <= i < |t2| && 0 <= k < |t2[i]| && t2[i][k].Some?
      ensures t2[i][k].value.key in pos && pos[t2[i][k].value.key] == Addr(i, k)
    {
      if Addr(i, k) != a {
        assert t2[i][k] == t[i][k];
      }
    }
  }

  /** Storing a key's own element again in its slot leaves the table as it is. */
  lemma RestoreSame<K, V>(t: Table<K, V>, contents: map<K, V>, pos: map<K, Addr>, key: K)
    requires Abstracts(t, contents, pos) && key in contents
    ensures var a := pos[key];
      a.chunk < |t| && a.slot < |t[a.chunk]| &&
      t[a.chunk := t[a.chunk][a.slot := Some(Element(key, contents[key]))]] == t
  {
    var a := pos[key];
    assert Holds(t, a, Element(key, contents[key]));
    assert t[a.chunk][a.slot := Some(Element(key, contents[key]))] == t[a.chunk];
  }

  /** Appending a fresh chunk keeps the abstraction. */
  lemma AppendAbstracts<K, V>(t: Table<K, V>, contents: map<K, V>, pos: map<K, Addr>, size: nat)
    requires Abstracts(t, contents, pos)
    ensures Abstracts(t + [EmptyRow(size)], contents, pos)
  {
    var t1: Table<K, V> := t + [EmptyRow(size)];
    forall key2 | key2 in pos
      ensures Holds(t1, pos[key2], Element(key2, contents[key2]))
    {
      assert Holds(t, pos[key2], Element(key2, contents[key2]));
    }
  }

  /** Appending a chunk that holds only `e`, for an absent key, keeps the abstraction. */
  lemma AppendStoreAbstracts<K, V>(t: Table<K, V>, contents: map<K, V>, pos: map<K, Addr>, size: nat, s: nat, e: Element<K, V>)
    requires Abstracts(t, contents, pos) && e.key !in contents && s < size
    ensures Abstracts(t + [EmptyRow(size)[s := Some(e)]], contents[e.key := e.value], pos[e.key := Addr(|t|, s)])
  {
    var t1: Table<K, V> := t + [EmptyRow(size)];
    AppendAbstracts(t, contents, pos, size);
    StoreAbstracts(t1, contents, pos, Addr(|t|, s), e);
    assert t1[|t| := t1[|t|][s := Some(e)]] == t + [EmptyRow(size)[s := Some(e)]];
  }

  /** Every key with an address in `pos` has the same address in `pos2`:
      no element has moved. */
  ghost predicate Extends<K>(pos: map<K, Addr>, pos2: map<K, Addr>)
  {
    forall k :: k in pos ==> k in pos2 && pos2[k] == pos[k]
  }

  /** Adding an absent key to the addresses moves no other key. */
  lemma AddressesKept<K>(pos: map<K, Addr>, pos2: map<K, Addr>, key: K)
    requires key !in pos && key in pos2 && pos2 == pos[key := pos2[key]]
    ensures Extends(pos, pos2)
  {
  }

  /** Adding a key to a map adds it to the map's keys, and adding a key
      already there changes nothing. */
  lemma KeysUpdate<K>(m: map<K, Empty>, key: K)
    ensures m[key := Empty].Keys == m.Keys + {key}
    ensures key in m ==> m.Keys + {key} == m.Keys
  {
  }

  // ---------------------------------------------------------------------------
  // Iteration order

  /** Strict (chunk, slot) order. */
  predicate Before(a: Addr, b: Addr)
  {
    a.chunk < b.chunk || (a.chunk == b.chunk && a.slot < b.slot)
  }

  /** The occupied slots at or after slot k of chunk i, in chain order and,
      within a chunk, in slot order: the positions an iterator visits. */
  function Occupants<K, V>(t: Table<K, V>, i: nat, k: nat): (r: seq<Addr>)
    requires i <= |t| && (i < |t| ==> k <= |t[i]|)
    ensures forall j :: 0 <= j < |r| ==> Occupied(t, r[j]) && !Before(r[j], Addr(i, k))
    decreases |t| - i, if i < |t| then |t[i]| - k else 0
  {
    if i == |t| then []
    else if k == |t[i]| then Occupants(t, i + 1, 0)
    else if t[i][k].Some? then [Addr(i, k)] + Occupants(t, i, k + 1)
    else Occupants(t, i, k + 1)
  }

  /** Every occupied slot at or after (i, k) is visited. */
  lemma {:induction false} OccupantsComplete<K, V>(t: Table<K, V>, i: nat, k: nat, a: Addr)
    requires i <= |t| && (i < |t| ==> k <= |t[i]|)
    requires Occupied(t, a) && !Before(a, Addr(i, k))
    ensures a in Occupants(t, i, k)
    decreases |t| - i, if i < |t| then |t[i]| - k else 0
  {
    if i < |t| {
      if k == |t[i]| {
        OccupantsComplete(t, i + 1, 0, a);
      } else if a != Addr(i, k) {
        OccupantsComplete(t, i, k + 1, a);
      }
    }
  }

  /** Free slots are skipped: the walk from k is the walk from k2 when the
      slots in between are free. */
  lemma {:induction false} OccupantsSkip<K, V>(t: Table<K, V>, i: nat, k: nat, k2: nat)
    requires i < |t| && k <= k2 <= |t[i]|
    requires forall s :: k <= s < k2 ==> t[i][s].None?
    ensures Occupants(t, i, k) == Occupants(t, i, k2)
    decreases k2 - k
  {
    if k < k2 {
      OccupantsSkip(t, i, k + 1, k2);
    }
  }

  /** A table that stores the empty map has nothing to visit. */
  lemma {:induction false} EmptyWalk<K, V>(t: Table<K, V>, pos: map<K, Addr>, i: nat, k: nat)
    requires Abstracts(t, map[], pos)
    requires i <= |t| && (i < |t| ==> k <= |t[i]|)
    ensures Occupants(t, i, k) == []
    decreases |t| - i, if i < |t| then |t[i]| - k else 0
  {
    if i < |t| {
      if k == |t[i]| {
        EmptyWalk(t, pos, i + 1, 0);
      } else {
        assert t[i][k].None?;
        EmptyWalk(t, pos, i, k + 1);
      }
    }
  }

  ghost predicate Ascending(r: seq<Addr>)
  {
    forall j1, j2 :: 0 <= j1 < j2 < |r| ==> Before(r[j1], r[j2])
  }

  /** A slot before every slot of an ascending order extends it. */
  lemma AscendingCons(a: Addr, rest: seq<Addr>)
    requires Ascending(rest)
    requires forall j :: 0 <= j < |rest| ==> Before(a, rest[j])
    ensures Ascending([a] + rest)
  {
    var r := [a] + rest;
    forall j1, j2 | 0 <= j1 < j2 < |r|
      ensures Before(r[j1], r[j2])
    {
      assert r[j2] == rest[j2 - 1];
      if j1 > 0 {
        assert r[j1] == rest[j1 - 1];
      }
    }
  }

  /** The visit order is strictly ascending, so no slot is visited twice. */
  lemma {:induction false} OccupantsAscending<K, V>(t: Table<K, V>, i: nat, k: nat)
    requires i <= |t| && (i < |t| ==> k <= |t[i]|)
    ensures Ascending(Occupants(t, i, k))
    decreases |t| - i, if i < |t| then |t[i]| - k else 0
  {
    if i < |t| {
      if k == |t[i]| {
        OccupantsAscending(t, i + 1, 0);
        assert Occupants(t, i, k) == Occupants(t, i + 1, 0);
      } else {
        OccupantsAscending(t, i, k + 1);
        var rest := Occupants(t, i, k + 1);
        if t[i][k].Some? {
          assert forall j :: 0 <= j < |rest| ==> !Before(rest[j], Addr(i, k + 1));
          AscendingCons(Addr(i, k), rest);
          assert Occupants(t, i, k) == [Addr(i, k)] + rest;
        } else {
          assert Occupants(t, i, k) == rest;
        }
      }
    }
  }

  /** Stepping past the first visited slot gives the rest of the walk:
      the walk from (i, k) is its first slot followed by the walk from the slot after it. */
  lemma {:induction false} OccupantsStep<K, V>(t: Table<K, V>, i: nat, k: nat)
    requires i <= |t| && (i < |t| ==> k <= |t[i]|)
    requires Occupants(t, i, k) != []
    ensures var r := Occupants(t, i, k);
      r[0].chunk < |t| && r[0].slot < |t[r[0].chunk]| &&
      Occupants(t, r[0].chunk, r[0].slot + 1) == r[1..]
    decreases |t| - i, if i < |t| then |t[i]| - k else 0
  {
    if k == |t[i]| {
      OccupantsStep(t, i + 1, 0);
    } else if t[i][k].None? {
      OccupantsStep(t, i, k + 1);
    }
  }

  /** From the j-th visited slot of the walk starting at (i, k), the walk
      continues with the (j+1)-th: iterating reproduces Occupants exactly. */
  lemma {:induction false} WalkFollowsOccupants<K, V>(t: Table<K, V>, i: nat, k: nat, j: nat)
    requires i <= |t| && (i < |t| ==> k <= |t[i]|)
    requires j < |Occupants(t, i, k)|
    ensures var r := Occupants(t, i, k);
      r[j].chunk < |t| && r[j].slot < |t[r[j].chunk]| &&
      Occupants(t, r[j].chunk, r[j].slot + 1) == r[j + 1..]
    decreases j
  {
    var r := Occupants(t, i, k);
    OccupantsStep(t, i, k);
    if j > 0 {
      WalkFollowsOccupants(t, r[0].chunk, r[0].slot + 1, j - 1);
      assert r[1..][j - 1..] == r[j..];
      assert r[1..][j..] == r[j + 1..];
    }
  }

  /** One chunk of the chain: the slot storage, the occupancy flags and the
      link to the next chunk.  A slot is occupied exactly when its flag is set. */
  class Chunk<K, V> {
    const flag: array<bool>
    const elems: array<Option<Element<K, V>>>
    var next: Chunk?<K, V>

    /** A fresh chunk: every flag false, every slot empty, no successor. */
    constructor (size: nat)
      ensures fresh(flag) && fresh(elems) && next == null
      ensures Stores(EmptyRow(size))
    {
      flag := new bool[size](_ => false);
      elems := new Option<Element<K, V>>[size](_ => None);
      next := null;
    }

    /** The chunk stores `row`: it has one slot per entry of `row`, slot k
        holds row[k], and flag k is set exactly when that slot is occupied. */
    ghost predicate Stores(row: Row<K, V>)
      reads this, flag, elems
    {
      && flag.Length == |row| && elems.Length == |row|
      && forall k :: 0 <= k < |row| ==> elems[k] == row[k] && flag[k] == row[k].Some?
    }

    /** The first slot at or after `from` whose flag is set, or the slot
        count when there is none: the scan both loops of the iterator's
        increment perform. */
    method Scan(from: nat, ghost row: Row<K, V>) returns (k: nat)
      requires Stores(row) && from <= |row|
      ensures from <= k <= |row| && (k < |row| ==> row[k].Some?)
      ensures forall s :: from <= s < k ==> row[s].None?
    {
      k := from;
      while k != flag.Length && !flag[k]
        invariant from <= k <= |row|
        invariant forall s :: from <= s < k ==> row[s].None?
        decreases |row| - k
      {
        k := k + 1;
      }
    }
  }
}
