/** Specification of the lookup used by swl/incremental_hashmap.hpp: a
    bounded window of linear probing per chunk, wrapping from the last slot to
    slot 0, then on to the next chunk of the chain.  Everything here is about
    the Table view of a map (see module Slots); the class in IncrementalMap
    is proved to compute these functions. */
module Probing {
  import opened Slots

  /** Number of consecutive slots examined in each chunk: max(3, size / 5). */
  function ProbingSteps(size: nat): (p: nat)
    ensures p >= 3 && p >= size / 5
    ensures p == 3 || p == size / 5
  {
    if size / 5 <= 3 then 3 else size / 5
  }

  /** The slot after k in a chunk of `size` slots, wrapping from the last slot to 0. */
  function Succ(k: nat, size: nat): (r: nat)
    requires k < size
    ensures r < size
    ensures r == (k + 1) % size
  {
    if k + 1 == size then 0 else k + 1
  }

  /** The slot examined at step n of a window that starts at `home`. */
  function Reach(home: nat, n: nat, size: nat): (r: nat)
    requires home < size
    ensures r < size
  {
    if n == 0 then home else Succ(Reach(home, n - 1, size), size)
  }

  /** Outcome of probing one chunk. */
  datatype Probe =
    | Hit(slot: nat)               // the slot holds the key
    | Vacant(slot: nat, step: nat) // the first free slot of the window, reached at that step
    | Full(slot: nat)              // the window is exhausted; slot is where the probe stopped

  /** Probing of one chunk from step n on: stops at the first free slot or the
      first slot holding `key`, and gives up after `steps` steps. */
  function ProbeRow<K(==), V>(row: Row<K, V>, key: K, home: nat, n: nat, steps: nat): (r: Probe)
    requires home < |row|
    ensures r.Hit? ==> r.slot < |row| && row[r.slot].Some? && row[r.slot].value.key == key
    ensures r.Vacant? ==>
      && n <= r.step < steps && r.slot == Reach(home, r.step, |row|) && row[r.slot].None?
      && forall m :: n <= m < r.step ==> row[Reach(home, m, |row|)].Some?
    ensures r.Full? ==>
      && r.slot < |row|
      && forall m :: n <= m < steps ==>
           row[Reach(home, m, |row|)].Some? && row[Reach(home, m, |row|)].value.key != key
    decreases steps - n
  {
    if n >= steps then Full(Reach(home, n, |row|))
    else
      var k := Reach(home, n, |row|);
      if row[k].None? then Vacant(k, n)
      else if row[k].value.key == key then Hit(k)
      else ProbeRow(row, key, home, n + 1, steps)
  }

  /** Result of a lookup: the chunk and slot where it stopped, whether the key
      was found there, and whether the window of the last chunk was exhausted. */
  datatype Location = Location(chunk: nat, slot: nat, found: bool, exhausted: bool)

  /** Every slot of the window starting at `home` is occupied. */
  ghost predicate WindowFull<K, V>(row: Row<K, V>, home: nat, steps: nat)
    requires home < |row|
  {
    forall n :: 0 <= n < steps ==> row[Reach(home, n, |row|)].Some?
  }

  /** Lookup from chunk i on, chunk after chunk, as the engine's search does. */
  function Search<K(==), V>(t: Table<K, V>, key: K, home: nat, i: nat, steps: nat, size: nat): (l: Location)
    requires i < |t| && Sized(t, size) && home < size
    ensures i <= l.chunk < |t| && l.slot < size
    ensures l.found ==> !l.exhausted && t[l.chunk][l.slot].Some? && t[l.chunk][l.slot].value.key == key
    ensures !l.found && !l.exhausted ==> t[l.chunk][l.slot].None?
    ensures l.exhausted ==> l.chunk == |t| - 1 && !l.found
    decreases |t| - i
  {
    match ProbeRow(t[i], key, home, 0, steps)
    case Hit(k) => Location(i, k, true, false)
    case Vacant(k, n) => Location(i, k, false, false)
    case Full(k) =>
      if i + 1 < |t| then Search(t, key, home, i + 1, steps, size)
      else Location(i, k, false, true)
  }

  /** The windows a lookup passes over are full, and a free slot where it
      stops is inside the window behind occupied slots only. */
  lemma {:induction false} SearchWindows<K, V>(t: Table<K, V>, key: K, home: nat, i: nat, steps: nat, size: nat)
    requires i < |t| && Sized(t, size) && home < size
    ensures var l := Search(t, key, home, i, steps, size);
      && (forall j :: i <= j < l.chunk ==> WindowFull(t[j], home, steps))
      && (l.exhausted ==> WindowFull(t[l.chunk], home, steps))
      && (!l.found && !l.exhausted ==> PlacedIn(t[l.chunk], home, l.slot, steps))
    decreases |t| - i
  {
    match ProbeRow(t[i], key, home, 0, steps)
    case Hit(k) =>
    case Vacant(k, n) =>
      assert Reach(home, n, |t[i]|) == k;
    case Full(k) =>
      if i + 1 < |t| {
        SearchWindows(t, key, home, i + 1, steps, size);
      }
  }

  /** Slot s is reached from `home` within the window, and every slot the window
      examines before it is occupied. */
  ghost predicate PlacedIn<K, V>(row: Row<K, V>, home: nat, s: nat, steps: nat)
    requires home < |row|
  {
    exists n :: 0 <= n < steps && Reach(home, n, |row|) == s &&
      forall m :: 0 <= m < n ==> row[Reach(home, m, |row|)].Some?
  }

  /** The placement invariant: each key lies inside its window in its chunk,
      behind occupied slots only, and the windows of all earlier chunks are full. */
  ghost predicate Placed<K, V>(t: Table<K, V>, pos: map<K, Addr>, hash: K -> nat, size: nat)
    requires Sized(t, size) && size > 0
  {
    forall key :: key in pos ==>
      && pos[key].chunk < |t|
      && PlacedIn(t[pos[key].chunk], hash(key) % size, pos[key].slot, ProbingSteps(size))
      && forall j :: 0 <= j < pos[key].chunk ==> WindowFull(t[j], hash(key) % size, ProbingSteps(size))
  }

  /** The invariant of a map of the current engine: `t` stores `contents`,
      `pos` locates each key, keys are placed where the search looks for them,
      and every chunk after the root holds at least one element. */
  ghost predicate Inv<K, V>(t: Table<K, V>, contents: map<K, V>, pos: map<K, Addr>, hash: K -> nat, size: nat)
  {
    && size > 0 && |t| >= 1 && Sized(t, size)
    && Abstracts(t, contents, pos)
    && Placed(t, pos, hash, size)
    && forall i :: 1 <= i < |t| ==> RowNonEmpty(t[i])
  }

  /** The lookup a map performs for `key`: it stops inside the chain, at a
      slot holding the key, or at a free slot, or in the last chunk with
      every window used up. */
  function Locate<K(==), V>(t: Table<K, V>, key: K, hash: K -> nat, size: nat): (l: Location)
    requires size > 0 && |t| >= 1 && Sized(t, size)
    ensures l.chunk < |t| && l.slot < size
    ensures l.found ==> !l.exhausted && t[l.chunk][l.slot].Some? && t[l.chunk][l.slot].value.key == key
    ensures !l.found && !l.exhausted ==> t[l.chunk][l.slot].None?
    ensures l.exhausted ==> l.chunk == |t| - 1 && !l.found
  {
    Search(t, key, hash(key) % size, 0, ProbingSteps(size), size)
  }

  // ---------------------------------------------------------------------------
  // Lookup is correct under the invariant

  lemma {:induction false} ProbeHits<K, V>(row: Row<K, V>, key: K, home: nat, s: nat, steps: nat, w: nat, n: nat)
    requires home < |row| && w < steps && Reach(home, w, |row|) == s
    requires row[s].Some? && row[s].value.key == key
    requires forall m :: 0 <= m < w ==> row[Reach(home, m, |row|)].Some?
    requires forall k :: 0 <= k < |row| && row[k].Some? && row[k].value.key == key ==> k == s
    requires n <= w
    ensures ProbeRow(row, key, home, n, steps) == Hit(s)
    decreases w - n
  {
    if n < w {
      ProbeHits(row, key, home, s, steps, w, n + 1);
    }
  }

  lemma {:induction false} ProbeMisses<K, V>(row: Row<K, V>, key: K, home: nat, steps: nat, n: nat)
    requires home < |row| && n <= steps
    requires forall m :: n <= m < steps ==> row[Reach(home, m, |row|)].Some?
    requires forall k :: 0 <= k < |row| && row[k].Some? ==> row[k].value.key != key
    ensures ProbeRow(row, key, home, n, steps).Full?
    decreases steps - n
  {
    if n < steps {
      ProbeMisses(row, key, home, steps, n + 1);
    }
  }

  /** `key` occurs nowhere in `t` but at `a`. */
  ghost predicate OnlyAt<K, V>(t: Table<K, V>, key: K, a: Addr)
  {
    forall i, k :: 0 <= i < |t| && 0 <= k < |t[i]| && t[i][k].Some? && t[i][k].value.key == key ==>
      i == a.chunk && k == a.slot
  }

  /** Searching from any chunk up to the one holding `key` ends at its slot,
      when the key is placed in its window there, every earlier window is
      full, and the key occurs nowhere else. */
  lemma {:induction false} SearchReaches<K, V>(t: Table<K, V>, key: K, a: Addr, home: nat, steps: nat, size: nat, i: nat)
    requires Sized(t, size) && home < size && i <= a.chunk < |t| && a.slot < size
    requires t[a.chunk][a.slot].Some? && t[a.chunk][a.slot].value.key == key && OnlyAt(t, key, a)
    requires PlacedIn(t[a.chunk], home, a.slot, steps)
    requires forall j :: i <= j < a.chunk ==> WindowFull(t[j], home, steps)
    ensures Search(t, key, home, i, steps, size) == Location(a.chunk, a.slot, true, false)
    decreases a.chunk - i
  {
    if i == a.chunk {
      var w :| 0 <= w < steps && Reach(home, w, |t[i]|) == a.slot &&
        forall m :: 0 <= m < w ==> t[i][Reach(home, m, |t[i]|)].Some?;
      ProbeHits(t[i], key, home, a.slot, steps, w, 0);
    } else {
      assert WindowFull(t[i], home, steps);
      ProbeMisses(t[i], key, home, steps, 0);
      SearchReaches(t, key, a, home, steps, size, i + 1);
    }
  }

  /** Lookup finds exactly the stored keys, at the slot that holds them. */
  lemma LocateCorrect<K, V>(t: Table<K, V>, contents: map<K, V>, pos: map<K, Addr>, hash: K -> nat, size: nat, key: K)
    requires Inv(t, contents, pos, hash, size)
    ensures var l := Locate(t, key, hash, size);
      && (l.found <==> key in contents)
      && (key in contents ==> Addr(l.chunk, l.slot) == pos[key] && t[l.chunk][l.slot] == Some(Element(key, contents[key])))
  {
    if key in contents {
      var a := pos[key];
      assert Holds(t, a, Element(key, contents[key]));
      forall i, k | 0 <= i < |t| && 0 <= k < |t[i]| && t[i][k].Some? && t[i][k].value.key == key
        ensures i == a.chunk && k == a.slot
      {
        assert pos[t[i][k].value.key] == Addr(i, k);
      }
      SearchReaches(t, key, a, hash(key) % size, ProbingSteps(size), size, 0);
    } else {
      Absent(t, contents, pos, key);
    }
  }

  /** A key outside the abstract map occurs in no slot. */
  lemma Absent<K, V>(t: Table<K, V>, contents: map<K, V>, pos: map<K, Addr>, key: K)
    requires Abstracts(t, contents, pos) && key !in contents
    ensures forall i, k :: 0 <= i < |t| && 0 <= k < |t[i]| && t[i][k].Some? ==> t[i][k].value.key != key
  {
  }

  /** A lookup that used up the last chunk's window passed full windows only. */
  lemma ExhaustedFull<K, V>(t: Table<K, V>, key: K, hash: K -> nat, size: nat)
    requires size > 0 && |t| >= 1 && Sized(t, size) && Locate(t, key, hash, size).exhausted
    ensures forall j :: 0 <= j < |t| ==> WindowFull(t[j], hash(key) % size, ProbingSteps(size))
  {
    var l := Locate(t, key, hash, size);
    SearchWindows(t, key, hash(key) % size, 0, ProbingSteps(size), size);
    forall j | 0 <= j < |t|
      ensures WindowFull(t[j], hash(key) % size, ProbingSteps(size))
    {
      assert j < l.chunk || j == l.chunk;
    }
  }

  // ---------------------------------------------------------------------------
  // Insertion keeps the invariant

  lemma PlacedInGrows<K, V>(r: Row<K, V>, r2: Row<K, V>, home: nat, s: nat, steps: nat)
    requires home < |r| && RowGrows(r, r2) && PlacedIn(r, home, s, steps)
    ensures PlacedIn(r2, home, s, steps)
  {
    var w :| 0 <= w < steps && Reach(home, w, |r|) == s &&
      forall m :: 0 <= m < w ==> r[Reach(home, m, |r|)].Some?;
    assert Reach(home, w, |r2|) == s;
  }

  lemma WindowFullGrows<K, V>(r: Row<K, V>, r2: Row<K, V>, home: nat, steps: nat)
    requires home < |r| && RowGrows(r, r2) && WindowFull(r, home, steps)
    ensures WindowFull(r2, home, steps)
  {
  }

  /** Occupancy only growing keeps every key placed. */
  lemma PlacedGrows<K, V>(t: Table<K, V>, t2: Table<K, V>, pos: map<K, Addr>, hash: K -> nat, size: nat)
    requires size > 0 && Sized(t, size) && Sized(t2, size) && Grows(t, t2)
    requires Placed(t, pos, hash, size)
    ensures Placed(t2, pos, hash, size)
  {
    var steps := ProbingSteps(size);
    forall key | key in pos
      ensures PlacedIn(t2[pos[key].chunk], hash(key) % size, pos[key].slot, steps)
      ensures forall j :: 0 <= j < pos[key].chunk ==> WindowFull(t2[j], hash(key) % size, steps)
    {
      var a, home := pos[key], hash(key) % size;
      PlacedInGrows(t[a.chunk], t2[a.chunk], home, a.slot, steps);
      forall j | 0 <= j < a.chunk
        ensures WindowFull(t2[j], home, steps)
      {
        WindowFullGrows(t[j], t2[j], home, steps);
      }
    }
  }

  lemma NonEmptyGrows<K, V>(t: Table<K, V>, t2: Table<K, V>)
    requires Grows(t, t2)
    requires forall i :: 1 <= i < |t| ==> RowNonEmpty(t[i])
    ensures forall i :: 1 <= i < |t| ==> RowNonEmpty(t2[i])
  {
    forall i | 1 <= i < |t|
      ensures RowNonEmpty(t2[i])
    {
      var k :| 0 <= k < |t[i]| && t[i][k].Some?;
      assert RowGrows(t[i], t2[i]);
    }
  }

  /** Adding a key that is placed for its own home slot keeps the placement invariant. */
  lemma PlacedExtend<K, V>(t: Table<K, V>, pos: map<K, Addr>, hash: K -> nat, size: nat, key: K, a: Addr)
    requires size > 0 && Sized(t, size) && Placed(t, pos, hash, size) && a.chunk < |t|
    requires PlacedIn(t[a.chunk], hash(key) % size, a.slot, ProbingSteps(size))
    requires forall j :: 0 <= j < a.chunk ==> WindowFull(t[j], hash(key) % size, ProbingSteps(size))
    ensures Placed(t, pos[key := a], hash, size)
  {
  }

  /** An absent key stored in a free slot `a` inside its window, behind full
      windows in all earlier chunks (where the lookup stops), keeps the invariant. */
  lemma InsertVacant<K, V>(t: Table<K, V>, contents: map<K, V>, pos: map<K, Addr>, hash: K -> nat, size: nat, key: K, v: V, a: Addr)
    requires Inv(t, contents, pos, hash, size) && key !in contents
    requires a.chunk < |t| && a.slot < size && t[a.chunk][a.slot].None?
    requires PlacedIn(t[a.chunk], hash(key) % size, a.slot, ProbingSteps(size))
    requires forall j :: 0 <= j < a.chunk ==> WindowFull(t[j], hash(key) % size, ProbingSteps(size))
    ensures Inv(t[a.chunk := t[a.chunk][a.slot := Some(Element(key, v))]], contents[key := v], pos[key := a], hash, size)
  {
    var e := Element(key, v);
    var t2: Table<K, V> := t[a.chunk := t[a.chunk][a.slot := Some(e)]];
    var home, steps := hash(key) % size, ProbingSteps(size);
    StoreGrows(t, a.chunk, a.slot, e);
    StoreAbstracts(t, contents, pos, a, e);
    NonEmptyGrows(t, t2);
    PlacedGrows(t, t2, pos, hash, size);
    PlacedInGrows(t[a.chunk], t2[a.chunk], home, a.slot, steps);
    forall j | 0 <= j < a.chunk
      ensures WindowFull(t2[j], home, steps)
    {
      WindowFullGrows(t[j], t2[j], home, steps);
    }
    PlacedExtend(t2, pos, hash, size, key, a);
  }

  /** Appending a chunk whose home slot for `key` is occupied, behind a chain
      of full windows for `key`, places `key` there and keeps every other key placed. */
  lemma PlacedAppend<K, V>(t: Table<K, V>, pos: map<K, Addr>, hash: K -> nat, size: nat, key: K, r: Row<K, V>)
    requires size > 0 && Sized(t, size) && |r| == size && Placed(t, pos, hash, size)
    requires r[hash(key) % size].Some?
    requires forall j :: 0 <= j < |t| ==> WindowFull(t[j], hash(key) % size, ProbingSteps(size))
    ensures Placed(t + [r], pos[key := Addr(|t|, hash(key) % size)], hash, size)
  {
    var home, steps := hash(key) % size, ProbingSteps(size);
    var t2 := t + [r];
    AppendGrows(t, r);
    PlacedGrows(t, t2, pos, hash, size);
    assert PlacedIn(t2[|t|], home, home, steps) by {
      assert Reach(home, 0, |r|) == home;
    }
    forall j | 0 <= j < |t|
      ensures WindowFull(t2[j], home, steps)
    {
      assert t2[j] == t[j];
    }
    PlacedExtend(t2, pos, hash, size, key, Addr(|t|, home));
  }

  /** An absent key whose windows are full in every chunk (its lookup
      exhausted the last chunk), stored at its home slot of a fresh chunk
      appended to the chain, keeps the invariant. */
  lemma InsertAppend<K, V>(t: Table<K, V>, contents: map<K, V>, pos: map<K, Addr>, hash: K -> nat, size: nat, key: K, v: V)
    requires Inv(t, contents, pos, hash, size) && key !in contents
    requires forall j :: 0 <= j < |t| ==> WindowFull(t[j], hash(key) % size, ProbingSteps(size))
    ensures var home := hash(key) % size;
      Inv(t + [EmptyRow(size)[home := Some(Element(key, v))]], contents[key := v], pos[key := Addr(|t|, home)], hash, size)
  {
    var home, e := hash(key) % size, Element(key, v);
    var r := EmptyRow(size)[home := Some(e)];
    AppendStoreAbstracts(t, contents, pos, size, home, e);
    PlacedAppend(t, pos, hash, size, key, r);
    AppendNonEmpty(t, r, home);
  }

  /** Appending a chunk with an occupied slot keeps every chunk after the root non-empty. */
  lemma AppendNonEmpty<K, V>(t: Table<K, V>, r: Row<K, V>, s: nat)
    requires forall i :: 1 <= i < |t| ==> RowNonEmpty(t[i])
    requires s < |r| && r[s].Some?
    ensures forall i :: 1 <= i < |t + [r]| ==> RowNonEmpty((t + [r])[i])
  {
    forall i | 1 <= i < |t + [r]|
      ensures RowNonEmpty((t + [r])[i])
    {
      if i < |t| {
        assert (t + [r])[i] == t[i];
      } else {
        assert (t + [r])[i][s].Some?;
      }
    }
  }

  /** A map with one empty chunk and no element satisfies the invariant. */
  lemma EmptyInv<K, V>(hash: K -> nat, size: nat)
    requires size > 0
    ensures Inv([EmptyRow<K, V>(size)], map[], map[], hash, size)
  {
  }

  /** Replacing the value of a present key keeps the invariant. */
  lemma Overwrite<K, V>(t: Table<K, V>, contents: map<K, V>, pos: map<K, Addr>, hash: K -> nat, size: nat, key: K, v: V)
    requires Inv(t, contents, pos, hash, size) && key in contents
    ensures var a := pos[key];
      a.chunk < |t| && a.slot < size &&
      Inv(t[a.chunk := t[a.chunk][a.slot := Some(Element(key, v))]], contents[key := v], pos, hash, size)
  {
    var a := pos[key];
    OverwriteAbstracts(t, contents, pos, key, v);
    var t2: Table<K, V> := t[a.chunk := t[a.chunk][a.slot := Some(Element(key, v))]];
    StoreGrows(t, a.chunk, a.slot, Element(key, v));
    PlacedGrows(t, t2, pos, hash, size);
    NonEmptyGrows(t, t2);
  }

  /** The map's default configuration of 32 slots per chunk probes 6 slots;
      the set's default of 16 probes 3. */
  lemma DefaultWindows()
    ensures ProbingSteps(32) == 6 && ProbingSteps(16) == 3
  {
  }
}
