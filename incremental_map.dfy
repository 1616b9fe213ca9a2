/** The current engine, swl/incremental_hashmap.hpp: a map that never moves
    an element once stored.  A root chunk is held by the map, further chunks
    are linked behind it; lookup probes a bounded window per chunk (module
    Probing) and insertion appends a chunk when the window of the last one is
    exhausted. */
module IncrementalMap {
  import opened Slots
  import opened Probing

  class HashMap<K(==), V> {
    /** Slots per chunk (the BucketSize template parameter). */
    const bucketSize: nat
    /** The hash functor. */
    const hash: K -> nat
    /** The chunk held by the map itself; the chain starts here. */
    const root: Chunk<K, V>

    /** The chain, root first. */
    ghost var Chunks: seq<Chunk<K, V>>
    /** What each chunk of the chain holds, slot by slot. */
    ghost var Rows: Table<K, V>
    /** The abstract map. */
    ghost var Contents: map<K, V>
    /** Where each key is stored: the element's address. */
    ghost var Pos: map<K, Addr>
    ghost var Repr: set<object>

    /** The chain of chunk objects matches Chunks and Rows. */
    ghost predicate Linked()
      reads this`Repr, this`Chunks, this`Rows, Repr - {this}
    {
      Shape() && Stored()
    }

    /** The chain's shape: chunk i links to chunk i+1, the last chunk to
        nothing; every row has bucketSize slots; no two chunks share an
        object, and all of them belong to the map. */
    ghost predicate Shape()
      reads this`Repr, this`Chunks, this`Rows, Repr - {this}
    {
      && this in Repr
      && bucketSize > 0
      && |Chunks| == |Rows| && |Chunks| >= 1 && Chunks[0] == root
      && (forall i :: 0 <= i < |Chunks| ==>
            Chunks[i] in Repr && Chunks[i].flag in Repr && Chunks[i].elems in Repr)
      && (forall i :: 0 <= i < |Chunks| ==>
            Chunks[i].flag.Length == bucketSize && Chunks[i].elems.Length == bucketSize)
      && (forall i {:trigger Chunks[i].next} :: 0 <= i < |Chunks| - 1 ==> Chunks[i].next == Chunks[i + 1])
      && Chunks[|Chunks| - 1].next == null
      && (forall i :: 0 <= i < |Chunks| ==> |Rows[i]| == bucketSize)
      && (forall i, j :: 0 <= i < j < |Chunks| ==>
            Chunks[i] != Chunks[j] && Chunks[i].flag != Chunks[j].flag && Chunks[i].elems != Chunks[j].elems)
    }

    /** Slot k of chunk i holds Rows[i][k], and its flag is set exactly when
        that slot is occupied. */
    ghost predicate Stored()
      reads this`Repr, this`Chunks, this`Rows, Repr - {this}
      requires Shape()
    {
      forall i, k :: 0 <= i < |Chunks| && 0 <= k < bucketSize ==>
        Chunks[i].elems[k] == Rows[i][k] && Chunks[i].flag[k] == Rows[i][k].Some?
    }

    ghost predicate Valid()
      reads this, Repr
    {
      Linked() && Inv(Rows, Contents, Pos, hash, bucketSize)
    }

    /** An empty map: one chunk, every slot free. */
    constructor (hash: K -> nat, bucketSize: nat)
      requires bucketSize > 0
      ensures Valid() && fresh(Repr)
      ensures this.hash == hash && this.bucketSize == bucketSize
      ensures Rows == [EmptyRow(bucketSize)] && Contents == map[] && Pos == map[]
    {
      this.hash := hash;
      this.bucketSize := bucketSize;
      root := new Chunk(bucketSize);
      new;
      Chunks := [root];
      Rows := [EmptyRow(bucketSize)];
      Contents := map[];
      Pos := map[];
      Repr := {this, root, root.flag, root.elems};
      EmptyInv<K, V>(hash, bucketSize);
    }

    /** Stores (key, v) in slot idx of chunk c and sets that slot's flag;
        the abstract map and the addresses become `contents` and `pos`. */
    method ConstructAt(c: Chunk<K, V>, idx: nat, key: K, v: V,
                       ghost ci: nat, ghost contents: map<K, V>, ghost pos: map<K, Addr>)
      requires Linked() && ci < |Chunks| && c == Chunks[ci] && idx < bucketSize
      modifies this, c.flag, c.elems
      ensures Linked()
      ensures Chunks == old(Chunks) && Repr == old(Repr) && Contents == contents && Pos == pos
      ensures Rows == old(Rows)[ci := old(Rows)[ci][idx := Some(Element(key, v))]]
    {
      c.flag[idx] := true;
      c.elems[idx] := Some(Element(key, v));
      Rows := Rows[ci := Rows[ci][idx := Some(Element(key, v))]];
      Contents, Pos := contents, pos;
      forall i, k | 0 <= i < |Chunks| && 0 <= k < bucketSize
        ensures Chunks[i].elems[k] == Rows[i][k] && Chunks[i].flag[k] == Rows[i][k].Some?
      {
        if i != ci {
          assert Chunks[i].elems != c.elems && Chunks[i].flag != c.flag;
        }
      }
    }

    /** Replaces the value of the element in the occupied slot idx of chunk c. */
    method SetValue(c: Chunk<K, V>, idx: nat, v: V, ghost ci: nat, ghost contents: map<K, V>)
      requires Linked() && ci < |Chunks| && c == Chunks[ci] && idx < bucketSize && Rows[ci][idx].Some?
      modifies this, c.elems
      ensures Linked()
      ensures Chunks == old(Chunks) && Repr == old(Repr) && Contents == contents && Pos == old(Pos)
      ensures Rows == old(Rows)[ci := old(Rows)[ci][idx := Some(old(Rows)[ci][idx].value.(value := v))]]
    {
      c.elems[idx] := Some(c.elems[idx].value.(value := v));
      Rows := Rows[ci := Rows[ci][idx := Some(Rows[ci][idx].value.(value := v))]];
      Contents := contents;
    }

    /** Links a fresh, empty chunk behind the last chunk c. */
    method MakeNextChunk(c: Chunk<K, V>) returns (next: Chunk<K, V>)
      requires Linked() && c == Chunks[|Chunks| - 1]
      modifies this, c
      ensures Linked() && fresh(next) && fresh(next.flag) && fresh(next.elems)
      ensures Chunks == old(Chunks) + [next] && Rows == old(Rows) + [EmptyRow(bucketSize)]
      ensures Repr == old(Repr) + {next, next.flag, next.elems} && fresh(Repr - old(Repr))
      ensures Contents == old(Contents) && Pos == old(Pos)
    {
      next := new Chunk(bucketSize);
      c.next := next;
      Chunks := Chunks + [next];
      Rows := Rows + [EmptyRow(bucketSize)];
      Repr := Repr + {next, next.flag, next.elems};
    }

    /** The lookup: from the root chunk on, probe the window of
        ProbingSteps(bucketSize) slots from hash(key) % bucketSize, wrapping to
        slot 0; stop at a free slot or at the key; otherwise go on to the next
        chunk.  `exhausted` reports that the last chunk's window was used up
        (the case in which insertion appends a chunk). */
    method TryFind(key: K) returns (c: Chunk<K, V>, idx: nat, found: bool, exhausted: bool, ghost ci: nat)
      requires Linked()
      ensures Sized(Rows, bucketSize)
      ensures var l := Locate(Rows, key, hash, bucketSize);
        idx == l.slot && found == l.found && exhausted == l.exhausted
      ensures ci == Locate(Rows, key, hash, bucketSize).chunk && ci < |Chunks| && c == Chunks[ci]
    {
      var home := hash(key) % bucketSize;
      var steps := ProbingSteps(bucketSize);
      ghost var target := Locate(Rows, key, hash, bucketSize);
      c, ci := root, 0;
      while true
        invariant ci < |Chunks| && c == Chunks[ci]
        invariant Search(Rows, key, home, ci, steps, bucketSize) == target
        decreases |Chunks| - ci
      {
        var k := home;
        var n := 0;
        while n < steps
          invariant 0 <= n <= steps && k == Reach(home, n, bucketSize)
          invariant ProbeRow(Rows[ci], key, home, n, steps) == ProbeRow(Rows[ci], key, home, 0, steps)
        {
          if !c.flag[k] {
            return c, k, false, false, ci;
          }
          if c.elems[k].value.key == key {
            return c, k, true, false, ci;
          }
          k := k + 1;
          k := if k == bucketSize then 0 else k;
          n := n + 1;
        }
        if c.next != null {
          c, ci := c.next, ci + 1;
        } else {
          return c, k, false, true, ci;
        }
      }
    }

    /** The lookup done on behalf of an insertion (try_find with its
        for_emplace flag set): when the window of the last chunk is used up, a
        new chunk is linked and the home slot in it is the answer; otherwise
        the answer is where the lookup stopped. */
    method FindForEmplace(key: K) returns (c: Chunk<K, V>, idx: nat, found: bool, ghost ci: nat)
      requires Linked()
      modifies this, Chunks[|Chunks| - 1]
      ensures Linked() && fresh(Repr - old(Repr))
      ensures Sized(old(Rows), bucketSize) && ci < |Chunks| && c == Chunks[ci]
      ensures Contents == old(Contents) && Pos == old(Pos)
      ensures var l := Locate(old(Rows), key, hash, bucketSize);
        && found == l.found
        && (l.exhausted ==>
              && Chunks == old(Chunks) + [c] && Rows == old(Rows) + [EmptyRow(bucketSize)]
              && ci == |old(Rows)| && idx == hash(key) % bucketSize)
        && (!l.exhausted ==> Chunks == old(Chunks) && Rows == old(Rows) && ci == l.chunk && idx == l.slot)
    {
      var exhausted;
      c, idx, found, exhausted, ci := TryFind(key);
      if exhausted {
        c := MakeNextChunk(c);
        idx, ci := hash(key) % bucketSize, ci + 1;
      }
    }

    /** Inserts (key, v) unless key is present, and gives the element's
        address.  No stored element moves: an absent key lands in the free
        slot where the lookup stopped, or, when the last chunk's window was
        used up, in its home slot of a chunk appended to the chain. */
    method TryEmplace(key: K, v: V) returns (c: Chunk<K, V>, idx: nat, inserted: bool)
      requires Valid()
      modifies Repr
      ensures Valid() && fresh(Repr - old(Repr))
      ensures inserted <==> key !in old(Contents)
      ensures Contents == if inserted then old(Contents)[key := v] else old(Contents)
      ensures key in Pos && Pos[key].chunk < |Chunks| && c == Chunks[Pos[key].chunk] && idx == Pos[key].slot
      ensures !inserted ==> Rows == old(Rows) && Chunks == old(Chunks) && Pos == old(Pos)
      ensures inserted ==>
        var l, home, e := Locate(old(Rows), key, hash, bucketSize), hash(key) % bucketSize, Some(Element(key, v));
        if l.exhausted then
          && Chunks == old(Chunks) + [c] && Pos == old(Pos)[key := Addr(|old(Rows)|, home)]
          && Rows == old(Rows) + [EmptyRow(bucketSize)[home := e]]
        else
          && Chunks == old(Chunks) && Pos == old(Pos)[key := Addr(l.chunk, l.slot)]
          && Rows == old(Rows)[l.chunk := old(Rows)[l.chunk][l.slot := e]]
    {
      ghost var t, contents, pos := Rows, Contents, Pos;
      var found;
      ghost var ci;
      c, idx, found, ci := FindForEmplace(key);
      LocateCorrect(t, contents, pos, hash, bucketSize, key);
      inserted := !found;
      if inserted {
        ghost var l := Locate(t, key, hash, bucketSize);
        if l.exhausted {
          ExhaustedFull(t, key, hash, bucketSize);
          InsertAppend(t, contents, pos, hash, bucketSize, key, v);
          AppendThenStore(t, EmptyRow(bucketSize), idx, Some(Element(key, v)));
        } else {
          SearchWindows(t, key, hash(key) % bucketSize, 0, ProbingSteps(bucketSize), bucketSize);
          InsertVacant(t, contents, pos, hash, bucketSize, key, v, Addr(ci, idx));
        }
        ConstructAt(c, idx, key, v, ci, contents[key := v], pos[key := Addr(ci, idx)]);
      }
    }

    /** Inserts (key, v), or replaces the value of a present key in place:
        the key and its slot stay as they are. */
    method Emplace(key: K, v: V) returns (c: Chunk<K, V>, idx: nat, inserted: bool)
      requires Valid()
      modifies Repr
      ensures Valid() && fresh(Repr - old(Repr))
      ensures inserted <==> key !in old(Contents)
      ensures Contents == old(Contents)[key := v]
      ensures key in Pos && Pos[key].chunk < |Chunks| && c == Chunks[Pos[key].chunk] && idx == Pos[key].slot
      ensures !inserted ==>
        var a := Pos[key];
        && Chunks == old(Chunks) && Pos == old(Pos)
        && Rows == old(Rows)[a.chunk := old(Rows)[a.chunk][a.slot := Some(Element(key, v))]]
      ensures inserted ==>
        var l, home, e := Locate(old(Rows), key, hash, bucketSize), hash(key) % bucketSize, Some(Element(key, v));
        if l.exhausted then
          && Chunks == old(Chunks) + [c] && Pos == old(Pos)[key := Addr(|old(Rows)|, home)]
          && Rows == old(Rows) + [EmptyRow(bucketSize)[home := e]]
        else
          && Chunks == old(Chunks) && Pos == old(Pos)[key := Addr(l.chunk, l.slot)]
          && Rows == old(Rows)[l.chunk := old(Rows)[l.chunk][l.slot := e]]
    {
      ghost var t, contents, pos := Rows, Contents, Pos;
      c, idx, inserted := TryEmplace(key, v);
      if !inserted {
        Overwrite(t, contents, pos, hash, bucketSize, key, v);
        assert t[pos[key].chunk][pos[key].slot] == Some(Element(key, contents[key]));
        SetValue(c, idx, v, pos[key].chunk, contents[key := v]);
        assert t[pos[key].chunk][pos[key].slot].value.(value := v) == Element(key, v);
      }
    }

    method Contains(key: K) returns (b: bool)
      requires Valid()
      ensures b <==> key in Contents
    {
      var c, idx, found, exhausted, ci := TryFind(key);
      LocateCorrect(Rows, Contents, Pos, hash, bucketSize, key);
      b := found;
    }

    /** The value stored for key, or None (the null pointer) when absent. */
    method Find(key: K) returns (r: Option<V>)
      requires Valid()
      ensures r == if key in Contents then Some(Contents[key]) else None
    {
      var c, idx, found, exhausted, ci := TryFind(key);
      LocateCorrect(Rows, Contents, Pos, hash, bucketSize, key);
      r := if found then Some(c.elems[idx].value.value) else None;
    }

    /** Deep copy of o into this empty map: chunk i of o is copied into
        chunk i of this map, slot by slot, appending chunks as o has them. */
    method AssignFrom(o: HashMap<K, V>)
      requires Linked() && o.Linked() && Repr !! o.Repr && o.bucketSize == bucketSize
      requires Rows == [EmptyRow(bucketSize)]
      modifies Repr
      ensures Linked() && fresh(Repr - old(Repr))
      ensures Rows == o.Rows && Contents == o.Contents && Pos == o.Pos
    {
      ghost var chunks, rows := o.Chunks, o.Rows;
      var oc := o.root;
      var c := root;
      ghost var j := 0;
      while true
        invariant Linked() && fresh(Repr - old(Repr))
        invariant j < |chunks| && oc == chunks[j] && |Chunks| == j + 1 && c == Chunks[j]
        invariant Rows == rows[..j] + [EmptyRow(bucketSize)]
        decreases |chunks| - j
      {
        CopyChunk(c, oc, j, rows[j]);
        oc := oc.next;
        if oc == null {
          assert Rows == rows;
          Contents, Pos := o.Contents, o.Pos;
          return;
        }
        c := MakeNextChunk(c);
        j := j + 1;
      }
    }

    /** One round of AssignFrom's loop: every occupied slot of the chunk oc,
        which stores `row`, is copied into the same slot of this map's (empty)
        chunk j. */
    method CopyChunk(c: Chunk<K, V>, oc: Chunk<K, V>, ghost j: nat, ghost row: Row<K, V>)
      requires Linked() && j < |Chunks| && c == Chunks[j] && Rows[j] == EmptyRow(bucketSize)
      requires oc.flag !in Repr && oc.elems !in Repr && |row| == bucketSize
      requires oc.flag.Length == bucketSize && oc.elems.Length == bucketSize
      requires forall k :: 0 <= k < bucketSize ==> oc.elems[k] == row[k] && oc.flag[k] == row[k].Some?
      modifies this, c.flag, c.elems
      ensures Linked() && Chunks == old(Chunks) && Repr == old(Repr)
      ensures Contents == old(Contents) && Pos == old(Pos)
      ensures Rows == old(Rows)[j := row]
    {
      for k := 0 to bucketSize
        invariant Linked() && Chunks == old(Chunks) && Repr == old(Repr)
        invariant Contents == old(Contents) && Pos == old(Pos)
        invariant |Rows| == |old(Rows)| && forall i :: 0 <= i < |Rows| && i != j ==> Rows[i] == old(Rows)[i]
        invariant forall s :: 0 <= s < k ==> Rows[j][s] == row[s]
        invariant forall s :: k <= s < bucketSize ==> Rows[j][s].None?
      {
        if oc.flag[k] {
          ConstructAt(c, k, oc.elems[k].value.key, oc.elems[k].value.value, j, Contents, Pos);
        }
      }
      assert Rows[j] == row;
    }

    /** What a step of an iterator at chunk i relies on: chunk i stores row i
        and either links to chunk i+1, which stores row i+1, or ends the chain. */
    ghost predicate StepAt(i: nat)
      reads this, Repr
    {
      && |Chunks| == |Rows| && i < |Chunks| && Sized(Rows, bucketSize)
      && Chunks[i] in Repr && Chunks[i].flag in Repr && Chunks[i].elems in Repr
      && Chunks[i].Stores(Rows[i])
      && if i + 1 < |Chunks| then
           && Chunks[i + 1] in Repr && Chunks[i + 1].flag in Repr && Chunks[i + 1].elems in Repr
           && Chunks[i].next == Chunks[i + 1] && Chunks[i + 1].Stores(Rows[i + 1])
         else Chunks[i].next == null
    }

    /** Every chunk of the chain gives an iterator what its step relies on. */
    lemma LinkedStep(i: nat)
      requires Linked() && i < |Chunks|
      ensures StepAt(i)
    {
    }

    /** The first position of the walk: slot 0 of the root if occupied, else
        the slot the iterator's increment reaches from there. */
    method Begin() returns (it: Iterator<K, V>)
      requires Linked() && forall i :: 1 <= i < |Rows| ==> RowNonEmpty(Rows[i])
      ensures fresh(it) && it.Into(this)
      ensures var r := Occupants(Rows, 0, 0);
        if r == [] then it.c == null && it.idx == bucketSize else it.ci == r[0].chunk && it.idx == r[0].slot
    {
      LinkedStep(0);
      it := new Iterator(root, 0, 0);
      if !root.flag[0] {
        it.Increment(this);
      }
    }

    /** The end position: no chunk, slot index bucketSize. */
    method End() returns (it: Iterator<K, V>)
      requires Valid()
      ensures fresh(it) && it.Into(this) && it.c == null && it.idx == bucketSize
    {
      it := new Iterator(null, bucketSize, |Chunks|);
    }
  }

  /** A position in the chain: a chunk (null at the end) and a slot index. */
  class Iterator<K(==), V> {
    var c: Chunk?<K, V>
    var idx: int
    /** Position of c in the chain (the chain's length at the end). */
    ghost var ci: nat

    constructor (c: Chunk?<K, V>, idx: int, ghost ci: nat)
      ensures this.c == c && this.idx == idx && this.ci == ci
    {
      this.c, this.idx, this.ci := c, idx, ci;
    }

    /** The iterator is a slot of m's chain, or m's end position. */
    ghost predicate Into(m: HashMap<K, V>)
      reads this, m
    {
      || (ci < |m.Chunks| && c == m.Chunks[ci] && 0 <= idx < m.bucketSize)
      || (ci == |m.Chunks| && c == null && idx == m.bucketSize)
    }

    /** Moves to the next occupied slot of the chain, or to the end position.
        Relies on every chunk after the root holding an element. */
    method Increment(ghost m: HashMap<K, V>)
      requires Into(m) && (c != null ==> m.StepAt(ci))
      requires c != null && ci + 1 < |m.Rows| ==> RowNonEmpty(m.Rows[ci + 1])
      modifies this
      ensures Into(m)
      ensures old(c) == null ==> c == null && idx == old(idx) && ci == old(ci)
      ensures old(c) != null ==>
        var r := Occupants(m.Rows, old(ci), old(idx) + 1);
        if r == [] then c == null else ci == r[0].chunk && idx == r[0].slot
    {
      if c == null {
        return;
      }
      ghost var t, i0 := m.Rows, ci;
      var k := c.Scan(idx + 1, t[ci]);
      OccupantsSkip(t, i0, idx + 1, k);
      if k != c.flag.Length {
        idx := k;
        return;
      }
      var next := c.next;
      if next == null {
        c, idx, ci := null, k, ci + 1;
        return;
      }
      k := next.Scan(0, t[ci + 1]);
      OccupantsSkip(t, i0 + 1, 0, k);
      c, idx, ci := next, k, ci + 1;
    }

    /** The element at the iterator: the stored pair for its key. */
    function Deref(ghost m: HashMap<K, V>): (e: Element<K, V>)
      reads this, m, m.Repr
      requires m.Valid() && Into(m) && c != null && m.Rows[ci][idx].Some?
      ensures e.key in m.Contents && m.Contents[e.key] == e.value && m.Pos[e.key] == Addr(ci, idx)
    {
      c.elems[idx].value
    }

    /** Iterators compare by chunk pointer and slot index, which is the same
        as comparing positions in the chain. */
    function Equals(o: Iterator<K, V>, ghost m: HashMap<K, V>): (r: bool)
      reads this, o, m, m.Repr
      requires m.Valid() && Into(m) && o.Into(m)
      ensures r <==> (ci == o.ci && idx == o.idx)
    {
      c == o.c && idx == o.idx
    }
  }
}
