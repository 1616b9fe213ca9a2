/** The legacy engine, incremental_hashmap.hpp: the same chain of chunks as
    the current engine, with the lookup of module LegacyProbing (probe from
    the home slot to the end of each chunk, then the home slot of the next
    chunk) and an iterator that ends at (null, 0). */
module LegacyMap {
  import opened Slots
  import opened LegacyProbing

  class HashMap<K(==), V> {
    /** Slots per chunk (the Bucket template parameter, 16 by default). */
    const bucketSize: nat
    /** The hash functor. */
    const hash: K -> nat
    /** The chunk held by the map itself; the chain starts here. */
    const root: Chunk<K, V>

    /** The chain, root first. */
    ghost var Chunks: seq<Chunk<K, V>>
    /** What each chunk of the chain holds, slot by slot. */
    ghost var Rows: Table<K, V>
    /** The abstract map. */
    ghost var Contents: map<K, V>
    /** Where each key is stored: the element's address. */
    ghost var Pos: map<K, Addr>
    ghost var Repr: set<object>

    /** The chain of chunk objects matches Chunks and Rows. */
    ghost predicate Linked()
      reads this`Repr, this`Chunks, this`Rows, Repr - {this}
    {
      Shape() && Stored()
    }

    /** The chain's shape: chunk i links to chunk i+1, the last chunk to
        nothing; every row has bucketSize slots; no two chunks share an
        object, and all of them belong to the map. */
    ghost predicate Shape()
      reads this`Repr, this`Chunks, this`Rows, Repr - {this}
    {
      && this in Repr
      && bucketSize > 0
      && |Chunks| == |Rows| && |Chunks| >= 1 && Chunks[0] == root
      && (forall i :: 0 <= i < |Chunks| ==>
            Chunks[i] in Repr && Chunks[i].flag in Repr && Chunks[i].elems in Repr)
      && (forall i :: 0 <= i < |Chunks| ==>
            Chunks[i].flag.Length == bucketSize && Chunks[i].elems.Length == bucketSize)
      && (forall i {:trigger Chunks[i].next} :: 0 <= i < |Chunks| - 1 ==> Chunks[i].next == Chunks[i + 1])
      && Chunks[|Chunks| - 1].next == null
      && (forall i :: 0 <= i < |Chunks| ==> |Rows[i]| == bucketSize)
      && (forall i, j :: 0 <= i < j < |Chunks| ==>
            Chunks[i] != Chunks[j] && Chunks[i].flag != Chunks[j].flag && Chunks[i].elems != Chunks[j].elems)
    }

    /** Slot k of chunk i holds Rows[i][k], and its flag is set exactly when
        that slot is occupied. */
    ghost predicate Stored()
      reads this`Repr, this`Chunks, this`Rows, Repr - {this}
      requires Shape()
    {
      forall i, k :: 0 <= i < |Chunks| && 0 <= k < bucketSize ==>
        Chunks[i].elems[k] == Rows[i][k] && Chunks[i].flag[k] == Rows[i][k].Some?
    }

    ghost predicate Valid()
      reads this, Repr
    {
      Linked() && Inv(Rows, Contents, Pos, hash, bucketSize)
    }

    /** An empty map: one chunk, every slot free. */
    constructor (hash: K -> nat, bucketSize: nat)
      requires bucketSize > 0
      ensures Valid() && fresh(Repr)
      ensures this.hash == hash && this.bucketSize == bucketSize
      ensures Rows == [EmptyRow(bucketSize)] && Contents == map[] && Pos == map[]
    {
      this.hash := hash;
      this.bucketSize := bucketSize;
      root := new Chunk(bucketSize);
      new;
      Chunks := [root];
      Rows := [EmptyRow(bucketSize)];
      Contents := map[];
      Pos := map[];
      Repr := {this, root, root.flag, root.elems};
      EmptyInv<K, V>(hash, bucketSize);
    }

    /** Sets the flag of slot idx of chunk c and stores (key, v) there; the
        abstract map and the addresses become `contents` and `pos`. */
    method ConstructAt(c: Chunk<K, V>, idx: nat, key: K, v: V,
                       ghost ci: nat, ghost contents: map<K, V>, ghost pos: map<K, Addr>)
      requires Linked() && ci < |Chunks| && c == Chunks[ci] && idx < bucketSize
      modifies this, c.flag, c.elems
      ensures Linked()
      ensures Chunks == old(Chunks) && Repr == old(Repr) && Contents == contents && Pos == pos
      ensures Rows == old(Rows)[ci := old(Rows)[ci][idx := Some(Element(key, v))]]
    {
      c.flag[idx] := true;
      c.elems[idx] := Some(Element(key, v));
      Rows := Rows[ci := Rows[ci][idx := Some(Element(key, v))]];
      Contents, Pos := contents, pos;
      forall i, k | 0 <= i < |Chunks| && 0 <= k < bucketSize
        ensures Chunks[i].elems[k] == Rows[i][k] && Chunks[i].flag[k] == Rows[i][k].Some?
      {
        if i != ci {
          assert Chunks[i].elems != c.elems && Chunks[i].flag != c.flag;
        }
      }
    }

    /** The lookup: from the root chunk on, probe from hash(key) % bucketSize
        to the last slot of the chunk, stopping at a free slot or at the key;
        at the end of a chunk go on to the same home slot of the next one.
        When there is no next chunk, answer the last chunk, the home slot,
        and mustAlloc. */
    method FindImpl(key: K) returns (c: Chunk<K, V>, idx: nat, mustAlloc: bool, ghost ci: nat)
      requires Linked()
      ensures Sized(Rows, bucketSize)
      ensures var s := Lookup(Rows, key, hash, bucketSize);
        idx == s.slot && mustAlloc == s.mustAlloc
      ensures ci == Lookup(Rows, key, hash, bucketSize).chunk && ci < |Chunks| && c == Chunks[ci]
    {
      var home := hash(key) % bucketSize;
      ghost var target := Lookup(Rows, key, hash, bucketSize);
      c, ci := root, 0;
      var k := home;
      while true
        invariant ci < |Chunks| && c == Chunks[ci] && home <= k < bucketSize
        invariant Walk(Rows, key, home, ci, bucketSize) == target
        invariant ScanRow(Rows[ci], key, k) == ScanRow(Rows[ci], key, home)
        decreases |Chunks| - ci, bucketSize - k
      {
        if !c.flag[k] || c.elems[k].value.key == key {
          return c, k, false, ci;
        }
        k := k + 1;
        if k == bucketSize {
          if c.next == null {
            return c, home, true, ci;
          }
          c, ci := c.next, ci + 1;
          k := home;
        }
      }
    }

    /** Links a fresh, empty chunk behind the last chunk c (the allocation
        step of find_or_alloc). */
    method AllocNext(c: Chunk<K, V>) returns (next: Chunk<K, V>)
      requires Linked() && c == Chunks[|Chunks| - 1]
      modifies this, c
      ensures Linked() && fresh(next) && fresh(next.flag) && fresh(next.elems)
      ensures Chunks == old(Chunks) + [next] && Rows == old(Rows) + [EmptyRow(bucketSize)]
      ensures Repr == old(Repr) + {next, next.flag, next.elems} && fresh(Repr - old(Repr))
      ensures Contents == old(Contents) && Pos == old(Pos)
    {
      next := new Chunk(bucketSize);
      c.next := next;
      Chunks := Chunks + [next];
      Rows := Rows + [EmptyRow(bucketSize)];
      Repr := Repr + {next, next.flag, next.elems};
    }

    /** The lookup done on behalf of an insertion: when it asks for a new
        chunk, one is linked behind the last and the home slot in it is the
        answer; otherwise the answer is where the lookup stopped. */
    method FindOrAlloc(key: K) returns (c: Chunk<K, V>, idx: nat, ghost ci: nat)
      requires Linked()
      modifies this, Chunks[|Chunks| - 1]
      ensures Linked() && fresh(Repr - old(Repr))
      ensures Sized(old(Rows), bucketSize) && ci < |Chunks| && c == Chunks[ci]
      ensures Contents == old(Contents) && Pos == old(Pos)
      ensures var s := Lookup(old(Rows), key, hash, bucketSize);
        && idx == s.slot
        && (s.mustAlloc ==>
              && Chunks == old(Chunks) + [c] && Rows == old(Rows) + [EmptyRow(bucketSize)]
              && ci == |old(Rows)|)
        && (!s.mustAlloc ==> Chunks == old(Chunks) && Rows == old(Rows) && ci == s.chunk)
    {
      var mustAlloc;
      c, idx, mustAlloc, ci := FindImpl(key);
      if mustAlloc {
        c := AllocNext(c);
        ci := ci + 1;
      }
    }

    /** Inserts (key, v) unless key is present, and gives the element's
        address.  No stored element moves: an absent key lands in the free
        slot where the lookup stopped, or, when the lookup asked for a new
        chunk, in its home slot of a chunk appended to the chain. */
    method Insert(key: K, v: V) returns (c: Chunk<K, V>, idx: nat, inserted: bool)
      requires Valid()
      modifies Repr
      ensures Valid() && fresh(Repr - old(Repr))
      ensures inserted <==> key !in old(Contents)
      ensures Contents == if inserted then old(Contents)[key := v] else old(Contents)
      ensures key in Pos && Pos[key].chunk < |Chunks| && c == Chunks[Pos[key].chunk] && idx == Pos[key].slot
      ensures !inserted ==> Rows == old(Rows) && Chunks == old(Chunks) && Pos == old(Pos)
      ensures inserted ==>
        var s, home, e := Lookup(old(Rows), key, hash, bucketSize), hash(key) % bucketSize, Some(Element(key, v));
        if s.mustAlloc then
          && Chunks == old(Chunks) + [c] && Pos == old(Pos)[key := Addr(|old(Rows)|, home)]
          && Rows == old(Rows) + [EmptyRow(bucketSize)[home := e]]
        else
          && Chunks == old(Chunks) && Pos == old(Pos)[key := Addr(s.chunk, s.slot)]
          && Rows == old(Rows)[s.chunk := old(Rows)[s.chunk][s.slot := e]]
    {
      ghost var t, contents, pos := Rows, Contents, Pos;
      ghost var ci;
      c, idx, ci := FindOrAlloc(key);
      LookupCorrect(t, contents, pos, hash, bucketSize, key);
      inserted := !c.flag[idx];
      if inserted {
        InsertAbsent(t, contents, pos, hash, bucketSize, key, v);
        ConstructAt(c, idx, key, v, ci, contents[key := v], pos[key := Addr(ci, idx)]);
      }
    }

    /** The membership test as written: the flag of the slot the lookup
        answers, whether or not the lookup asked for a new chunk.  It reports
        every stored key, and also an absent key whose probe range is full in
        every chunk. */
    method Contains(key: K) returns (b: bool)
      requires Valid()
      ensures b <==> key in Contents || Lookup(Rows, key, hash, bucketSize).mustAlloc
    {
      var c, idx, mustAlloc, ci := FindImpl(key);
      ContainsAsWritten(Rows, Contents, Pos, hash, bucketSize, key);
      b := c.flag[idx];
    }

    /** The value lookup as written: the value in the slot the lookup
        answers when its flag is set.  For an absent key whose probe range is
        full in every chunk, that is the value of the key stored in the home
        slot of the last chunk. */
    method Find(key: K) returns (r: Option<V>)
      requires Valid()
      ensures key in Contents ==> r == Some(Contents[key])
      ensures key !in Contents ==>
        var s := Lookup(Rows, key, hash, bucketSize);
        if s.mustAlloc then
          && Rows[s.chunk][s.slot].Some?
          && var other := Rows[s.chunk][s.slot].value.key;
            other != key && other in Contents && r == Some(Contents[other])
        else r == None
    {
      var c, idx, mustAlloc, ci := FindImpl(key);
      LookupCorrect(Rows, Contents, Pos, hash, bucketSize, key);
      r := if c.flag[idx] then Some(c.elems[idx].value.value) else None;
      if key !in Contents && mustAlloc {
        FindAsWritten(Rows, Contents, Pos, hash, bucketSize, key);
      }
    }

    /** The corrected membership test: the key is present exactly when the
        lookup did not ask for a new chunk and the slot it answers is occupied. */
    method ContainsFixed(key: K) returns (b: bool)
      requires Valid()
      ensures b <==> key in Contents
    {
      var c, idx, mustAlloc, ci := FindImpl(key);
      ContainsCorrected(Rows, Contents, Pos, hash, bucketSize, key);
      b := !mustAlloc && c.flag[idx];
    }

    /** The corrected value lookup: the value stored for key, or None (the
        null pointer) when absent. */
    method FindFixed(key: K) returns (r: Option<V>)
      requires Valid()
      ensures r == if key in Contents then Some(Contents[key]) else None
    {
      var c, idx, mustAlloc, ci := FindImpl(key);
      LookupCorrect(Rows, Contents, Pos, hash, bucketSize, key);
      r := if !mustAlloc && c.flag[idx] then Some(c.elems[idx].value.value) else None;
    }

    /** What a step of an iterator at chunk i relies on: chunk i stores row i
        and either links to chunk i+1 or ends the chain. */
    ghost predicate StepAt(i: nat)
      reads this, Repr
    {
      && |Chunks| == |Rows| && i < |Chunks| && Sized(Rows, bucketSize)
      && Chunks[i] in Repr && Chunks[i].flag in Repr && Chunks[i].elems in Repr
      && Chunks[i].Stores(Rows[i])
      && if i + 1 < |Chunks| then Chunks[i].next == Chunks[i + 1] else Chunks[i].next == null
    }

    /** What the steps of an iterator from chunk i to the end of the chain rely on. */
    ghost predicate StepsFrom(i: nat)
      reads this, Repr
    {
      forall j :: i <= j < |Chunks| ==> StepAt(j)
    }

    /** Every chunk of the chain gives an iterator what its step relies on. */
    lemma LinkedSteps()
      requires Linked()
      ensures StepsFrom(0)
    {
    }

    /** The first position of the walk: slot 0 of the root if occupied, else
        the position the iterator's increment reaches from there. */
    method Begin() returns (it: Iterator<K, V>)
      requires Linked()
      ensures fresh(it) && it.Into(this)
      ensures var r := Occupants(Rows, 0, 0);
        if r == [] then it.c == null && it.idx == 0 else it.ci == r[0].chunk && it.idx == r[0].slot
    {
      LinkedSteps();
      it := new Iterator(root, 0, 0);
      if !root.flag[0] {
        it.Increment(this);
      }
    }

    /** The end position: no chunk, slot 0. */
    method End() returns (it: Iterator<K, V>)
      requires Linked()
      ensures fresh(it) && it.Into(this) && it.c == null && it.idx == 0
    {
      it := new Iterator(null, 0, |Chunks|);
    }
  }

  /** A position in the chain: a chunk (null at the end) and a slot index. */
  class Iterator<K(==), V> {
    var c: Chunk?<K, V>
    var idx: int
    /** Position of c in the chain (the chain's length at the end). */
    ghost var ci: nat

    constructor (c: Chunk?<K, V>, idx: int, ghost ci: nat)
      ensures this.c == c && this.idx == idx && this.ci == ci
    {
      this.c, this.idx, this.ci := c, idx, ci;
    }

    /** The iterator is a slot of m's chain, or m's end position. */
    ghost predicate Into(m: HashMap<K, V>)
      reads this, m
    {
      || (ci < |m.Chunks| && c == m.Chunks[ci] && 0 <= idx < m.bucketSize)
      || (ci == |m.Chunks| && c == null && idx == 0)
    }

    /** Moves to the next occupied slot of the chain, going from the last
        slot of a chunk to slot 0 of the next one, or to the end position
        (null, 0) when the chain runs out.  Incrementing the end position
        dereferences a null pointer in the source, hence c != null. */
    method Increment(ghost m: HashMap<K, V>)
      requires Into(m) && c != null && m.StepAt(ci) && m.StepsFrom(ci)
      modifies this
      ensures Into(m)
      ensures var r := Occupants(m.Rows, old(ci), old(idx) + 1);
        if r == [] then c == null && idx == 0 else ci == r[0].chunk && idx == r[0].slot
    {
      ghost var t := m.Rows;
      var cur: Chunk?<K, V> := c;
      var k := idx;
      ghost var i := ci;
      ghost var i0 := ci;
      ghost var target := Occupants(t, i, k + 1);
      while true
        invariant cur != null && i0 <= i < |t| && m.StepAt(i) && cur == m.Chunks[i]
        invariant 0 <= k < |t[i]| && Occupants(t, i, k + 1) == target
        decreases |t| - i, |t[i]| - k
      {
        k := k + 1;
        if k == cur.flag.Length {
          cur, k := cur.next, 0;
          if cur == null {
            i := i + 1;
            break;
          }
          i := i + 1;
          assert m.StepAt(i);
        }
        if cur.flag[k] {
          break;
        }
      }
      c, idx, ci := cur, k, i;
    }

    /** The element at the iterator: the stored pair for its key. */
    function Deref(ghost m: HashMap<K, V>): (e: Element<K, V>)
      reads this, m, m.Repr
      requires m.Valid() && Into(m) && c != null && m.Rows[ci][idx].Some?
      ensures e.key in m.Contents && m.Contents[e.key] == e.value && m.Pos[e.key] == Addr(ci, idx)
    {
      c.elems[idx].value
    }

    /** Iterators compare by chunk pointer and slot index, which is the same
        as comparing positions in the chain. */
    function Equals(o: Iterator<K, V>, ghost m: HashMap<K, V>): (r: bool)
      reads this, o, m, m.Repr
      requires m.Valid() && Into(m) && o.Into(m)
      ensures r <==> (ci == o.ci && idx == o.idx)
    {
      c == o.c && idx == o.idx
    }
  }
}
