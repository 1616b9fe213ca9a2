/** Specification of the lookup of the legacy engine, incremental_hashmap.hpp:
    in every chunk of the chain, probe from the home slot hash(key) % Bucket
    up to the last slot, without wrapping, then go on to the same home slot of
    the next chunk.  When the last chunk's range is used up, the lookup
    answers the last chunk, the HOME slot, and a must-allocate flag.

    The legacy membership test reads only the slot of that answer, not the
    flag: when the range of the last chunk is full it reports a key as
    present although it is stored nowhere.  This module proves both the
    behaviour as written (LookupCorrect, TailFalsePositive) and the
    corrected test (the map's ContainsFixed and FindFixed rely on it). */
module LegacyProbing {
  import opened Slots
  import opened Hashing

  /** Result of a lookup (chunk_and_index): the chunk and slot where it
      stopped and whether a chunk must be allocated behind the last one. */
  datatype Stop = Stop(chunk: nat, slot: nat, mustAlloc: bool)

  /** Probe one chunk from slot k up to its last slot: the first slot that is
      free or holds `key`, or None when every one of them holds another key. */
  function ScanRow<K(==), V>(row: Row<K, V>, key: K, k: nat): (r: Option<nat>)
    requires k <= |row|
    ensures r.Some? ==>
      && k <= r.value < |row| && (row[r.value].None? || row[r.value].value.key == key)
      && forall s :: k <= s < r.value ==> row[s].Some? && row[s].value.key != key
    ensures r.None? ==> forall s :: k <= s < |row| ==> row[s].Some? && row[s].value.key != key
    decreases |row| - k
  {
    if k == |row| then None
    else if row[k].None? || row[k].value.key == key then Some(k)
    else ScanRow(row, key, k + 1)
  }

  /** The lookup from chunk i on, every chunk probed from `home`. */
  function Walk<K(==), V>(t: Table<K, V>, key: K, home: nat, i: nat, size: nat): (s: Stop)
    requires i < |t| && Sized(t, size) && home < size
    ensures i <= s.chunk < |t| && s.slot < size
    ensures s.mustAlloc ==> s.chunk == |t| - 1 && s.slot == home
    ensures !s.mustAlloc ==> t[s.chunk][s.slot].None? || t[s.chunk][s.slot].value.key == key
    decreases |t| - i
  {
    match ScanRow(t[i], key, home)
    case Some(k) => Stop(i, k, false)
    case None =>
      if i + 1 < |t| then Walk(t, key, home, i + 1, size)
      else Stop(i, home, true)
  }

  /** The lookup a legacy map performs for `key` (find_impl): it stops inside
      the chain at a free slot or one holding the key, or asks for a new
      chunk from the home slot of the last chunk. */
  function Lookup<K(==), V>(t: Table<K, V>, key: K, hash: K -> nat, size: nat): (s: Stop)
    requires size > 0 && |t| >= 1 && Sized(t, size)
    ensures s.chunk < |t| && s.slot < size
    ensures s.mustAlloc ==> s.chunk == |t| - 1 && s.slot == hash(key) % size
    ensures !s.mustAlloc ==> t[s.chunk][s.slot].None? || t[s.chunk][s.slot].value.key == key
  {
    Walk(t, key, hash(key) % size, 0, size)
  }

  /** Every slot from `home` to the end of the row is occupied. */
  ghost predicate RangeFull<K, V>(row: Row<K, V>, home: nat)
  {
    forall s :: home <= s < |row| ==> row[s].Some?
  }

  /** Slot s lies in the range probed from `home`, behind occupied slots only. */
  ghost predicate PlacedIn<K, V>(row: Row<K, V>, home: nat, s: nat)
  {
    home <= s < |row| && forall m :: home <= m < s ==> row[m].Some?
  }

  /** The placement invariant: each key lies in its range in its chunk,
      behind occupied slots only, and its ranges in all earlier chunks are full. */
  ghost predicate Placed<K, V>(t: Table<K, V>, pos: map<K, Addr>, hash: K -> nat, size: nat)
    requires size > 0
  {
    forall key :: key in pos ==>
      && pos[key].chunk < |t|
      && PlacedIn(t[pos[key].chunk], hash(key) % size, pos[key].slot)
      && forall j :: 0 <= j < pos[key].chunk ==> RangeFull(t[j], hash(key) % size)
  }

  /** The invariant of a legacy map: `t` stores `contents`, `pos` locates
      each key, and keys are placed where the lookup looks for them. */
  ghost predicate Inv<K, V>(t: Table<K, V>, contents: map<K, V>, pos: map<K, Addr>, hash: K -> nat, size: nat)
  {
    && size > 0 && |t| >= 1 && Sized(t, size)
    && Abstracts(t, contents, pos)
    && Placed(t, pos, hash, size)
  }

  // ---------------------------------------------------------------------------
  // What the lookup answers under the invariant

  /** The ranges a lookup passes over are full, the range of the last chunk
      is full when it asks for a chunk, and otherwise the slot where it stops
      is in its range behind occupied slots. */
  lemma {:induction false} WalkRanges<K, V>(t: Table<K, V>, key: K, home: nat, i: nat, size: nat)
    requires i < |t| && Sized(t, size) && home < size
    ensures var s := Walk(t, key, home, i, size);
      && (forall j :: i <= j < s.chunk ==> RangeFull(t[j], home))
      && (s.mustAlloc ==> RangeFull(t[s.chunk], home))
      && (!s.mustAlloc ==> PlacedIn(t[s.chunk], home, s.slot))
    decreases |t| - i
  {
    if ScanRow(t[i], key, home).None? && i + 1 < |t| {
      WalkRanges(t, key, home, i + 1, size);
    }
  }

  /** Probing a row in which `key` occurs only at s, behind occupied slots,
      stops at s. */
  lemma {:induction false} ScanHits<K, V>(row: Row<K, V>, key: K, k: nat, s: nat)
    requires k <= s < |row| && row[s].Some? && row[s].value.key == key
    requires forall m :: k <= m < s ==> row[m].Some? && row[m].value.key != key
    ensures ScanRow(row, key, k) == Some(s)
    decreases s - k
  {
    if k < s {
      ScanHits(row, key, k + 1, s);
    }
  }

  /** Probing a full range that does not hold `key` finds nothing. */
  lemma {:induction false} ScanMisses<K, V>(row: Row<K, V>, key: K, k: nat)
    requires k <= |row| && RangeFull(row, k)
    requires forall m :: 0 <= m < |row| && row[m].Some? ==> row[m].value.key != key
    ensures ScanRow(row, key, k).None?
    decreases |row| - k
  {
    if k < |row| {
      ScanMisses(row, key, k + 1);
    }
  }

  /** `key` occurs nowhere in `t` but at `a`. */
  ghost predicate OnlyAt<K, V>(t: Table<K, V>, key: K, a: Addr)
  {
    forall i, k :: 0 <= i < |t| && 0 <= k < |t[i]| && t[i][k].Some? && t[i][k].value.key == key ==>
      i == a.chunk && k == a.slot
  }

  /** A lookup from any chunk up to the one holding `key` ends at its slot,
      when the key is placed in its range there, every earlier range is
      full, and the key occurs nowhere else. */
  lemma {:induction false} WalkReaches<K, V>(t: Table<K, V>, key: K, a: Addr, home: nat, size: nat, i: nat)
    requires Sized(t, size) && home < size && i <= a.chunk < |t|
    requires PlacedIn(t[a.chunk], home, a.slot)
    requires t[a.chunk][a.slot].Some? && t[a.chunk][a.slot].value.key == key && OnlyAt(t, key, a)
    requires forall j :: i <= j < a.chunk ==> RangeFull(t[j], home)
    ensures Walk(t, key, home, i, size) == Stop(a.chunk, a.slot, false)
    decreases a.chunk - i
  {
    if i == a.chunk {
      ScanHits(t[i], key, home, a.slot);
    } else {
      assert RangeFull(t[i], home);
      ScanMisses(t[i], key, home);
      WalkReaches(t, key, a, home, size, i + 1);
    }
  }

  /** What find_impl answers: a stored key is found at its slot; for an
      absent key the slot answered is free, except when the lookup asks for
      a new chunk, in which case it is the occupied home slot of the last
      chunk. */
  lemma LookupCorrect<K, V>(t: Table<K, V>, contents: map<K, V>, pos: map<K, Addr>, hash: K -> nat, size: nat, key: K)
    requires Inv(t, contents, pos, hash, size)
    ensures var s := Lookup(t, key, hash, size);
      && (key in contents ==>
            && s == Stop(pos[key].chunk, pos[key].slot, false)
            && t[s.chunk][s.slot] == Some(Element(key, contents[key])))
      && (key !in contents ==> (t[s.chunk][s.slot].Some? <==> s.mustAlloc))
  {
    var home := hash(key) % size;
    if key in contents {
      var a := pos[key];
      assert Holds(t, a, Element(key, contents[key]));
      forall i, k | 0 <= i < |t| && 0 <= k < |t[i]| && t[i][k].Some? && t[i][k].value.key == key
        ensures i == a.chunk && k == a.slot
      {
        assert pos[t[i][k].value.key] == Addr(i, k);
      }
      WalkReaches(t, key, a, home, size, 0);
    } else {
      Absent(t, contents, pos, key);
      WalkRanges(t, key, home, 0, size);
    }
  }

  /** A key outside the abstract map occurs in no slot. */
  lemma Absent<K, V>(t: Table<K, V>, contents: map<K, V>, pos: map<K, Addr>, key: K)
    requires Abstracts(t, contents, pos) && key !in contents
    ensures forall i, k :: 0 <= i < |t| && 0 <= k < |t[i]| && t[i][k].Some? ==> t[i][k].value.key != key
  {
  }

  /** The membership test as written (contains): the flag of the slot the
      lookup answers.  It holds for every stored key, and also for an absent
      key whose range is full in every chunk. */
  lemma ContainsAsWritten<K, V>(t: Table<K, V>, contents: map<K, V>, pos: map<K, Addr>, hash: K -> nat, size: nat, key: K)
    requires Inv(t, contents, pos, hash, size)
    ensures var s := Lookup(t, key, hash, size);
      t[s.chunk][s.slot].Some? <==> key in contents || s.mustAlloc
    ensures Lookup(t, key, hash, size).mustAlloc <==>
      key !in contents && forall j :: 0 <= j < |t| ==> RangeFull(t[j], hash(key) % size)
  {
    LookupCorrect(t, contents, pos, hash, size, key);
    var home := hash(key) % size;
    var s := Lookup(t, key, hash, size);
    WalkRanges(t, key, home, 0, size);
    if key !in contents && forall j :: 0 <= j < |t| ==> RangeFull(t[j], home) {
      Absent(t, contents, pos, key);
      AbsentWalk(t, key, home, 0, size);
    }
    if s.mustAlloc {
      forall j | 0 <= j < |t|
        ensures RangeFull(t[j], home)
      {
        assert j < s.chunk || j == s.chunk;
      }
    }
  }

  /** The value lookup as written: for an absent key whose lookup asks for a
      new chunk, the slot answered holds another stored key, whose value it
      then returns. */
  lemma FindAsWritten<K, V>(t: Table<K, V>, contents: map<K, V>, pos: map<K, Addr>, hash: K -> nat, size: nat, key: K)
    requires Inv(t, contents, pos, hash, size) && key !in contents
    requires Lookup(t, key, hash, size).mustAlloc
    ensures var s := Lookup(t, key, hash, size);
      && t[s.chunk][s.slot].Some?
      && var other := t[s.chunk][s.slot].value;
        other.key != key && other.key in contents && contents[other.key] == other.value
  {
    LookupCorrect(t, contents, pos, hash, size, key);
    var s := Lookup(t, key, hash, size);
    var other := t[s.chunk][s.slot].value;
    assert pos[other.key] == Addr(s.chunk, s.slot);
    assert Holds(t, pos[other.key], Element(other.key, contents[other.key]));
  }

  /** A key stored nowhere, whose ranges are full in every chunk, makes the
      lookup ask for a new chunk. */
  lemma {:induction false} AbsentWalk<K, V>(t: Table<K, V>, key: K, home: nat, i: nat, size: nat)
    requires i < |t| && Sized(t, size) && home < size
    requires forall j :: i <= j < |t| ==> RangeFull(t[j], home)
    requires forall j, k :: 0 <= j < |t| && 0 <= k < |t[j]| && t[j][k].Some? ==> t[j][k].value.key != key
    ensures Walk(t, key, home, i, size).mustAlloc
    decreases |t| - i
  {
    assert RangeFull(t[i], home);
    ScanMisses(t[i], key, home);
    if i + 1 < |t| {
      AbsentWalk(t, key, home, i + 1, size);
    }
  }

  /** The corrected membership test: the slot answered holds the key exactly
      when the lookup did not ask for a new chunk and that slot is occupied. */
  lemma ContainsCorrected<K, V>(t: Table<K, V>, contents: map<K, V>, pos: map<K, Addr>, hash: K -> nat, size: nat, key: K)
    requires Inv(t, contents, pos, hash, size)
    ensures var s := Lookup(t, key, hash, size);
      (!s.mustAlloc && t[s.chunk][s.slot].Some?) <==> key in contents
  {
    LookupCorrect(t, contents, pos, hash, size, key);
  }

  /** A lookup that asks for a new chunk passed full ranges only. */
  lemma AllocFull<K, V>(t: Table<K, V>, key: K, hash: K -> nat, size: nat)
    requires size > 0 && |t| >= 1 && Sized(t, size) && Lookup(t, key, hash, size).mustAlloc
    ensures forall j :: 0 <= j < |t| ==> RangeFull(t[j], hash(key) % size)
  {
    var s := Lookup(t, key, hash, size);
    WalkRanges(t, key, hash(key) % size, 0, size);
    forall j | 0 <= j < |t|
      ensures RangeFull(t[j], hash(key) % size)
    {
      assert j < s.chunk || j == s.chunk;
    }
  }

  // ---------------------------------------------------------------------------
  // Insertion keeps the invariant

  lemma PlacedGrows<K, V>(t: Table<K, V>, t2: Table<K, V>, pos: map<K, Addr>, hash: K -> nat, size: nat)
    requires size > 0 && Grows(t, t2) && Placed(t, pos, hash, size)
    ensures Placed(t2, pos, hash, size)
  {
    forall key | key in pos
      ensures PlacedIn(t2[pos[key].chunk], hash(key) % size, pos[key].slot)
      ensures forall j :: 0 <= j < pos[key].chunk ==> RangeFull(t2[j], hash(key) % size)
    {
      var a, home := pos[key], hash(key) % size;
      assert RowGrows(t[a.chunk], t2[a.chunk]);
      forall j | 0 <= j < a.chunk
        ensures RangeFull(t2[j], home)
      {
        assert RowGrows(t[j], t2[j]);
      }
    }
  }

  /** An absent key stored in a free slot `a` in its range, behind full
      ranges in all earlier chunks (where the lookup stops), keeps the invariant. */
  lemma InsertVacant<K, V>(t: Table<K, V>, contents: map<K, V>, pos: map<K, Addr>, hash: K -> nat, size: nat, key: K, v: V, a: Addr)
    requires Inv(t, contents, pos, hash, size) && key !in contents
    requires a.chunk < |t| && PlacedIn(t[a.chunk], hash(key) % size, a.slot)
    requires t[a.chunk][a.slot].None?
    requires forall j :: 0 <= j < a.chunk ==> RangeFull(t[j], hash(key) % size)
    ensures Inv(t[a.chunk := t[a.chunk][a.slot := Some(Element(key, v))]], contents[key := v], pos[key := a], hash, size)
  {
    var e := Element(key, v);
    var t2: Table<K, V> := t[a.chunk := t[a.chunk][a.slot := Some(e)]];
    var home := hash(key) % size;
    StoreGrows(t, a.chunk, a.slot, e);
    StoreAbstracts(t, contents, pos, a, e);
    PlacedGrows(t, t2, pos, hash, size);
    assert RowGrows(t[a.chunk], t2[a.chunk]);
    forall j | 0 <= j < a.chunk
      ensures RangeFull(t2[j], home)
    {
      assert RowGrows(t[j], t2[j]);
    }
  }

  /** An absent key whose ranges are full in every chunk, stored at its home
      slot of a fresh chunk appended to the chain, keeps the invariant. */
  lemma InsertAppend<K, V>(t: Table<K, V>, contents: map<K, V>, pos: map<K, Addr>, hash: K -> nat, size: nat, key: K, v: V)
    requires Inv(t, contents, pos, hash, size) && key !in contents
    requires forall j :: 0 <= j < |t| ==> RangeFull(t[j], hash(key) % size)
    ensures var home := hash(key) % size;
      Inv(t + [EmptyRow(size)[home := Some(Element(key, v))]], contents[key := v], pos[key := Addr(|t|, home)], hash, size)
  {
    var home, e := hash(key) % size, Element(key, v);
    var r := EmptyRow(size)[home := Some(e)];
    var t2 := t + [r];
    AppendStoreAbstracts(t, contents, pos, size, home, e);
    AppendGrows(t, r);
    PlacedGrows(t, t2, pos, hash, size);
    forall j | 0 <= j < |t|
      ensures RangeFull(t2[j], home)
    {
      assert t2[j] == t[j];
    }
  }

  /** Insertion of an absent key where its lookup leads keeps the invariant:
      in the free slot where the lookup stopped, or, when it asked for a new
      chunk, in the home slot of an empty chunk appended to the chain. */
  lemma InsertAbsent<K, V>(t: Table<K, V>, contents: map<K, V>, pos: map<K, Addr>, hash: K -> nat, size: nat, key: K, v: V)
    requires Inv(t, contents, pos, hash, size) && key !in contents
    ensures var s, home, e := Lookup(t, key, hash, size), hash(key) % size, Some(Element(key, v));
      if s.mustAlloc then
        && (t + [EmptyRow(size)])[|t| := (t + [EmptyRow(size)])[|t|][home := e]] == t + [EmptyRow(size)[home := e]]
        && Inv(t + [EmptyRow(size)[home := e]], contents[key := v], pos[key := Addr(|t|, home)], hash, size)
      else
        && t[s.chunk][s.slot].None?
        && Inv(t[s.chunk := t[s.chunk][s.slot := e]], contents[key := v], pos[key := Addr(s.chunk, s.slot)], hash, size)
  {
    var s := Lookup(t, key, hash, size);
    LookupCorrect(t, contents, pos, hash, size, key);
    if s.mustAlloc {
      AllocFull(t, key, hash, size);
      InsertAppend(t, contents, pos, hash, size, key, v);
      AppendThenStore(t, EmptyRow(size), hash(key) % size, Some(Element(key, v)));
    } else {
      WalkRanges(t, key, hash(key) % size, 0, size);
      InsertVacant(t, contents, pos, hash, size, key, v, Addr(s.chunk, s.slot));
    }
  }

  /** A map with one empty chunk and no element satisfies the invariant. */
  lemma EmptyInv<K, V>(hash: K -> nat, size: nat)
    requires size > 0
    ensures Inv([EmptyRow<K, V>(size)], map[], map[], hash, size)
  {
  }

  // ---------------------------------------------------------------------------
  // The false positive of the membership test as written

  /** With the default Bucket of 16 and the integral hash, a map holding only
      key 15 (in slot 15 of its single chunk) answers the lookup of key 31
      with that slot and the must-allocate flag: the slot is occupied, so the
      membership test as written reports 31 present, and the value lookup as
      written returns the value of key 15. */
  lemma TailFalsePositive(v: int)
    ensures var t := [EmptyRow<int, int>(16)[15 := Some(Element(15, v))]];
      && Inv(t, map[15 := v], map[15 := Addr(0, 15)], IntegralHash, 16)
      && Lookup(t, 31, IntegralHash, 16) == Stop(0, 15, true)
      && t[0][15] == Some(Element(15, v))
      && 31 !in map[15 := v]
  {
    assert IntegralHash(31) % 16 == 15;
  }
}
