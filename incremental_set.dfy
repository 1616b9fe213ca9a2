/** The set of the current engine, swl/incremental_hashset.hpp: a map from
    keys to the empty value, whose operations forward to the map's and give
    back the stored key instead of the stored element. */
module IncrementalSet {
  import opened Slots
  import opened Probing
  import opened IncrementalMap

  /** Writing the empty value over a present key's element rewrites the
      element that is already there. */
  lemma EmptyOverwrite<K>(t: Table<K, Empty>, contents: map<K, Empty>, pos: map<K, Addr>, key: K, t2: Table<K, Empty>)
    requires Abstracts(t, contents, pos) && key in contents
    requires var a := pos[key];
      a.chunk < |t| && a.slot < |t[a.chunk]| &&
      t2 == t[a.chunk := t[a.chunk][a.slot := Some(Element(key, Empty))]]
    ensures t2 == t
  {
    assert contents[key] == Empty;
    RestoreSame(t, contents, pos, key);
  }

  class HashSet<K(==)> {
    /** The underlying map (the private base class). */
    const base: HashMap<K, Empty>

    /** The keys of the set. */
    ghost function Elements(): set<K>
      reads this, base
    {
      base.Contents.Keys
    }

    ghost predicate Valid()
      reads this, base, base.Repr
    {
      base.Valid()
    }

    /** An empty set (the inherited constructor). */
    constructor (hash: K -> nat, bucketSize: nat)
      requires bucketSize > 0
      ensures Valid() && fresh(base) && fresh(base.Repr) && Elements() == {}
    {
      base := new HashMap(hash, bucketSize);
    }

    /** Adds key unless present, and gives the address of the stored key.
        The empty value written over a present key's value is the one
        already there, so a present key leaves the chain as it was. */
    method Emplace(key: K) returns (c: Chunk<K, Empty>, idx: nat, inserted: bool)
      requires Valid()
      modifies base.Repr
      ensures Valid() && fresh(base.Repr - old(base.Repr))
      ensures inserted <==> key !in old(Elements())
      ensures Elements() == old(Elements()) + {key}
      ensures !inserted ==> base.Rows == old(base.Rows) && base.Chunks == old(base.Chunks) && base.Pos == old(base.Pos)
      ensures inserted ==>
        var l, home, e := Locate(old(base.Rows), key, base.hash, base.bucketSize), base.hash(key) % base.bucketSize, Some(Element(key, Empty));
        if l.exhausted then
          && base.Chunks == old(base.Chunks) + [c] && base.Pos == old(base.Pos)[key := Addr(|old(base.Rows)|, home)]
          && base.Rows == old(base.Rows) + [EmptyRow(base.bucketSize)[home := e]]
        else
          && base.Chunks == old(base.Chunks) && base.Pos == old(base.Pos)[key := Addr(l.chunk, l.slot)]
          && base.Rows == old(base.Rows)[l.chunk := old(base.Rows)[l.chunk][l.slot := e]]
      ensures Extends(old(base.Pos), base.Pos) && old(base.Chunks) <= base.Chunks
      ensures key in base.Pos && base.Pos[key].chunk < |base.Chunks|
      ensures c == base.Chunks[base.Pos[key].chunk] && idx == base.Pos[key].slot
    {
      ghost var t, contents, pos, chunks := base.Rows, base.Contents, base.Pos, base.Chunks;
      assert Abstracts(t, contents, pos);
      c, idx, inserted := base.Emplace(key, Empty);
      KeysUpdate(contents, key);
      if !inserted {
        EmptyOverwrite(t, contents, pos, key, base.Rows);
      } else {
        AddressesKept(pos, base.Pos, key);
      }
    }

    /** Adds key unless present, and gives the address of the stored key. */
    method TryEmplace(key: K) returns (c: Chunk<K, Empty>, idx: nat, inserted: bool)
      requires Valid()
      modifies base.Repr
      ensures Valid() && fresh(base.Repr - old(base.Repr))
      ensures inserted <==> key !in old(Elements())
      ensures Elements() == old(Elements()) + {key}
      ensures !inserted ==> base.Rows == old(base.Rows) && base.Chunks == old(base.Chunks) && base.Pos == old(base.Pos)
      ensures inserted ==>
        var l, home, e := Locate(old(base.Rows), key, base.hash, base.bucketSize), base.hash(key) % base.bucketSize, Some(Element(key, Empty));
        if l.exhausted then
          && base.Chunks == old(base.Chunks) + [c] && base.Pos == old(base.Pos)[key := Addr(|old(base.Rows)|, home)]
          && base.Rows == old(base.Rows) + [EmptyRow(base.bucketSize)[home := e]]
        else
          && base.Chunks == old(base.Chunks) && base.Pos == old(base.Pos)[key := Addr(l.chunk, l.slot)]
          && base.Rows == old(base.Rows)[l.chunk := old(base.Rows)[l.chunk][l.slot := e]]
      ensures Extends(old(base.Pos), base.Pos) && old(base.Chunks) <= base.Chunks
      ensures key in base.Pos && base.Pos[key].chunk < |base.Chunks|
      ensures c == base.Chunks[base.Pos[key].chunk] && idx == base.Pos[key].slot
    {
      ghost var t, contents, pos, chunks := base.Rows, base.Contents, base.Pos, base.Chunks;
      assert Abstracts(t, contents, pos);
      c, idx, inserted := base.TryEmplace(key, Empty);
      KeysUpdate(contents, key);
      if inserted {
        AddressesKept(pos, base.Pos, key);
      }
    }

    method Contains(key: K) returns (b: bool)
      requires Valid()
      ensures b <==> key in Elements()
    {
      b := base.Contains(key);
    }

    /** The key at a position of the walk (the set iterator's dereference). */
    function KeyAt(it: Iterator<K, Empty>): (k: K)
      reads this, base, base.Repr, it
      requires Valid() && it.Into(base) && it.c != null && base.Rows[it.ci][it.idx].Some?
      ensures k in Elements() && base.Pos[k] == Addr(it.ci, it.idx)
    {
      it.Deref(base).key
    }

    /** The first position of the walk over the keys. */
    method Begin() returns (it: Iterator<K, Empty>)
      requires Valid()
      ensures fresh(it) && it.Into(base)
      ensures var r := Occupants(base.Rows, 0, 0);
        if r == [] then it.c == null else it.ci == r[0].chunk && it.idx == r[0].slot
    {
      it := base.Begin();
    }

    /** The end position of the walk over the keys. */
    method End() returns (it: Iterator<K, Empty>)
      requires Valid()
      ensures fresh(it) && it.Into(base) && it.c == null
    {
      it := base.End();
    }
  }
}
