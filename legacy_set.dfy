/** The set of the legacy engine, incremental_hashset.hpp: a legacy map from
    keys to the empty value.  Its membership test is the map's as written
    (Contains), which also reports some absent keys; ContainsFixed is the
    same test over the corrected map lookup. */
module LegacySet {
  import opened Slots
  import opened LegacyProbing
  import opened LegacyMap

  class HashSet<K(==)> {
    /** The underlying map (the private base class). */
    const base: HashMap<K, Empty>

    /** The keys of the set. */
    ghost function Elements(): set<K>
      reads this, base
    {
      base.Contents.Keys
    }

    ghost predicate Valid()
      reads this, base, base.Repr
    {
      base.Valid()
    }

    /** An empty set. */
    constructor (hash: K -> nat, bucketSize: nat)
      requires bucketSize > 0
      ensures Valid() && fresh(base) && fresh(base.Repr) && Elements() == {}
    {
      base := new HashMap(hash, bucketSize);
    }

    /** Adds key unless present; tells whether it was added. */
    method Insert(key: K) returns (inserted: bool)
      requires Valid()
      modifies base.Repr
      ensures Valid() && fresh(base.Repr - old(base.Repr))
      ensures inserted <==> key !in old(Elements())
      ensures Elements() == old(Elements()) + {key}
      ensures !inserted ==> base.Rows == old(base.Rows) && base.Chunks == old(base.Chunks) && base.Pos == old(base.Pos)
      ensures inserted ==>
        var s, home, e := Lookup(old(base.Rows), key, base.hash, base.bucketSize), base.hash(key) % base.bucketSize, Some(Element(key, Empty));
        if s.mustAlloc then
          && |base.Chunks| == |old(base.Chunks)| + 1 && base.Pos == old(base.Pos)[key := Addr(|old(base.Rows)|, home)]
          && base.Rows == old(base.Rows) + [EmptyRow(base.bucketSize)[home := e]]
        else
          && base.Chunks == old(base.Chunks) && base.Pos == old(base.Pos)[key := Addr(s.chunk, s.slot)]
          && base.Rows == old(base.Rows)[s.chunk := old(base.Rows)[s.chunk][s.slot := e]]
      ensures Extends(old(base.Pos), base.Pos) && old(base.Chunks) <= base.Chunks
    {
      ghost var t, contents, pos, chunks := base.Rows, base.Contents, base.Pos, base.Chunks;
      assert Abstracts(t, contents, pos);
      var c, idx;
      c, idx, inserted := base.Insert(key, Empty);
      KeysUpdate(contents, key);
      if inserted {
        AddressesKept(pos, base.Pos, key);
      }
    }

    /** The inherited membership test, as written: besides the keys of the
        set it reports a key whose probe range is full in the last chunk. */
    method Contains(key: K) returns (b: bool)
      requires Valid()
      ensures b <==> key in Elements() || Lookup(base.Rows, key, base.hash, base.bucketSize).mustAlloc
    {
      b := base.Contains(key);
    }

    /** The membership test with the corrected map lookup: exactly the keys
        of the set. */
    method ContainsFixed(key: K) returns (b: bool)
      requires Valid()
      ensures b <==> key in Elements()
    {
      b := base.ContainsFixed(key);
    }

    /** The key at a position of the walk (the set iterator's dereference). */
    function KeyAt(it: Iterator<K, Empty>): (k: K)
      reads this, base, base.Repr, it
      requires Valid() && it.Into(base) && it.c != null && base.Rows[it.ci][it.idx].Some?
      ensures k in Elements() && base.Pos[k] == Addr(it.ci, it.idx)
    {
      it.Deref(base).key
    }

    /** The first position of the walk over the keys. */
    method Begin() returns (it: Iterator<K, Empty>)
      requires Valid()
      ensures fresh(it) && it.Into(base)
      ensures var r := Occupants(base.Rows, 0, 0);
        if r == [] then it.c == null && it.idx == 0 else it.ci == r[0].chunk && it.idx == r[0].slot
    {
      it := base.Begin();
    }

    /** The end position of the walk over the keys: (null, 0). */
    method End() returns (it: Iterator<K, Empty>)
      requires Valid()
      ensures fresh(it) && it.Into(base) && it.c == null && it.idx == 0
    {
      it := base.End();
    }
  }
}
