/** The usage scenarios of the repository's tests (tests/test.cpp for the
    current engine, test.cpp for the legacy one), with the checks they make
    stated as postconditions, and the legacy false positive shown on a map
    object.  Each test is split into its phases, one method per phase. */
module Scenarios {
  import opened Slots
  import opened Hashing
  import IM = IncrementalMap
  import IS = IncrementalSet
  import LM = LegacyMap
  import LS = LegacySet
  import LP = LegacyProbing

  /** Default slots per chunk of the current map (its BucketSize parameter). */
  const DefaultBucketSize: nat := 32
  /** Default slots per chunk of the current set and of both legacy
      containers (their Bucket parameter). */
  const DefaultBucket: nat := 16

  /** Number of keys test2 inserts. */
  const NumStep: nat := 324

  /** The keys test_set inserts, with repetitions. */
  const SetValues: seq<int> := [4, 33, 11, 1, 11, 11, 22, 3, 15, 45, 102, 939, 23, 56, 2, 46, 412, 23429342, 32424, 293]

  /** The map test2 builds: key i with value 4 * i, for i below n. */
  ghost function Quadruples(n: nat): map<int, int>
  {
    map i | 0 <= i < n :: i * 4
  }

  lemma QuadruplesStep(n: nat)
    ensures Quadruples(n)[n := n * 4] == Quadruples(n + 1)
  {
  }

  lemma QuadruplesAt(n: nat, i: nat)
    requires i < n
    ensures i in Quadruples(n) && Quadruples(n)[i] == i * 4
  {
  }

  /** The distinct values among the first n of the list. */
  ghost function Prefix(n: nat): set<int>
    requires n <= |SetValues|
  {
    set j | 0 <= j < n :: SetValues[j]
  }

  lemma PrefixStep(n: nat)
    requires n < |SetValues|
    ensures Prefix(n) + {SetValues[n]} == Prefix(n + 1)
  {
  }

  lemma PrefixHas(i: nat)
    requires i < |SetValues|
    ensures SetValues[i] in Prefix(|SetValues|)
  {
  }

  // ---------------------------------------------------------------------------
  // tests/test.cpp, against the current engine

  /** contains and find on a stored key: present, with its value. */
  method Query(m: IM.HashMap<int, int>, key: int) returns (has: bool, at: Option<int>)
    requires m.Valid() && key in m.Contents
    ensures has && at == Some(m.Contents[key])
  {
    has := m.Contains(key);
    at := m.Find(key);
  }

  /** test1, first phase: after emplace(4, 5), key 4 is present with value 5. */
  method Test1First(m: IM.HashMap<int, int>) returns (has4: bool, at4: Option<int>)
    requires m.Valid() && m.Contents == map[]
    modifies m.Repr
    ensures m.Valid() && fresh(m.Repr - old(m.Repr)) && m.Contents == map[4 := 5]
    ensures has4 && at4 == Some(5)
  {
    var c, idx, inserted := m.Emplace(4, 5);
    has4, at4 := Query(m, 4);
  }

  /** test1, second phase: emplace(20, 8). */
  method Test1Add(m: IM.HashMap<int, int>)
    requires m.Valid() && m.Contents == map[4 := 5]
    modifies m.Repr
    ensures m.Valid() && m.Contents == map[4 := 5, 20 := 8]
  {
    var c, idx, inserted := m.Emplace(20, 8);
  }

  /** test1, third phase: both keys are present with their values. */
  method Test1Check(m: IM.HashMap<int, int>) returns (has4and20: bool, at4: Option<int>, at20: Option<int>)
    requires m.Valid() && m.Contents == map[4 := 5, 20 := 8]
    ensures has4and20 && at4 == Some(5) && at20 == Some(8)
  {
    var has4, has20;
    has4, at4 := Query(m, 4);
    has20, at20 := Query(m, 20);
    has4and20 := has4 && has20;
  }

  method Test1() returns (has4: bool, at4: Option<int>, has4and20: bool, again4: Option<int>, at20: Option<int>)
    ensures has4 && at4 == Some(5)
    ensures has4and20 && again4 == Some(5) && at20 == Some(8)
  {
    var m := new IM.HashMap<int, int>(IntegralHash, DefaultBucketSize);
    has4, at4 := Test1First(m);
    Test1Add(m);
    has4and20, again4, at20 := Test1Check(m);
  }

  /** test2, first phase: emplace (i, 4 * i) for i from 0 to 323. */
  method Test2Fill(m: IM.HashMap<int, int>)
    requires m.Valid() && m.Contents == map[]
    modifies m.Repr
    ensures m.Valid() && m.Contents == Quadruples(NumStep)
  {
    for i := 0 to NumStep
      invariant m.Valid() && fresh(m.Repr - old(m.Repr))
      invariant m.Contents == Quadruples(i)
    {
      var c, idx, inserted := m.Emplace(i, i * 4);
      QuadruplesStep(i);
    }
  }

  /** find(i) on the map test2 builds: the value 4 * i. */
  method FindQuadruple(m: IM.HashMap<int, int>, i: nat) returns (r: Option<int>)
    requires m.Valid() && m.Contents == Quadruples(NumStep) && i < NumStep
    ensures r == Some(i * 4)
  {
    QuadruplesAt(NumStep, i);
    r := m.Find(i);
  }

  /** test2, second phase: every key i is found with value 4 * i. */
  method Test2Find(m: IM.HashMap<int, int>) returns (found: seq<Option<int>>)
    requires m.Valid() && m.Contents == Quadruples(NumStep)
    ensures |found| == NumStep && forall i :: 0 <= i < NumStep ==> found[i] == Some(i * 4)
  {
    found := [];
    for i := 0 to NumStep
      invariant |found| == i && forall j :: 0 <= j < i ==> found[j] == Some(j * 4)
    {
      var r := FindQuadruple(m, i);
      found := found + [r];
    }
  }

  method Test2() returns (found: seq<Option<int>>)
    ensures |found| == NumStep && forall i :: 0 <= i < NumStep ==> found[i] == Some(i * 4)
  {
    var m := new IM.HashMap<int, int>(IntegralHash, DefaultBucketSize);
    Test2Fill(m);
    found := Test2Find(m);
  }

  /** test_set, first phase: emplace every value of the list. */
  method TestSetFill(s: IS.HashSet<int>)
    requires s.Valid() && s.Elements() == {}
    modifies s.base.Repr
    ensures s.Valid() && s.Elements() == Prefix(|SetValues|)
  {
    for i := 0 to |SetValues|
      invariant s.Valid() && fresh(s.base.Repr - old(s.base.Repr))
      invariant s.Elements() == Prefix(i)
    {
      var c, idx, inserted := s.Emplace(SetValues[i]);
      PrefixStep(i);
    }
  }

  /** test_set, second phase: every value of the list is a member. */
  method TestSetCheck(s: IS.HashSet<int>) returns (present: seq<bool>)
    requires s.Valid() && s.Elements() == Prefix(|SetValues|)
    ensures |present| == |SetValues| && forall i :: 0 <= i < |SetValues| ==> present[i]
  {
    present := [];
    for i := 0 to |SetValues|
      invariant |present| == i && forall j :: 0 <= j < i ==> present[j]
    {
      PrefixHas(i);
      var b := s.Contains(SetValues[i]);
      present := present + [b];
    }
  }

  method TestSet() returns (present: seq<bool>)
    ensures |present| == |SetValues| && forall i :: 0 <= i < |SetValues| ==> present[i]
  {
    var s := new IS.HashSet<int>(IntegralHash, DefaultBucket);
    TestSetFill(s);
    present := TestSetCheck(s);
  }

  // ---------------------------------------------------------------------------
  // test.cpp, against the legacy engine: the lookups as written answer
  // correctly for stored keys, which is all these tests ask

  /** contains and find on a stored key: present, with its value. */
  method LegacyQuery(m: LM.HashMap<int, int>, key: int) returns (has: bool, at: Option<int>)
    requires m.Valid() && key in m.Contents
    ensures has && at == Some(m.Contents[key])
  {
    has := m.Contains(key);
    at := m.Find(key);
  }

  /** test1, first phase: after insert(4, 5), key 4 is present with value 5. */
  method LegacyTest1First(m: LM.HashMap<int, int>) returns (has4: bool, at4: Option<int>)
    requires m.Valid() && m.Contents == map[]
    modifies m.Repr
    ensures m.Valid() && fresh(m.Repr - old(m.Repr)) && m.Contents == map[4 := 5]
    ensures has4 && at4 == Some(5)
  {
    var c, idx, inserted := m.Insert(4, 5);
    has4, at4 := LegacyQuery(m, 4);
  }

  /** test1, second phase: insert(20, 8). */
  method LegacyTest1Add(m: LM.HashMap<int, int>)
    requires m.Valid() && m.Contents == map[4 := 5]
    modifies m.Repr
    ensures m.Valid() && m.Contents == map[4 := 5, 20 := 8]
  {
    var c, idx, inserted := m.Insert(20, 8);
  }

  /** test1, third phase: both keys are present with their values. */
  method LegacyTest1Check(m: LM.HashMap<int, int>) returns (has4and20: bool, at4: Option<int>, at20: Option<int>)
    requires m.Valid() && m.Contents == map[4 := 5, 20 := 8]
    ensures has4and20 && at4 == Some(5) && at20 == Some(8)
  {
    var has4, has20;
    has4, at4 := LegacyQuery(m, 4);
    has20, at20 := LegacyQuery(m, 20);
    has4and20 := has4 && has20;
  }

  method LegacyTest1() returns (has4: bool, at4: Option<int>, has4and20: bool, again4: Option<int>, at20: Option<int>)
    ensures has4 && at4 == Some(5)
    ensures has4and20 && again4 == Some(5) && at20 == Some(8)
  {
    var m := new LM.HashMap<int, int>(IntegralHash, DefaultBucket);
    has4, at4 := LegacyTest1First(m);
    LegacyTest1Add(m);
    has4and20, again4, at20 := LegacyTest1Check(m);
  }

  method LegacyTest2Fill(m: LM.HashMap<int, int>)
    requires m.Valid() && m.Contents == map[]
    modifies m.Repr
    ensures m.Valid() && m.Contents == Quadruples(NumStep)
  {
    for i := 0 to NumStep
      invariant m.Valid() && fresh(m.Repr - old(m.Repr))
      invariant m.Contents == Quadruples(i)
    {
      var c, idx, inserted := m.Insert(i, i * 4);
      QuadruplesStep(i);
    }
  }

  /** find(i) on the map test2 builds: the value 4 * i. */
  method LegacyFindQuadruple(m: LM.HashMap<int, int>, i: nat) returns (r: Option<int>)
    requires m.Valid() && m.Contents == Quadruples(NumStep) && i < NumStep
    ensures r == Some(i * 4)
  {
    QuadruplesAt(NumStep, i);
    r := m.Find(i);
  }

  method LegacyTest2Find(m: LM.HashMap<int, int>) returns (found: seq<Option<int>>)
    requires m.Valid() && m.Contents == Quadruples(NumStep)
    ensures |found| == NumStep && forall i :: 0 <= i < NumStep ==> found[i] == Some(i * 4)
  {
    found := [];
    for i := 0 to NumStep
      invariant |found| == i && forall j :: 0 <= j < i ==> found[j] == Some(j * 4)
    {
      var r := LegacyFindQuadruple(m, i);
      found := found + [r];
    }
  }

  method LegacyTest2() returns (found: seq<Option<int>>)
    ensures |found| == NumStep && forall i :: 0 <= i < NumStep ==> found[i] == Some(i * 4)
  {
    var m := new LM.HashMap<int, int>(IntegralHash, DefaultBucket);
    LegacyTest2Fill(m);
    found := LegacyTest2Find(m);
  }

  method LegacyTestSetFill(s: LS.HashSet<int>)
    requires s.Valid() && s.Elements() == {}
    modifies s.base.Repr
    ensures s.Valid() && s.Elements() == Prefix(|SetValues|)
  {
    for i := 0 to |SetValues|
      invariant s.Valid() && fresh(s.base.Repr - old(s.base.Repr))
      invariant s.Elements() == Prefix(i)
    {
      var inserted := s.Insert(SetValues[i]);
      PrefixStep(i);
    }
  }

  method LegacyTestSetCheck(s: LS.HashSet<int>) returns (present: seq<bool>)
    requires s.Valid() && s.Elements() == Prefix(|SetValues|)
    ensures |present| == |SetValues| && forall i :: 0 <= i < |SetValues| ==> present[i]
  {
    present := [];
    for i := 0 to |SetValues|
      invariant |present| == i && forall j :: 0 <= j < i ==> present[j]
    {
      PrefixHas(i);
      var b := s.Contains(SetValues[i]);
      present := present + [b];
    }
  }

  method LegacyTestSet() returns (present: seq<bool>)
    ensures |present| == |SetValues| && forall i :: 0 <= i < |SetValues| ==> present[i]
  {
    var s := new LS.HashSet<int>(IntegralHash, DefaultBucket);
    LegacyTestSetFill(s);
    present := LegacyTestSetCheck(s);
  }

  // ---------------------------------------------------------------------------
  // The legacy false positive, on a map object

  /** A legacy map with the default Bucket of 16 holding only key 15, which
      sits in slot 15 of its single chunk. */
  method FifteenOnly() returns (m: LM.HashMap<int, int>)
    ensures m.Valid() && m.hash == IntegralHash && m.bucketSize == DefaultBucket
    ensures m.Contents == map[15 := 7] && m.Rows == [EmptyRow<int, int>(16)[15 := Some(Element(15, 7))]]
  {
    m := new LM.HashMap<int, int>(IntegralHash, DefaultBucket);
    var c, idx, inserted := m.Insert(15, 7);
    LP.TailFalsePositive(7);
  }

  /** contains(31) and find(31) as written on that map: a hit, with the
      value of key 15. */
  method AsWrittenOn31(m: LM.HashMap<int, int>) returns (has31: bool, at31: Option<int>)
    requires m.Valid() && m.hash == IntegralHash && m.bucketSize == DefaultBucket
    requires m.Contents == map[15 := 7] && m.Rows == [EmptyRow<int, int>(16)[15 := Some(Element(15, 7))]]
    ensures has31 && at31 == Some(7)
  {
    LP.TailFalsePositive(7);
    has31 := m.Contains(31);
    at31 := m.Find(31);
  }

  /** The corrected lookups of 31 on that map: a miss. */
  method FixedOn31(m: LM.HashMap<int, int>) returns (has31: bool, at31: Option<int>)
    requires m.Valid() && m.Contents == map[15 := 7]
    ensures !has31 && at31 == None
  {
    has31 := m.ContainsFixed(31);
    at31 := m.FindFixed(31);
  }

  /** After insert(15, 7), contains(31) as written answers true and find(31)
      as written answers 7, the value of key 15; the corrected lookups answer
      false and nothing. */
  method LegacyFalsePositive() returns (has31: bool, at31: Option<int>, fixedHas31: bool, fixedAt31: Option<int>)
    ensures has31 && at31 == Some(7)
    ensures !fixedHas31 && fixedAt31 == None
  {
    var m := FifteenOnly();
    has31, at31 := AsWrittenOn31(m);
    fixedHas31, fixedAt31 := FixedOn31(m);
  }
}
