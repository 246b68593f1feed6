/** One set of the cache as a value: the per-set bookkeeping (`addAge`,
    `isFull`, `Insert`, `getOldest`) and the effect of one read or write on
    the set, stated as functions. The imperative methods of the cache are
    proved against these. */
module CacheSet {
  import opened CacheLine

  datatype Option<T> = None | Some(value: T)

  /** `Access::addAge`, applied by `addAge` to valid slots only. */
  function AgeLine(a: Access): Access {
    if a.valid then a.(age := a.age + 1) else a
  }

  /** The set after `addAge`: each valid slot one access older, nothing else changed. */
  function Aged(s: seq<Access>): (r: seq<Access>)
    ensures |r| == |s|
    ensures forall i | 0 <= i < |s| ::
      r[i] == s[i].(age := r[i].age) && r[i].age == if s[i].valid then s[i].age + 1 else s[i].age
  {
    if s == [] then [] else Aged(s[..|s| - 1]) + [AgeLine(s[|s| - 1])]
  }

  /** The hit test of `Read` and `Write`. */
  predicate Matches(a: Access, tag: nat) {
    a.valid && a.tag == tag
  }

  /** The slot a hit stops at: the lowest valid slot holding `tag`. */
  function FindLine(s: seq<Access>, tag: nat): (r: Option<nat>)
    ensures r.None? <==> forall i | 0 <= i < |s| :: !Matches(s[i], tag)
    ensures r.Some? ==>
      r.value < |s| && Matches(s[r.value], tag) &&
      forall i | 0 <= i < r.value :: !Matches(s[i], tag)
  {
    if s == [] then None
    else if Matches(s[0], tag) then Some(0)
    else match FindLine(s[1..], tag)
      case None => None
      case Some(j) => Some(j + 1)
  }

  predicate HasTag(s: seq<Access>, tag: nat) {
    exists i | 0 <= i < |s| :: Matches(s[i], tag)
  }

  /** `isFull`: every slot valid. */
  predicate Full(s: seq<Access>) {
    forall i | 0 <= i < |s| :: s[i].valid
  }

  /** Where `Insert` writes: the lowest invalid slot, if there is one. */
  function FirstFree(s: seq<Access>): (r: Option<nat>)
    ensures r.None? <==> Full(s)
    ensures r.Some? ==>
      r.value < |s| && !s[r.value].valid &&
      forall i | 0 <= i < r.value :: s[i].valid
  {
    if s == [] then None
    else if !s[0].valid then Some(0)
    else match FirstFree(s[1..])
      case None => None
      case Some(j) => Some(j + 1)
  }

  /** The set after `Insert(t, a)`, and whether it succeeded. */
  function Inserted(s: seq<Access>, a: Access): (r: (bool, seq<Access>))
    ensures r.0 <==> !Full(s)
    ensures |r.1| == |s|
    ensures r.0 ==> exists j | 0 <= j < |s| ::
      !s[j].valid && (forall i | 0 <= i < j :: s[i].valid) && r.1 == s[j := a]
    ensures !r.0 ==> r.1 == s
  {
    match FirstFree(s)
    case None => (false, s)
    case Some(j) => (true, s[j := a])
  }

  /** What `getOldest` returns: a valid slot of the greatest age, lowest
      index first among equals. Its age is positive, as the scan starts
      from age 0 and only a strictly greater age is taken. */
  predicate IsOldest(s: seq<Access>, j: nat) {
    j < |s| && s[j].valid && s[j].age > 0 &&
    (forall i | 0 <= i < |s| :: s[i].valid ==> s[i].age <= s[j].age) &&
    (forall i | 0 <= i < j :: s[i].valid ==> s[i].age < s[j].age)
  }

  /** `getOldest` is defined exactly when some valid slot has a positive age. */
  predicate HasAgedLine(s: seq<Access>) {
    exists i | 0 <= i < |s| :: s[i].valid && s[i].age > 0
  }

  lemma OldestIsUnique(s: seq<Access>, j: nat, k: nat)
    requires IsOldest(s, j) && IsOldest(s, k)
    ensures j == k
  {
  }

  function MaxValidAge(s: seq<Access>): (m: nat)
    ensures forall i | 0 <= i < |s| :: s[i].valid ==> s[i].age <= m
    ensures m == 0 || exists i | 0 <= i < |s| :: s[i].valid && s[i].age == m
  {
    if s == [] then 0
    else
      var m := MaxValidAge(s[..|s| - 1]);
      var last := s[|s| - 1];
      if last.valid && last.age > m then last.age else m
  }

  function FirstValidOfAge(s: seq<Access>, m: nat): (j: nat)
    requires exists i | 0 <= i < |s| :: s[i].valid && s[i].age == m
    ensures j < |s| && s[j].valid && s[j].age == m
    ensures forall i | 0 <= i < j :: !(s[i].valid && s[i].age == m)
  {
    if s[0].valid && s[0].age == m then 0
    else
      assert exists i | 0 <= i < |s[1..]| :: s[1..][i].valid && s[1..][i].age == m by {
        var i :| 0 <= i < |s| && s[i].valid && s[i].age == m;
        assert s[1..][i - 1] == s[i];
      }
      1 + FirstValidOfAge(s[1..], m)
  }

  /** The slot `getOldest` returns, as a function of the set. */
  function OldestSlot(s: seq<Access>): (j: nat)
    requires HasAgedLine(s)
    ensures IsOldest(s, j)
  {
    var m := MaxValidAge(s);
    FirstValidOfAge(s, m)
  }

  /** The slot a miss fills, or None on a hit. The set is aged first, so on
      a full non-empty set every age is positive and `getOldest` is defined. */
  function Placement(s: seq<Access>, tag: nat): (r: Option<nat>)
    requires |s| >= 1
    ensures r.None? <==> HasTag(s, tag)
    ensures r.Some? ==> r.value < |s|
  {
    var a := Aged(s);
    if FindLine(a, tag).Some? then None
    else if Full(a) then
      assert a[0].valid && a[0].age > 0;
      Some(OldestSlot(a))
    else Some(FirstFree(a).value)
  }

  /** One `Read` (write = false) or `Write` (write = true) of record x on
      set s: age the set; on a hit mark the hit slot dirty if writing; on a
      miss store x, made valid, in the first free slot or over the oldest. */
  function AccessSet(s: seq<Access>, x: Access, write: bool): (r: seq<Access>)
    requires |s| >= 1
    ensures |r| == |s|
  {
    var a := Aged(s);
    match Placement(s, x.tag)
    case None =>
      var j := FindLine(a, x.tag).value;
      if write then a[j := a[j].(dirty := true)] else a
    case Some(j) => a[j := x.(valid := true)]
  }

  /** Aging changes no tag and no validity, so no lookup. */
  lemma AgedKeepsLookups(s: seq<Access>, tag: nat)
    ensures FindLine(Aged(s), tag) == FindLine(s, tag)
    ensures HasTag(Aged(s), tag) == HasTag(s, tag)
    ensures Full(Aged(s)) == Full(s)
    ensures FirstFree(Aged(s)) == FirstFree(s)
  {
    AgedKeepsMatches(s, tag);
    AgedKeepsFree(s);
  }

  lemma AgedKeepsMatches(s: seq<Access>, tag: nat)
    ensures FindLine(Aged(s), tag) == FindLine(s, tag)
    ensures HasTag(Aged(s), tag) == HasTag(s, tag)
  {
    var a := Aged(s);
    assert forall i | 0 <= i < |s| :: Matches(a[i], tag) == Matches(s[i], tag);
    var f, g := FindLine(a, tag), FindLine(s, tag);
    if f.Some? && g.Some? {
      assert !(f.value < g.value) && !(g.value < f.value);
    }
  }

  lemma AgedKeepsFree(s: seq<Access>)
    ensures Full(Aged(s)) == Full(s)
    ensures FirstFree(Aged(s)) == FirstFree(s)
  {
    var a := Aged(s);
    assert forall i | 0 <= i < |s| :: a[i].valid == s[i].valid;
    var p, q := FirstFree(a), FirstFree(s);
    if p.Some? && q.Some? {
      assert !(p.value < q.value) && !(q.value < p.value);
    }
  }

  lemma AgedIsAgeLine(s: seq<Access>)
    ensures forall i | 0 <= i < |s| :: Aged(s)[i] == AgeLine(s[i])
  {
  }

  lemma HitAccess(s: seq<Access>, x: Access, write: bool, j: nat)
    requires |s| >= 1 && FindLine(s, x.tag) == Some(j)
    ensures AccessSet(s, x, write) ==
      if write then Aged(s)[j := Aged(s)[j].(dirty := true)] else Aged(s)
  {
    AgedKeepsMatches(s, x.tag);
  }

  lemma MissAccess(s: seq<Access>, x: Access, write: bool)
    requires |s| >= 1 && !HasTag(s, x.tag)
    ensures Placement(s, x.tag).Some?
    ensures var j := Placement(s, x.tag).value;
      AccessSet(s, x, write) == Aged(s)[j := x.(valid := true)] &&
      if Full(s) then IsOldest(Aged(s), j) else Some(j) == FirstFree(s)
  {
    AgedKeepsLookups(s, x.tag);
  }

  /** A hit: the set is only aged, and a write also dirties the lowest
      matching slot (`Read` and `Write` hits at Cache.cpp). */
  lemma HitEffect(s: seq<Access>, x: Access, write: bool)
    requires |s| >= 1 && HasTag(s, x.tag)
    ensures var r, j := AccessSet(s, x, write), FindLine(s, x.tag).value;
      (forall i | 0 <= i < |s| && i != j :: r[i] == AgeLine(s[i])) &&
      r[j] == (if write then AgeLine(s[j]).(dirty := true) else AgeLine(s[j]))
  {
    HitKeepsOthers(s, x, write);
    HitSlotAfter(s, x, write);
  }

  lemma HitKeepsOthers(s: seq<Access>, x: Access, write: bool)
    requires |s| >= 1 && HasTag(s, x.tag)
    ensures var r, j := AccessSet(s, x, write), FindLine(s, x.tag).value;
      forall i | 0 <= i < |s| && i != j :: r[i] == AgeLine(s[i])
  {
    HitAccess(s, x, write, FindLine(s, x.tag).value);
    AgedIsAgeLine(s);
  }

  lemma HitSlotAfter(s: seq<Access>, x: Access, write: bool)
    requires |s| >= 1 && HasTag(s, x.tag)
    ensures var r, j := AccessSet(s, x, write), FindLine(s, x.tag).value;
      r[j] == (if write then AgeLine(s[j]).(dirty := true) else AgeLine(s[j]))
  {
    HitAccess(s, x, write, FindLine(s, x.tag).value);
    AgedIsAgeLine(s);
  }

  /** A miss: exactly one slot changes besides the aging, the first free
      slot of a set that is not full, else the oldest slot after aging; it
      receives the record made valid, which for a trace record is a clean
      line of age 0 holding the record's tag. */
  lemma MissEffect(s: seq<Access>, x: Access, write: bool)
    requires |s| >= 1 && !HasTag(s, x.tag)
    ensures Placement(s, x.tag).Some?
    ensures var r, j := AccessSet(s, x, write), Placement(s, x.tag).value;
      (forall i | 0 <= i < |s| && i != j :: r[i] == AgeLine(s[i])) &&
      r[j] == x.(valid := true) &&
      (if Full(s) then IsOldest(Aged(s), j) else Some(j) == FirstFree(s)) &&
      (Fresh(x) ==> r[j].valid && !r[j].dirty && r[j].age == 0 && r[j].tag == x.tag)
  {
    MissAccess(s, x, write);
    AgedIsAgeLine(s);
  }

  /** Slot j after one access: the record made valid if the access places
      it there; else the slot aged, and also dirtied if it is the slot a
      write hits. */
  lemma SlotValueAfterAccess(s: seq<Access>, x: Access, write: bool, j: nat)
    requires |s| >= 1 && j < |s|
    ensures Placement(s, x.tag) == Some(j) ==> AccessSet(s, x, write)[j] == x.(valid := true)
    ensures Placement(s, x.tag) != Some(j) ==>
      AccessSet(s, x, write)[j] ==
        if write && FindLine(s, x.tag) == Some(j) then AgeLine(s[j]).(dirty := true)
        else AgeLine(s[j])
  {
    if HasTag(s, x.tag) {
      HitEffect(s, x, write);
    } else {
      MissEffect(s, x, write);
    }
  }

  /** A slot the access does not place the record into keeps its tag and
      validity and ages as `addAge` ages it. */
  lemma SlotAfterAccess(s: seq<Access>, x: Access, write: bool, j: nat)
    requires |s| >= 1 && j < |s|
    ensures Placement(s, x.tag) == Some(j) ==> AccessSet(s, x, write)[j] == x.(valid := true)
    ensures Placement(s, x.tag) != Some(j) ==>
      var r := AccessSet(s, x, write)[j];
      r.valid == s[j].valid && r.tag == s[j].tag && r.age == AgeLine(s[j]).age
  {
    SlotValueAfterAccess(s, x, write, j);
  }

  lemma FirstMatch(a: seq<Access>, tag: nat, i: nat)
    requires i < |a| && Matches(a[i], tag)
    requires forall k | 0 <= k < i :: !Matches(a[k], tag)
    ensures FindLine(a, tag) == Some(i)
  {
    var f := FindLine(a, tag).value;
    assert !(f < i) && !(i < f);
  }

  /** The slot at which a scan of the aged set first meets `tag` is the hit
      `AccessSet` uses. */
  lemma HitSlot(s: seq<Access>, x: Access, write: bool, i: nat)
    requires |s| >= 1 && i < |s| && Matches(Aged(s)[i], x.tag)
    requires forall k | 0 <= k < i :: !Matches(Aged(s)[k], x.tag)
    ensures HasTag(s, x.tag) && Placement(s, x.tag).None?
    ensures AccessSet(s, x, write) ==
      if write then Aged(s)[i := Aged(s)[i].(dirty := true)] else Aged(s)
  {
    FirstMatch(Aged(s), x.tag, i);
    AgedKeepsMatches(s, x.tag);
    HitAccess(s, x, write, i);
  }

  /** A scan of the aged set that matches no slot means a miss. */
  lemma MissScan(s: seq<Access>, tag: nat)
    requires forall k | 0 <= k < |s| :: !Matches(Aged(s)[k], tag)
    ensures !HasTag(s, tag)
  {
    AgedKeepsMatches(s, tag);
  }

  lemma FreePlacement(s: seq<Access>, tag: nat, j: nat)
    requires |s| >= 1 && FindLine(Aged(s), tag).None?
    requires !Full(Aged(s)) && Some(j) == FirstFree(Aged(s))
    ensures Placement(s, tag) == Some(j)
  {
  }

  lemma OldestPlacement(s: seq<Access>, tag: nat, j: nat)
    requires |s| >= 1 && FindLine(Aged(s), tag).None?
    requires Full(Aged(s)) && IsOldest(Aged(s), j)
    ensures Placement(s, tag) == Some(j)
  {
    var a := Aged(s);
    assert a[0].valid && a[0].age > 0;
    OldestIsUnique(a, j, OldestSlot(a));
  }

  /** The slot a miss scan of the aged set chooses, the oldest line when
      the set is full and the first free slot otherwise, is the one
      `Placement` names. */
  lemma MissSlot(s: seq<Access>, x: Access, write: bool, j: nat)
    requires |s| >= 1 && !HasTag(s, x.tag)
    requires if Full(Aged(s)) then IsOldest(Aged(s), j) else Some(j) == FirstFree(Aged(s))
    ensures AccessSet(s, x, write) == Aged(s)[j := x.(valid := true)]
  {
    AgedKeepsLookups(s, x.tag);
    if Full(Aged(s)) {
      OldestPlacement(s, x.tag, j);
    } else {
      FreePlacement(s, x.tag, j);
    }
  }

  /** No two valid lines of a set have the same age. */
  predicate AgesDistinct(s: seq<Access>) {
    forall i, j | 0 <= i < j < |s| :: s[i].valid && s[j].valid ==> s[i].age != s[j].age
  }

  /** No two valid lines of a set hold the same tag. */
  predicate TagsDistinct(s: seq<Access>) {
    forall i, j | 0 <= i < j < |s| :: s[i].valid && s[j].valid ==> s[i].tag != s[j].tag
  }

  predicate Consistent(s: seq<Access>) {
    AgesDistinct(s) && TagsDistinct(s)
  }

  /** An access by a trace record keeps ages and tags of valid lines distinct. */
  lemma AccessSetKeepsConsistent(s: seq<Access>, x: Access, write: bool)
    requires |s| >= 1 && Consistent(s) && Fresh(x)
    ensures Consistent(AccessSet(s, x, write))
  {
    var r := AccessSet(s, x, write);
    if HasTag(s, x.tag) {
      HitEffect(s, x, write);
      forall i, j | 0 <= i < j < |r| && r[i].valid && r[j].valid
        ensures r[i].age != r[j].age && r[i].tag != r[j].tag
      {
        assert s[i].valid && s[j].valid;
      }
    } else {
      MissEffect(s, x, write);
      var p := Placement(s, x.tag).value;
      forall i, j | 0 <= i < j < |r| && r[i].valid && r[j].valid
        ensures r[i].age != r[j].age && r[i].tag != r[j].tag
      {
        if i == p {
          assert s[j].valid && r[j].age >= 1 && !Matches(s[j], x.tag);
        } else if j == p {
          assert s[i].valid && r[i].age >= 1 && !Matches(s[i], x.tag);
        } else {
          assert s[i].valid && s[j].valid;
        }
      }
    }
  }

  /** The set after the read and write records routed to it, in order. */
  function RunSet(s: seq<Access>, xs: seq<Access>): (r: seq<Access>)
    requires |s| >= 1
    ensures |r| == |s|
    decreases |xs|
  {
    if xs == [] then s
    else
      var x := xs[|xs| - 1];
      AccessSet(RunSet(s, xs[..|xs| - 1]), x, x.op == WriteOp)
  }

  /** The position in xs of the last miss that filled slot j, if any. */
  function LastPlacement(s: seq<Access>, xs: seq<Access>, j: nat): (k: Option<nat>)
    requires |s| >= 1
    ensures k.Some? ==> k.value < |xs|
    decreases |xs|
  {
    if xs == [] then None
    else if Placement(RunSet(s, xs[..|xs| - 1]), xs[|xs| - 1].tag) == Some(j) then Some(|xs| - 1)
    else LastPlacement(s, xs[..|xs| - 1], j)
  }

  /** Since hits do not reset it, the age of a valid line counts the accesses
      to its set since the miss that brought it in; a line already there at
      the start has aged once per access. */
  lemma {:induction false} AgeCountsAccesses(s: seq<Access>, xs: seq<Access>, j: nat)
    requires |s| >= 1 && j < |s|
    requires forall k | 0 <= k < |xs| :: Fresh(xs[k])
    requires RunSet(s, xs)[j].valid
    ensures match LastPlacement(s, xs, j)
      case Some(k) => RunSet(s, xs)[j].age == |xs| - 1 - k && RunSet(s, xs)[j].tag == xs[k].tag
      case None => s[j].valid && RunSet(s, xs)[j].age == s[j].age + |xs| && RunSet(s, xs)[j].tag == s[j].tag
    decreases |xs|
  {
    if xs != [] {
      var p, x := xs[..|xs| - 1], xs[|xs| - 1];
      var before := RunSet(s, p);
      assert RunSet(s, xs) == AccessSet(before, x, x.op == WriteOp);
      SlotAfterAccess(before, x, x.op == WriteOp, j);
      if Placement(before, x.tag) == Some(j) {
        assert LastPlacement(s, xs, j) == Some(|xs| - 1);
      } else {
        assert LastPlacement(s, xs, j) == LastPlacement(s, p, j);
        assert before[j].valid;
        AgeCountsAccesses(s, p, j);
      }
    }
  }

  /** A set with every slot invalid, as the constructor sizes it. */
  function EmptySet(n: nat): (s: seq<Access>)
    ensures |s| == n && forall i | 0 <= i < n :: s[i] == EmptySlot
  {
    seq(n, _ => EmptySlot)
  }

  /** Starting from an empty set, every valid line was brought in by some
      miss, and its age is the number of accesses since that miss. */
  lemma AgeSinceInsertion(n: nat, xs: seq<Access>, j: nat)
    requires 1 <= n && j < n
    requires forall k | 0 <= k < |xs| :: Fresh(xs[k])
    requires RunSet(EmptySet(n), xs)[j].valid
    ensures LastPlacement(EmptySet(n), xs, j).Some?
    ensures var k := LastPlacement(EmptySet(n), xs, j).value;
      RunSet(EmptySet(n), xs)[j].age == |xs| - 1 - k
  {
    AgeCountsAccesses(EmptySet(n), xs, j);
  }

  predicate DistinctTags(xs: seq<Access>) {
    forall i, j | 0 <= i < j < |xs| :: xs[i].tag != xs[j].tag
  }

  /** A set holding the records p in order, the i-th |p| - 1 - i accesses
      old, with every later slot empty. */
  predicate FilledWith(s: seq<Access>, p: seq<Access>) {
    |p| <= |s| &&
    (forall i | 0 <= i < |p| :: s[i] == p[i].(age := |p| - 1 - i)) &&
    (forall i | |p| <= i < |s| :: s[i] == EmptySlot)
  }

  /** A tag none of the records p holds is in no slot of a set filled
      with them. */
  lemma FilledLacksTag(s: seq<Access>, p: seq<Access>, tag: nat)
    requires FilledWith(s, p)
    requires forall i | 0 <= i < |p| :: p[i].tag != tag
    ensures !HasTag(s, tag)
  {
    forall i | 0 <= i < |s| ensures !Matches(s[i], tag) {
      if i < |p| {
        assert s[i].tag == p[i].tag;
      }
    }
  }

  /** The first empty slot of a set filled with p is the one after them. */
  lemma FilledFirstFree(s: seq<Access>, p: seq<Access>)
    requires |p| < |s| && FilledWith(s, p)
    requires forall i | 0 <= i < |p| :: p[i].valid
    ensures FirstFree(s) == Some(|p|)
  {
    assert forall i | 0 <= i < |p| :: s[i].valid;
    assert !s[|p|].valid;
  }

  /** A miss on a set with a free slot k places the record there. */
  lemma MissIntoFree(s: seq<Access>, x: Access, write: bool, k: nat)
    requires |s| >= 1 && !HasTag(s, x.tag) && FirstFree(s) == Some(k)
    ensures AccessSet(s, x, write) == Aged(s)[k := x.(valid := true)]
  {
    MissAccess(s, x, write);
  }

  /** A fresh record whose tag none of p holds goes into the first empty
      slot after them, and everything else ages. */
  lemma FillNext(s: seq<Access>, p: seq<Access>, x: Access, write: bool)
    requires |p| < |s| && FilledWith(s, p) && Fresh(x)
    requires forall i | 0 <= i < |p| :: p[i].valid && p[i].tag != x.tag
    ensures FilledWith(AccessSet(s, x, write), p + [x])
  {
    FilledLacksTag(s, p, x.tag);
    FilledFirstFree(s, p);
    MissIntoFree(s, x, write, |p|);
    AgedIsAgeLine(s);
    var r, q := AccessSet(s, x, write), p + [x];
    forall i | 0 <= i < |q| ensures r[i] == q[i].(age := |q| - 1 - i) {
      if i < |p| {
        assert r[i] == AgeLine(s[i]);
      }
    }
    forall i | |q| <= i < |s| ensures r[i] == EmptySlot {
      assert r[i] == AgeLine(s[i]);
    }
  }

  /** The records before the last of a run with distinct tags are fresh,
      hold distinct tags and none holds the last one's tag. */
  lemma SplitLast(xs: seq<Access>)
    requires |xs| >= 1 && DistinctTags(xs)
    requires forall k | 0 <= k < |xs| :: Fresh(xs[k])
    ensures var p, x := xs[..|xs| - 1], xs[|xs| - 1];
      p + [x] == xs && Fresh(x) && DistinctTags(p) &&
      (forall k | 0 <= k < |p| :: Fresh(p[k])) &&
      forall i | 0 <= i < |p| :: p[i].valid && p[i].tag != x.tag
  {
    var p, x := xs[..|xs| - 1], xs[|xs| - 1];
    assert p + [x] == xs;
  }

  /** Up to n records with distinct tags fill an empty set of n slots in
      order; the i-th is |xs| - 1 - i accesses old. */
  lemma {:induction false} FillsInOrder(n: nat, xs: seq<Access>)
    requires 1 <= n && |xs| <= n
    requires forall k | 0 <= k < |xs| :: Fresh(xs[k])
    requires DistinctTags(xs)
    ensures FilledWith(RunSet(EmptySet(n), xs), xs)
    decreases |xs|
  {
    if xs != [] {
      var k := |xs| - 1;
      var p, x := xs[..k], xs[k];
      SplitLast(xs);
      FillsInOrder(n, p);
      RunSetAppend(EmptySet(n), p, x);
      FillNext(RunSet(EmptySet(n), p), p, x, x.op == WriteOp);
    }
  }

  /** On a full set holding the records p in order, a fresh record whose
      tag none of them holds replaces the first one, the oldest. */
  lemma EvictFirst(s: seq<Access>, p: seq<Access>, x: Access, write: bool)
    requires |p| == |s| >= 1 && FilledWith(s, p) && Fresh(x)
    requires forall i | 0 <= i < |p| :: p[i].valid && p[i].tag != x.tag
    ensures var r := AccessSet(s, x, write);
      r[0] == x && forall i | 1 <= i < |s| :: r[i] == p[i].(age := |p| - i)
  {
    FilledLacksTag(s, p, x.tag);
    assert Full(s);
    MissAccess(s, x, write);
    AgedIsAgeLine(s);
    assert IsOldest(Aged(s), 0);
    OldestIsUnique(Aged(s), Placement(s, x.tag).value, 0);
  }

  /** n + 1 records with distinct tags on an empty set of n slots: the last
      one evicts the first, and the set then holds records 1 to n. */
  lemma EvictsFirstInserted(n: nat, xs: seq<Access>)
    requires 1 <= n && |xs| == n + 1
    requires forall k | 0 <= k < |xs| :: Fresh(xs[k])
    requires DistinctTags(xs)
    ensures var r := RunSet(EmptySet(n), xs);
      r[0] == xs[n] && forall i | 1 <= i < n :: r[i] == xs[i].(age := n - i)
  {
    var p, x := xs[..n], xs[n];
    SplitLast(xs);
    FillsInOrder(n, p);
    RunSetAppend(EmptySet(n), p, x);
    EvictFirst(RunSet(EmptySet(n), p), p, x, x.op == WriteOp);
  }

  lemma RunSetAppend(s: seq<Access>, xs: seq<Access>, x: Access)
    requires |s| >= 1
    ensures RunSet(s, xs + [x]) == AccessSet(RunSet(s, xs), x, x.op == WriteOp)
  {
    assert (xs + [x])[..|xs|] == xs;
  }

  /** Two records with different tags fill an empty two-slot set in order. */
  lemma TwoFilled(a: Access, b: Access)
    requires Fresh(a) && Fresh(b) && a.tag != b.tag
    ensures RunSet(EmptySet(2), [a, b]) == [a.(age := 1), b]
  {
    FillsInOrder(2, [a, b]);
    var r := RunSet(EmptySet(2), [a, b]);
    assert r[0] == a.(age := 1) && r[1] == b;
  }

  /** A read hit on slot 0 of a full two-slot set ages both lines and
      changes nothing else. */
  lemma ReadHitAgesBoth(p: Access, q: Access, x: Access, p': Access, q': Access)
    requires p.valid && q.valid && p.tag == x.tag
    requires p' == p.(age := p.age + 1) && q' == q.(age := q.age + 1)
    ensures AccessSet([p, q], x, false) == [p', q']
  {
    assert FindLine([p, q], x.tag) == Some(0);
    HitEffect([p, q], x, false);
  }

  /** A miss on a full two-slot set whose slot 0 is older replaces slot 0. */
  lemma MissEvictsOlder(p: Access, q: Access, x: Access, write: bool, x': Access, q': Access)
    requires p.valid && q.valid && p.age > q.age && p.tag != x.tag && q.tag != x.tag
    requires x' == x.(valid := true) && q' == q.(age := q.age + 1)
    ensures AccessSet([p, q], x, write) == [x', q']
  {
    var s := [p, q];
    assert !Matches(s[0], x.tag) && !Matches(s[1], x.tag);
    MissEffect(s, x, write);
    assert IsOldest(Aged(s), 0);
    OldestIsUnique(Aged(s), Placement(s, x.tag).value, 0);
  }

  /** The age quirk in two slots: a, b, a again (a hit), then c. A hit does
      not make a line younger, so c evicts a, the line just used, and b
      stays: first in, first out rather than least recently used. */
  lemma HitDoesNotProtectLine(a: Access, b: Access, c: Access)
    requires Fresh(a) && Fresh(b) && Fresh(c) && a.op == ReadOp
    requires a.tag != b.tag && a.tag != c.tag && b.tag != c.tag
    ensures RunSet(EmptySet(2), [a, b, a, c]) == [c, b.(age := 2)]
  {
    var e := EmptySet(2);
    var a1, a2, b1, b2 := a.(age := 1), a.(age := 2), b.(age := 1), b.(age := 2);
    assert [a, b] + [a] == [a, b, a] && [a, b, a] + [c] == [a, b, a, c];
    TwoFilled(a, b);
    RunSetAppend(e, [a, b], a);
    ReadHitAgesBoth(a1, b, a, a2, b1);
    RunSetAppend(e, [a, b, a], c);
    MissEvictsOlder(a2, b1, c, c.op == WriteOp, c, b2);
  }
}
