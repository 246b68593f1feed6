/** The whole cache: a sequence of sets, the hit/access counters and the
    per-record hit flags. `Replay` states the effect of a trace as a fold
    over the records; the class `Cache` holds the state the simulator
    updates in place, and its methods are proved against the functions of
    this module and of CacheSet. */
module CacheModel {
  import opened Bits
  import opened CacheLine
  import opened AddressDecoder
  import opened CacheSet

  /** The sets after a replay and one hit flag per read or write record. */
  datatype Run = Run(sets: seq<seq<Access>>, outcomes: seq<bool>)

  predicate NonEmptySets(c: seq<seq<Access>>) {
    forall t | 0 <= t < |c| :: |c[t]| >= 1
  }

  /** Every record names a set of the cache. */
  predicate Routed(n: nat, xs: seq<Access>) {
    forall k | 0 <= k < |xs| :: xs[k].index < n
  }

  /** The number of read and write records; other records are skipped. */
  function CountOps(xs: seq<Access>): nat {
    if xs == [] then 0
    else CountOps(xs[..|xs| - 1]) + (if xs[|xs| - 1].op == NoOp then 0 else 1)
  }

  function CountHits(o: seq<bool>): nat {
    if o == [] then 0
    else CountHits(o[..|o| - 1]) + (if o[|o| - 1] then 1 else 0)
  }

  lemma {:induction false} HitsAtMostAccesses(o: seq<bool>)
    ensures CountHits(o) <= |o|
  {
    if o != [] {
      HitsAtMostAccesses(o[..|o| - 1]);
    }
  }

  /** One record of the replay loop of `operator()`: a read or write
      record applies `AccessSet` to the set it names and appends whether it
      hit; any other record is skipped. */
  function Step(run: Run, x: Access): (next: Run)
    requires x.index < |run.sets| && |run.sets[x.index]| >= 1
    ensures |next.sets| == |run.sets|
    ensures forall t | 0 <= t < |run.sets| :: |next.sets[t]| == |run.sets[t]|
    ensures x.op == NoOp ==> next == run
    ensures x.op != NoOp ==>
      next.outcomes == run.outcomes + [HasTag(run.sets[x.index], x.tag)] &&
      next.sets[x.index] == AccessSet(run.sets[x.index], x, x.op == WriteOp) &&
      forall t | 0 <= t < |run.sets| && t != x.index :: next.sets[t] == run.sets[t]
  {
    if x.op == NoOp then run
    else
      var s := run.sets[x.index];
      Run(run.sets[x.index := AccessSet(s, x, x.op == WriteOp)],
          run.outcomes + [HasTag(s, x.tag)])
  }

  /** The replay loop of `operator()` as a fold of `Step` over the records,
      from the state `start`: the sets keep their number and sizes, the
      flags already recorded stay, and one flag is added per read or
      write record. */
  function Replay(start: Run, xs: seq<Access>): (run: Run)
    requires NonEmptySets(start.sets) && Routed(|start.sets|, xs)
    ensures |run.sets| == |start.sets|
    ensures forall t | 0 <= t < |start.sets| :: |run.sets[t]| == |start.sets[t]|
    ensures |run.outcomes| == |start.outcomes| + CountOps(xs)
    ensures run.outcomes[..|start.outcomes|] == start.outcomes
    decreases |xs|
  {
    if xs == [] then start
    else
      var prev := Replay(start, xs[..|xs| - 1]);
      var next := Step(prev, xs[|xs| - 1]);
      assert next.outcomes[..|prev.outcomes|] == prev.outcomes;
      next
  }

  lemma CountHitsAppend(o: seq<bool>, h: bool)
    ensures CountHits(o + [h]) == CountHits(o) + (if h then 1 else 0)
  {
    assert (o + [h])[..|o|] == o;
  }

  /** The replay of the first i + 1 records is one `Step` after the replay
      of the first i. */
  lemma ReplayStep(start: Run, xs: seq<Access>, i: nat)
    requires NonEmptySets(start.sets) && Routed(|start.sets|, xs) && i < |xs|
    ensures Routed(|start.sets|, xs[..i]) && Routed(|start.sets|, xs[..i + 1])
    ensures Replay(start, xs[..i + 1]) == Step(Replay(start, xs[..i]), xs[i])
  {
    RoutedPrefix(|start.sets|, xs, i);
    RoutedPrefix(|start.sets|, xs, i + 1);
    assert xs[..i + 1][..i] == xs[..i];
  }

  lemma RoutedPrefix(n: nat, xs: seq<Access>, i: nat)
    requires Routed(n, xs) && i <= |xs|
    ensures Routed(n, xs[..i])
  {
    assert forall k | 0 <= k < i :: xs[..i][k] == xs[k];
  }

  /** The read and write records of xs that name set t, in order. */
  function OnSet(xs: seq<Access>, t: nat): (ys: seq<Access>)
    ensures forall k | 0 <= k < |ys| :: ys[k] in xs
  {
    if xs == [] then []
    else
      var x := xs[|xs| - 1];
      OnSet(xs[..|xs| - 1], t) + (if x.op != NoOp && x.index == t then [x] else [])
  }

  /** Sets do not interact: set t after a replay is set t run through the
      records that name it, so an age counts the accesses to its own set. */
  lemma {:induction false} ReplayIsPerSet(start: Run, xs: seq<Access>, t: nat)
    requires NonEmptySets(start.sets) && Routed(|start.sets|, xs) && t < |start.sets|
    ensures Replay(start, xs).sets[t] == RunSet(start.sets[t], OnSet(xs, t))
    decreases |xs|
  {
    if xs != [] {
      var p, x := xs[..|xs| - 1], xs[|xs| - 1];
      ReplayIsPerSet(start, p, t);
      if x.op != NoOp && x.index == t {
        var ys := OnSet(xs, t);
        assert ys[..|ys| - 1] == OnSet(p, t);
      } else {
        assert OnSet(xs, t) == OnSet(p, t);
      }
    }
  }

  predicate AllConsistent(c: seq<seq<Access>>) {
    forall t | 0 <= t < |c| :: Consistent(c[t])
  }

  predicate AllFresh(xs: seq<Access>) {
    forall k | 0 <= k < |xs| :: Fresh(xs[k])
  }

  /** Replaying trace records keeps, in every set, the ages and the tags of
      the valid lines pairwise distinct. */
  lemma {:induction false} ReplayKeepsConsistent(start: Run, xs: seq<Access>)
    requires NonEmptySets(start.sets) && Routed(|start.sets|, xs)
    requires AllConsistent(start.sets) && AllFresh(xs)
    ensures AllConsistent(Replay(start, xs).sets)
    decreases |xs|
  {
    if xs != [] {
      var p, x := xs[..|xs| - 1], xs[|xs| - 1];
      ReplayKeepsConsistent(start, p);
      if x.op != NoOp {
        var prev := Replay(start, p);
        AccessSetKeepsConsistent(prev.sets[x.index], x, x.op == WriteOp);
      }
    }
  }

  /** A read hit found at slot i of the aged set: the aged set is what
      `AccessSet` gives. */
  lemma ReadHitStore(c0: seq<seq<Access>>, t: nat, x: Access, i: nat, c1: seq<seq<Access>>)
    requires t < |c0| && |c0[t]| >= 1 && c1 == c0[t := Aged(c0[t])]
    requires i < |c1[t]| && Matches(c1[t][i], x.tag)
    requires forall k | 0 <= k < i :: !Matches(c1[t][k], x.tag)
    ensures HasTag(c0[t], x.tag) && c1 == c0[t := AccessSet(c0[t], x, false)]
  {
    HitSlot(c0[t], x, false, i);
  }

  /** A miss, no slot of the aged set matching: storing the record, made
      valid, at the slot `Insert` or `getOldest` chose gives what
      `AccessSet` gives. */
  lemma MissStore(c0: seq<seq<Access>>, t: nat, x: Access, write: bool, j: nat,
                  c1: seq<seq<Access>>, c2: seq<seq<Access>>)
    requires t < |c0| && |c0[t]| >= 1 && c1 == c0[t := Aged(c0[t])]
    requires forall k | 0 <= k < |c1[t]| :: !Matches(c1[t][k], x.tag)
    requires if Full(c1[t]) then IsOldest(c1[t], j) else Some(j) == FirstFree(c1[t])
    requires j < |c1[t]| && c2 == c1[t := c1[t][j := x.(valid := true)]]
    ensures !HasTag(c0[t], x.tag) && c2 == c0[t := AccessSet(c0[t], x, write)]
  {
    MissScan(c0[t], x.tag);
    MissSlot(c0[t], x, write, j);
  }

  /** A write hit found at slot i of the aged set: marking that slot
      dirty gives what `AccessSet` gives. */
  lemma WriteHitStore(c0: seq<seq<Access>>, t: nat, x: Access, i: nat,
                      c1: seq<seq<Access>>, c2: seq<seq<Access>>)
    requires t < |c0| && |c0[t]| >= 1 && c1 == c0[t := Aged(c0[t])]
    requires i < |c1[t]| && Matches(c1[t][i], x.tag)
    requires forall k | 0 <= k < i :: !Matches(c1[t][k], x.tag)
    requires c2 == c1[t := c1[t][i := c1[t][i].(dirty := true)]]
    ensures HasTag(c0[t], x.tag) && c2 == c0[t := AccessSet(c0[t], x, true)]
  {
    HitSlot(c0[t], x, true, i);
  }

  /** The cache as the constructor leaves it: n sets of `setSize` invalid slots. */
  function EmptyCache(n: nat, setSize: nat): (c: seq<seq<Access>>)
    ensures |c| == n && forall t | 0 <= t < n :: c[t] == EmptySet(setSize)
  {
    seq(n, _ => EmptySet(setSize))
  }

  class Cache {
    const geometry: Geometry
    const numSets: nat
    const numBlocks: nat
    const offsetBits: nat
    const indexBits: nat
    const tagBits: nat

    /** `cache_`: one sequence of `setSize` slots per set. */
    var cache: seq<seq<Access>>
    /** `trace_`: the decoded records, in trace order. */
    var trace: seq<Access>
    /** `hitMiss_`: one flag per Read/Write call, in call order. */
    var hitMiss: seq<bool>
    var hits: nat
    var accesses: nat

    /** The geometry fixed at construction, which nothing during a replay changes. */
    ghost predicate Derived() {
      geometry.Sized() &&
      numSets == geometry.NumSets() && numBlocks == numSets * geometry.setSize &&
      offsetBits == geometry.OffsetBits() && indexBits == geometry.IndexBits() &&
      tagBits == geometry.TagBits()
    }

    /** One set of `setSize` slots per set number, and every record of the
        trace names one of them. */
    ghost predicate Valid()
      reads this
    {
      geometry.setSize >= 1 &&
      |cache| == numSets &&
      (forall t | 0 <= t < |cache| :: |cache[t]| == geometry.setSize) &&
      Routed(numSets, trace)
    }

    ghost predicate SetsConsistent()
      reads this
    {
      AllConsistent(cache)
    }

    /** The counters agree with the flags, as when only the replay loop calls
        `Read` and `Write`. */
    ghost predicate Counted()
      reads this
    {
      accesses == |hitMiss| && hits == CountHits(hitMiss)
    }

    /** `Cache(ifs)` after the three numbers have been read. */
    constructor (g: Geometry)
      requires g.Sized()
      ensures Valid() && Derived() && geometry == g
      ensures cache == EmptyCache(g.NumSets(), g.setSize)
      ensures trace == [] && hitMiss == [] && hits == 0 && accesses == 0
      ensures SetsConsistent() && Counted()
    {
      geometry := g;
      numSets := g.NumSets();
      numBlocks := g.NumSets() * g.setSize;
      indexBits := g.IndexBits();
      offsetBits := g.OffsetBits();
      tagBits := g.TagBits();
      trace, hitMiss, hits, accesses := [], [], 0, 0;
      var sets: seq<seq<Access>> := seq(g.NumSets(), _ => []);
      var i := 0;
      while i < |sets|
        invariant 0 <= i <= |sets| == g.NumSets()
        invariant forall t | 0 <= t < i :: sets[t] == EmptySet(g.setSize)
        invariant forall t | i <= t < |sets| :: sets[t] == []
      {
        sets := sets[i := EmptySet(g.setSize)];
        i := i + 1;
      }
      cache := sets;
    }

    /** `addAge(t)`: every valid slot of set t one access older. */
    method AddAge(t: nat)
      requires Valid() && t < numSets
      modifies this
      ensures trace == old(trace) && hitMiss == old(hitMiss)
      ensures hits == old(hits) && accesses == old(accesses)
      ensures Valid()
      ensures cache == old(cache)[t := Aged(old(cache)[t])]
    {
      var i := 0;
      while i < |cache[t]|
        invariant |cache| == |old(cache)| && |cache[t]| == |old(cache)[t]|
        invariant 0 <= i <= |cache[t]|
        invariant forall u | 0 <= u < |cache| && u != t :: cache[u] == old(cache)[u]
        invariant forall k | 0 <= k < i :: cache[t][k] == AgeLine(old(cache)[t][k])
        invariant forall k | i <= k < |cache[t]| :: cache[t][k] == old(cache)[t][k]
        invariant trace == old(trace) && hitMiss == old(hitMiss)
        invariant hits == old(hits) && accesses == old(accesses)
      {
        if cache[t][i].valid {
          cache := cache[t := cache[t][i := cache[t][i].(age := cache[t][i].age + 1)]];
        }
        i := i + 1;
      }
      assert cache[t] == Aged(old(cache)[t]);
    }

    /** `isFull(t)`: true exactly when every slot of set t is valid. */
    method IsFull(t: nat) returns (full: bool)
      requires t < |cache|
      ensures full <==> forall i | 0 <= i < |cache[t]| :: cache[t][i].valid
    {
      var i := 0;
      while i < |cache[t]|
        invariant 0 <= i <= |cache[t]|
        invariant forall k | 0 <= k < i :: cache[t][k].valid
      {
        if !cache[t][i].valid {
          return false;
        }
        i := i + 1;
      }
      return true;
    }

    /** `getOldest(t)`: the lowest-index valid slot of greatest age. The
        scan starts from age 0, so some valid slot must have a positive age. */
    method GetOldest(t: nat) returns (oldest: nat)
      requires t < |cache| && HasAgedLine(cache[t])
      ensures IsOldest(cache[t], oldest)
    {
      var age := 0;
      oldest := 0;
      var i := 0;
      while i < |cache[t]|
        invariant 0 <= i <= |cache[t]|
        invariant forall k | 0 <= k < i :: cache[t][k].valid ==> cache[t][k].age <= age
        invariant age > 0 ==>
          oldest < i && cache[t][oldest].valid && cache[t][oldest].age == age &&
          forall k | 0 <= k < oldest :: cache[t][k].valid ==> cache[t][k].age < age
      {
        if cache[t][i].valid && cache[t][i].age > age {
          age := cache[t][i].age;
          oldest := i;
        }
        i := i + 1;
      }
    }

    /** `Insert(t, a)`: a into the lowest invalid slot of set t and true, or
        false and no change when the set is full. */
    method Insert(t: nat, a: Access) returns (ok: bool)
      requires Valid() && t < numSets
      modifies this
      ensures trace == old(trace) && hitMiss == old(hitMiss)
      ensures hits == old(hits) && accesses == old(accesses)
      ensures Valid()
      ensures ok <==> !Full(old(cache)[t])
      ensures cache == old(cache)[t := Inserted(old(cache)[t], a).1]
    {
      var i := 0;
      while i < |cache[t]|
        invariant 0 <= i <= |cache[t]|
        invariant forall k | 0 <= k < i :: cache[t][k].valid
        invariant cache == old(cache)
      {
        if !cache[t][i].valid {
          assert FirstFree(cache[t]) == Some(i) by {
            var f := FirstFree(cache[t]).value;
            assert !(f < i) && !(i < f);
          }
          cache := cache[t := cache[t][i := a]];
          return true;
        }
        i := i + 1;
      }
      return false;
    }

    /** The miss half of `Read` and `Write`: record the miss, then store
        `line` in set t, over the oldest slot when the set is full and in the
        first free slot otherwise. */
    method Miss(t: nat, line: Access) returns (j: nat)
      requires Valid() && t < numSets
      requires forall i | 0 <= i < |cache[t]| :: cache[t][i].valid ==> cache[t][i].age > 0
      modifies this
      ensures Valid()
      ensures j < |old(cache)[t]| && cache == old(cache)[t := old(cache)[t][j := line]]
      ensures if Full(old(cache)[t]) then IsOldest(old(cache)[t], j)
              else Some(j) == FirstFree(old(cache)[t])
      ensures hitMiss == old(hitMiss) + [false]
      ensures trace == old(trace) && hits == old(hits) && accesses == old(accesses)
    {
      hitMiss := hitMiss + [false];
      var full := IsFull(t);
      if full {
        assert cache[t][0].valid;
        j := GetOldest(t);
        cache := cache[t := cache[t][j := line]];
      } else {
        j := FirstFree(cache[t]).value;
        var _ := Insert(t, line);
      }
    }

    /** `setDirty(true)` on slot i of set t. */
    method SetDirty(t: nat, i: nat)
      requires Valid() && t < numSets && i < |cache[t]|
      modifies this
      ensures trace == old(trace) && hitMiss == old(hitMiss)
      ensures hits == old(hits) && accesses == old(accesses)
      ensures Valid()
      ensures cache == old(cache)[t := old(cache)[t][i := old(cache)[t][i].(dirty := true)]]
    {
      cache := cache[t := cache[t][i := cache[t][i].(dirty := true)]];
    }

    /** The scan of `Read` and `Write`: the lowest valid slot of set t
        holding `tag`, or the set size when there is none. */
    method Lookup(t: nat, tag: nat) returns (i: nat)
      requires t < |cache|
      ensures i <= |cache[t]|
      ensures i < |cache[t]| ==> Matches(cache[t][i], tag)
      ensures forall k | 0 <= k < i :: !Matches(cache[t][k], tag)
    {
      i := 0;
      while i < |cache[t]| && !(cache[t][i].valid && cache[t][i].tag == tag)
        invariant 0 <= i <= |cache[t]|
        invariant forall k | 0 <= k < i :: !Matches(cache[t][k], tag)
      {
        i := i + 1;
      }
    }

    /** `Read(r)`: age set r.index; a hit changes nothing else; a miss stores
        r, made valid, as `Fill` does. One flag is appended to `hitMiss`. */
    method Read(r: Access) returns (hit: bool)
      requires Valid() && r.index < numSets
      modifies this
      ensures trace == old(trace) && hits == old(hits) && accesses == old(accesses)
      ensures Valid()
      ensures hit == HasTag(old(cache)[r.index], r.tag)
      ensures cache == old(cache)[r.index := AccessSet(old(cache)[r.index], r, false)]
      ensures hitMiss == old(hitMiss) + [hit]
    {
      var t := r.index;
      ghost var c0 := cache;
      AddAge(t);
      ghost var c1 := cache;
      var i := Lookup(t, r.tag);
      if i < |cache[t]| {
        ReadHitStore(c0, t, r, i, c1);
        hitMiss := hitMiss + [true];
        return true;
      }
      var j := Miss(t, r.(valid := true));
      MissStore(c0, t, r, false, j, c1, cache);
      return false;
    }

    /** `Write(w)`: as `Read`, except that a hit marks the hit slot dirty. */
    method Write(w: Access) returns (hit: bool)
      requires Valid() && w.index < numSets
      modifies this
      ensures trace == old(trace) && hits == old(hits) && accesses == old(accesses)
      ensures Valid()
      ensures hit == HasTag(old(cache)[w.index], w.tag)
      ensures cache == old(cache)[w.index := AccessSet(old(cache)[w.index], w, true)]
      ensures hitMiss == old(hitMiss) + [hit]
    {
      var t := w.index;
      ghost var c0 := cache;
      AddAge(t);
      ghost var c1 := cache;
      var i := Lookup(t, w.tag);
      if i < |cache[t]| {
        SetDirty(t, i);
        WriteHitStore(c0, t, w, i, c1, cache);
        hitMiss := hitMiss + [true];
        return true;
      }
      var j := Miss(t, w.(valid := true));
      MissStore(c0, t, w, true, j, c1, cache);
      return false;
    }

    /** The body of the replay loop for one record: a read or write record
        goes to `Read` or `Write` and counts one access, and one hit if it
        hit; any other record is skipped. */
    method ReplayRecord(x: Access)
      requires Valid() && x.index < numSets
      modifies this
      ensures Valid() && trace == old(trace)
      ensures Run(cache, hitMiss) == Step(Run(old(cache), old(hitMiss)), x)
      ensures hits == old(hits) + (if x.op != NoOp && HasTag(old(cache)[x.index], x.tag) then 1 else 0)
      ensures accesses == old(accesses) + (if x.op == NoOp then 0 else 1)
    {
      if x.op == ReadOp {
        var hit := Read(x);
        if hit {
          hits := hits + 1;
          accesses := accesses + 1;
        } else {
          accesses := accesses + 1;
        }
      } else if x.op == WriteOp {
        var hit := Write(x);
        if hit {
          hits := hits + 1;
          accesses := accesses + 1;
        } else {
          accesses := accesses + 1;
        }
      }
    }

    /** The replay loop of `operator()`: every record of the trace, from
        the first, goes through `ReplayRecord` in order. The counters grow
        by the hits and the flags appended. */
    method ReplayTrace()
      requires Valid()
      modifies this
      ensures Valid() && trace == old(trace)
      ensures Run(cache, hitMiss) == Replay(Run(old(cache), old(hitMiss)), trace)
      ensures hits + CountHits(old(hitMiss)) == old(hits) + CountHits(hitMiss)
      ensures accesses + |old(hitMiss)| == old(accesses) + |hitMiss|
    {
      ghost var start, xs := Run(cache, hitMiss), trace;
      assert NonEmptySets(start.sets) && Routed(|start.sets|, xs);
      RoutedPrefix(|start.sets|, xs, 0);
      var i := 0;
      while i < |trace|
        invariant 0 <= i <= |xs| && Valid() && trace == xs
        invariant Routed(|start.sets|, xs[..i])
        invariant Run(cache, hitMiss) == Replay(start, xs[..i])
        invariant hits + CountHits(old(hitMiss)) == old(hits) + CountHits(hitMiss)
        invariant accesses + |old(hitMiss)| == old(accesses) + |hitMiss|
      {
        ReplayStep(start, xs, i);
        ghost var hm := hitMiss;
        ghost var hit := HasTag(cache[trace[i].index], trace[i].tag);
        ReplayRecord(trace[i]);
        if xs[i].op != NoOp {
          CountHitsAppend(hm, hit);
        }
        i := i + 1;
      }
      assert xs[..i] == xs;
    }

    /** `operator()`: the new records are appended to the trace and then the
        whole trace is replayed from its first record. */
    method Simulate(entries: seq<Access>)
      requires Valid() && Routed(numSets, entries)
      modifies this
      ensures Valid()
      ensures trace == old(trace) + entries
      ensures Run(cache, hitMiss) == Replay(Run(old(cache), old(hitMiss)), trace)
      ensures |hitMiss| == |old(hitMiss)| + CountOps(trace)
      ensures hits + CountHits(old(hitMiss)) == old(hits) + CountHits(hitMiss)
      ensures accesses + |old(hitMiss)| == old(accesses) + |hitMiss|
      ensures old(Counted()) ==> Counted() && hits <= accesses
      ensures old(SetsConsistent()) && AllFresh(trace) ==> SetsConsistent()
    {
      trace := trace + entries;
      ghost var start, xs := Run(cache, hitMiss), trace;
      ReplayTrace();
      HitsAtMostAccesses(hitMiss);
      if old(SetsConsistent()) && AllFresh(xs) {
        ReplayKeepsConsistent(start, xs);
      }
    }
  }
}
