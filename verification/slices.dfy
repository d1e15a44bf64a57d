/** A sliced scan (src/exec.rs, `execute` and the `slice` of `next_page`): every partition pages
    through its own slice, in any interleaving. */
module Slices {
  import opened Prelude
  import opened ExecPlan
  import opened Paging

  /** The hits the server puts in slice `i`, in order. `slice` gives each hit its slice. */
  function SliceHits<H>(hits: seq<H>, slice: seq<nat>, i: nat): seq<H>
    requires |slice| == |hits|
  {
    if hits == [] then []
    else SliceHits(hits[..|hits| - 1], slice[..|hits| - 1], i) + if slice[|hits| - 1] == i then [hits[|hits| - 1]] else []
  }

  /** The hits of a search, their slices, and the cursor ids each slice's scroll hands out. */
  datatype Cluster<H> = Cluster(hits: seq<H>, slice: seq<nat>, ids: seq<nat -> Option<Id>>)

  /** Each hit is in exactly one of `n` slices, and each slice's scroll is well behaved. */
  predicate Sliced<H>(c: Cluster<H>, n: nat) {
    && |c.slice| == |c.hits|
    && (forall k :: 0 <= k < |c.slice| ==> c.slice[k] < n)
    && |c.ids| == n
    && forall i :: 0 <= i < n ==> c.ids[i](0).Some?
  }

  function SliceWorld<H>(c: Cluster<H>, n: nat, i: nat): World<H>
    requires Sliced(c, n) && i < n
  {
    World(SliceHits(c.hits, c.slice, i), if n > 1 then Some((i, n)) else None, true, c.ids[i])
  }

  /** A partition's session and whether its stream has ended. */
  datatype Part = Part(session: Session, ended: bool)

  datatype System<H> = System(parts: seq<Part>, out: seq<H>)

  /** A plan that fans out. */
  predicate FansOut(x: Inner) {
    Sound(x) && x.fetch.None? && !x.singlePage
  }

  function Begin<H>(x: Inner): System<H> {
    System(seq(x.partitions, i requires 0 <= i => Part(Start(x, i), false)), [])
  }

  /** Partition `i` takes one step; its batch, if any, is emitted. A stream that has ended is not
      polled again. */
  function StepPart<H>(c: Cluster<H>, x: Inner, sys: System<H>, i: nat): System<H>
    requires FansOut(x) && Sliced(c, x.partitions) && SystemInv(c, x, sys) && i < x.partitions
  {
    if sys.parts[i].ended then sys
    else
      var (batch, s') := NextPage(SliceWorld(c, x.partitions, i), x, sys.parts[i].session);
      System(sys.parts[i := Part(s', batch.None?)], if batch.Some? then sys.out + batch.value else sys.out)
  }

  predicate PartInv<H>(w: World<H>, x: Inner, p: Part) {
    && Inv(w, x, p.session)
    && (p.ended ==> p.session.server.pos == |w.hits| && Ended(x, p.session))
  }

  /** Each partition keeps its own invariant. */
  predicate SystemInv<H>(c: Cluster<H>, x: Inner, sys: System<H>)
    requires FansOut(x) && Sliced(c, x.partitions)
  {
    && |sys.parts| == x.partitions
    && forall i :: 0 <= i < x.partitions ==> PartInv(SliceWorld(c, x.partitions, i), x, sys.parts[i])
  }

  predicate AllEnded<H>(sys: System<H>) {
    forall i :: 0 <= i < |sys.parts| ==> sys.parts[i].ended
  }

  function PartRows<H>(c: Cluster<H>, x: Inner, sys: System<H>, i: nat): seq<H>
    requires FansOut(x) && Sliced(c, x.partitions) && SystemInv(c, x, sys) && i < x.partitions
  {
    assert PartInv(SliceWorld(c, x.partitions, i), x, sys.parts[i]);
    SliceWorld(c, x.partitions, i).hits[..sys.parts[i].session.server.pos]
  }

  /** What each partition has delivered. */
  function DeliveredRows<H>(c: Cluster<H>, x: Inner, sys: System<H>): seq<seq<H>>
    requires FansOut(x) && Sliced(c, x.partitions) && SystemInv(c, x, sys)
  {
    seq(x.partitions, i requires 0 <= i < x.partitions => PartRows(c, x, sys, i))
  }

  // ----- Rows as a multiset

  ghost function Union<H>(rows: seq<seq<H>>): multiset<H> {
    if rows == [] then multiset{} else Union(rows[..|rows| - 1]) + multiset(rows[|rows| - 1])
  }

  lemma {:induction false} UnionExtend<H>(rows: seq<seq<H>>, i: nat, more: seq<H>)
    requires i < |rows|
    ensures Union(rows[i := rows[i] + more]) == Union(rows) + multiset(more)
  {
    var k := |rows| - 1;
    var next := rows[i := rows[i] + more];
    if i == k {
      assert next[..k] == rows[..k];
    } else {
      assert next[..k] == rows[..k][i := rows[..k][i] + more];
      UnionExtend(rows[..k], i, more);
    }
  }

  lemma {:induction false} UnionOfNothing<H>(rows: seq<seq<H>>)
    requires forall i :: 0 <= i < |rows| ==> |rows[i]| == 0
    ensures Union(rows) == multiset{}
  {
    if rows != [] {
      UnionOfNothing(rows[..|rows| - 1]);
    }
  }

  lemma PartStep<H>(w: World<H>, x: Inner, p: Part)
    requires FansOut(x) && PartInv(w, x, p) && !p.ended
    ensures var (batch, s') := NextPage(w, x, p.session);
            && PartInv(w, x, Part(s', batch.None?))
            && w.hits[..s'.server.pos] ==
               w.hits[..p.session.server.pos] + (if batch.Some? then batch.value else [])
            && (batch.Some? ==> s'.server.pos > p.session.server.pos)
            && (batch.None? ==> s'.server.pos == p.session.server.pos)
  {
    StepIsRight(w, x, p.session);
    var (batch, s') := NextPage(w, x, p.session);
    assert Goal(w, x) == w.hits;
    var a, b := p.session.server.pos, s'.server.pos;
    if batch.Some? {
      assert w.hits[..b] == w.hits[..a] + w.hits[a..b];
    } else {
      assert w.hits[..a] + [] == w.hits[..a];
    }
  }

  /** One step changes only the partition that takes it. */
  lemma StepKeeps<H>(c: Cluster<H>, x: Inner, sys: System<H>, i: nat)
    requires FansOut(x) && Sliced(c, x.partitions) && SystemInv(c, x, sys) && i < x.partitions
    ensures SystemInv(c, x, StepPart(c, x, sys, i))
  {
    if !sys.parts[i].ended {
      PartStep(SliceWorld(c, x.partitions, i), x, sys.parts[i]);
    }
  }

  lemma StepDelivered<H>(c: Cluster<H>, x: Inner, sys: System<H>, i: nat)
    requires FansOut(x) && Sliced(c, x.partitions) && SystemInv(c, x, sys) && i < x.partitions
    requires SystemInv(c, x, StepPart(c, x, sys, i)) && !sys.parts[i].ended
    ensures var batch := NextPage(SliceWorld(c, x.partitions, i), x, sys.parts[i].session).0;
            var more := if batch.Some? then batch.value else [];
            var rows := DeliveredRows(c, x, sys);
            DeliveredRows(c, x, StepPart(c, x, sys, i)) == rows[i := rows[i] + more]
  {
    PartStep(SliceWorld(c, x.partitions, i), x, sys.parts[i]);
  }

  /** The rows emitted are the rows delivered, whoever stepped. */
  ghost predicate Accounted<H>(c: Cluster<H>, x: Inner, sys: System<H>)
    requires FansOut(x) && Sliced(c, x.partitions)
  {
    SystemInv(c, x, sys) && multiset(sys.out) == Union(DeliveredRows(c, x, sys))
  }

  lemma StepAccounts<H>(c: Cluster<H>, x: Inner, sys: System<H>, i: nat)
    requires FansOut(x) && Sliced(c, x.partitions) && Accounted(c, x, sys) && i < x.partitions
    ensures Accounted(c, x, StepPart(c, x, sys, i))
  {
    StepKeeps(c, x, sys, i);
    if !sys.parts[i].ended {
      StepDelivered(c, x, sys, i);
      var batch := NextPage(SliceWorld(c, x.partitions, i), x, sys.parts[i].session).0;
      UnionExtend(DeliveredRows(c, x, sys), i, if batch.Some? then batch.value else []);
    }
  }

  // ----- Every interleaving

  function Interleave<H>(c: Cluster<H>, x: Inner, sys: System<H>, schedule: seq<nat>): (end: System<H>)
    requires FansOut(x) && Sliced(c, x.partitions) && SystemInv(c, x, sys)
    requires forall k :: 0 <= k < |schedule| ==> schedule[k] < x.partitions
    ensures SystemInv(c, x, end)
    decreases |schedule|
  {
    if schedule == [] then sys
    else
      StepKeeps(c, x, sys, schedule[0]);
      Interleave(c, x, StepPart(c, x, sys, schedule[0]), schedule[1..])
  }

  lemma {:induction false} InterleaveAccounts<H>(c: Cluster<H>, x: Inner, sys: System<H>, schedule: seq<nat>)
    requires FansOut(x) && Sliced(c, x.partitions) && Accounted(c, x, sys)
    requires forall k :: 0 <= k < |schedule| ==> schedule[k] < x.partitions
    ensures Accounted(c, x, Interleave(c, x, sys, schedule))
    decreases |schedule|
  {
    if schedule != [] {
      StepAccounts(c, x, sys, schedule[0]);
      InterleaveAccounts(c, x, StepPart(c, x, sys, schedule[0]), schedule[1..]);
    }
  }

  function AllSlices<H>(hits: seq<H>, slice: seq<nat>, n: nat): seq<seq<H>>
    requires |slice| == |hits|
  {
    seq(n, i requires 0 <= i < n => SliceHits(hits, slice, i))
  }

  lemma LastHitJoinsOneSlice<H>(hits: seq<H>, slice: seq<nat>, n: nat)
    requires |slice| == |hits| > 0 && slice[|hits| - 1] < n
    ensures var k := |hits| - 1;
            var before := AllSlices(hits[..k], slice[..k], n);
            AllSlices(hits, slice, n) == before[slice[k] := before[slice[k]] + [hits[k]]]
  {
    var k := |hits| - 1;
    var before := AllSlices(hits[..k], slice[..k], n);
    forall i | 0 <= i < n
      ensures AllSlices(hits, slice, n)[i] == if i == slice[k] then before[i] + [hits[k]] else before[i]
    {
      assert before[i] + [] == before[i];
    }
  }

  /** The slices hold every hit exactly as often as the search does. */
  lemma {:induction false} SlicesPartition<H>(hits: seq<H>, slice: seq<nat>, n: nat)
    requires |slice| == |hits| && forall k :: 0 <= k < |slice| ==> slice[k] < n
    ensures Union(AllSlices(hits, slice, n)) == multiset(hits)
    decreases |hits|
  {
    if hits == [] {
      UnionOfNothing(AllSlices(hits, slice, n));
    } else {
      var k := |hits| - 1;
      assert slice[k] < n;
      SlicesPartition(hits[..k], slice[..k], n);
      LastHitJoinsOneSlice(hits, slice, n);
      UnionExtend(AllSlices(hits[..k], slice[..k], n), slice[k], [hits[k]]);
      assert hits == hits[..k] + [hits[k]];
    }
  }

  lemma EndedDeliversSlices<H>(c: Cluster<H>, x: Inner, sys: System<H>)
    requires FansOut(x) && Sliced(c, x.partitions) && SystemInv(c, x, sys) && AllEnded(sys)
    ensures DeliveredRows(c, x, sys) == AllSlices(c.hits, c.slice, x.partitions)
  {
    forall i | 0 <= i < x.partitions
      ensures PartRows(c, x, sys, i) == SliceHits(c.hits, c.slice, i)
    {
      assert PartInv(SliceWorld(c, x.partitions, i), x, sys.parts[i]);
    }
  }

  lemma BeginAccounts<H>(c: Cluster<H>, x: Inner)
    requires FansOut(x) && Sliced(c, x.partitions)
    ensures Accounted(c, x, Begin(x))
  {
    UnionOfNothing(DeliveredRows(c, x, Begin(x)));
  }

  /** Over every interleaving of the partitions' steps: once all streams have ended, the rows emitted
      are exactly the hits of the search, each as often as it occurs there, and every partition has
      cleared the cursor it opened. */
  lemma EveryInterleavingIsComplete<H>(c: Cluster<H>, x: Inner, schedule: seq<nat>)
    requires FansOut(x) && Sliced(c, x.partitions)
    requires forall k :: 0 <= k < |schedule| ==> schedule[k] < x.partitions
    ensures SystemInv(c, x, Begin(x))
    ensures var end := Interleave(c, x, Begin(x), schedule);
            AllEnded(end) ==>
              && multiset(end.out) == multiset(c.hits)
              && forall i :: 0 <= i < x.partitions ==> Ended(x, end.parts[i].session)
  {
    BeginAccounts(c, x);
    InterleaveAccounts(c, x, Begin(x), schedule);
    var end := Interleave(c, x, Begin(x), schedule);
    if AllEnded(end) {
      EndedDeliversSlices(c, x, end);
      SlicesPartition(c.hits, c.slice, x.partitions);
      forall i | 0 <= i < x.partitions ensures Ended(x, end.parts[i].session) {
        assert PartInv(SliceWorld(c, x.partitions, i), x, end.parts[i]);
      }
    }
  }

  lemma {:induction false} UnionMember<H>(rows: seq<seq<H>>, h: H) returns (i: nat)
    requires h in Union(rows)
    ensures i < |rows| && h in rows[i]
  {
    var k := |rows| - 1;
    if h in rows[k] {
      i := k;
    } else {
      i := UnionMember(rows[..k], h);
    }
  }

  lemma {:induction false} SliceMember<H>(hits: seq<H>, slice: seq<nat>, i: nat, h: H)
    requires |slice| == |hits| && h in SliceHits(hits, slice, i)
    ensures h in hits
  {
    var k := |hits| - 1;
    if h != hits[k] {
      SliceMember(hits[..k], slice[..k], i, h);
    }
  }

  lemma DeliveredMember<H>(c: Cluster<H>, x: Inner, sys: System<H>, h: H)
    requires FansOut(x) && Sliced(c, x.partitions) && SystemInv(c, x, sys)
    requires h in Union(DeliveredRows(c, x, sys))
    ensures h in c.hits
  {
    var i := UnionMember(DeliveredRows(c, x, sys), h);
    assert h in PartRows(c, x, sys, i);
    SliceMember(c.hits, c.slice, i, h);
  }

  /** At any point of any interleaving, finished or not, every row emitted is a hit of the search. */
  lemma EmittedAreHits<H>(c: Cluster<H>, x: Inner, schedule: seq<nat>)
    requires FansOut(x) && Sliced(c, x.partitions)
    requires forall k :: 0 <= k < |schedule| ==> schedule[k] < x.partitions
    ensures SystemInv(c, x, Begin(x))
    ensures forall h :: h in Interleave(c, x, Begin(x), schedule).out ==> h in c.hits
  {
    BeginAccounts(c, x);
    InterleaveAccounts(c, x, Begin(x), schedule);
    var end := Interleave(c, x, Begin(x), schedule);
    forall h | h in end.out ensures h in c.hits {
      assert h in multiset(end.out);
      DeliveredMember(c, x, end, h);
    }
  }

  // ----- Progress

  function Sum(ns: seq<nat>): nat {
    if ns == [] then 0 else Sum(ns[..|ns| - 1]) + ns[|ns| - 1]
  }

  lemma {:induction false} SumUpdate(ns: seq<nat>, i: nat, v: nat)
    requires i < |ns|
    ensures Sum(ns[i := v]) == Sum(ns) - ns[i] + v
  {
    var k := |ns| - 1;
    if i == k {
      assert ns[i := v][..k] == ns[..k];
    } else {
      assert ns[i := v][..k] == ns[..k][i := v];
      SumUpdate(ns[..k], i, v);
    }
  }

  lemma {:induction false} UnionSize<H>(rows: seq<seq<H>>, ns: seq<nat>)
    requires |ns| == |rows| && forall i :: 0 <= i < |ns| ==> ns[i] == |rows[i]| + 1
    ensures Sum(ns) == |Union(rows)| + |rows|
  {
    if rows != [] {
      UnionSize(rows[..|rows| - 1], ns[..|ns| - 1]);
    }
  }

  /** An upper bound on the steps a partition can still take. */
  function PartLeft<H>(w: World<H>, x: Inner, p: Part): nat
    requires PartInv(w, x, p)
  {
    if p.ended then 0 else |w.hits| - p.session.server.pos + 1
  }

  function StepsLeft<H>(c: Cluster<H>, x: Inner, sys: System<H>): seq<nat>
    requires FansOut(x) && Sliced(c, x.partitions) && SystemInv(c, x, sys)
  {
    seq(x.partitions, i requires 0 <= i < x.partitions => PartLeft(SliceWorld(c, x.partitions, i), x, sys.parts[i]))
  }

  lemma PartUsesOne<H>(w: World<H>, x: Inner, p: Part)
    requires FansOut(x) && PartInv(w, x, p) && !p.ended
    ensures var (batch, s') := NextPage(w, x, p.session);
            PartInv(w, x, Part(s', batch.None?)) && PartLeft(w, x, Part(s', batch.None?)) < PartLeft(w, x, p)
  {
    PartStep(w, x, p);
  }

  /** Replacing one partition replaces one bound. */
  lemma LeftAfter<H>(c: Cluster<H>, x: Inner, sys: System<H>, i: nat, p: Part, out: seq<H>)
    requires FansOut(x) && Sliced(c, x.partitions) && SystemInv(c, x, sys) && i < x.partitions
    requires PartInv(SliceWorld(c, x.partitions, i), x, p)
    ensures var sys' := System(sys.parts[i := p], out);
            && SystemInv(c, x, sys')
            && StepsLeft(c, x, sys') == StepsLeft(c, x, sys)[i := PartLeft(SliceWorld(c, x.partitions, i), x, p)]
  {
  }

  lemma StepUsesOne<H>(c: Cluster<H>, x: Inner, sys: System<H>, i: nat) returns (v: nat)
    requires FansOut(x) && Sliced(c, x.partitions) && SystemInv(c, x, sys) && i < x.partitions
    requires !sys.parts[i].ended
    ensures SystemInv(c, x, StepPart(c, x, sys, i))
    ensures v < StepsLeft(c, x, sys)[i]
    ensures StepsLeft(c, x, StepPart(c, x, sys, i)) == StepsLeft(c, x, sys)[i := v]
  {
    var w := SliceWorld(c, x.partitions, i);
    PartUsesOne(w, x, sys.parts[i]);
    var (batch, s') := NextPage(w, x, sys.parts[i].session);
    v := PartLeft(w, x, Part(s', batch.None?));
    LeftAfter(c, x, sys, i, Part(s', batch.None?), if batch.Some? then sys.out + batch.value else sys.out);
  }

  /** Every entry of the schedule names a partition whose stream has not ended. */
  predicate Productive<H>(c: Cluster<H>, x: Inner, sys: System<H>, schedule: seq<nat>)
    requires FansOut(x) && Sliced(c, x.partitions) && SystemInv(c, x, sys)
    decreases |schedule|
  {
    schedule != [] ==>
      && schedule[0] < x.partitions && !sys.parts[schedule[0]].ended
      && (StepKeeps(c, x, sys, schedule[0]); Productive(c, x, StepPart(c, x, sys, schedule[0]), schedule[1..]))
  }

  lemma {:induction false} ProductiveIsBounded<H>(c: Cluster<H>, x: Inner, sys: System<H>, schedule: seq<nat>)
    requires FansOut(x) && Sliced(c, x.partitions) && SystemInv(c, x, sys) && Productive(c, x, sys, schedule)
    ensures |schedule| <= Sum(StepsLeft(c, x, sys))
    decreases |schedule|
  {
    if schedule != [] {
      var i := schedule[0];
      var v := StepUsesOne(c, x, sys, i);
      SumUpdate(StepsLeft(c, x, sys), i, v);
      ProductiveIsBounded(c, x, StepPart(c, x, sys, i), schedule[1..]);
    }
  }

  /** No interleaving keeps a scan going for more than one step per hit and one per partition. */
  lemma EveryInterleavingEnds<H>(c: Cluster<H>, x: Inner, schedule: seq<nat>)
    requires FansOut(x) && Sliced(c, x.partitions)
    ensures SystemInv(c, x, Begin(x))
    ensures Productive(c, x, Begin(x), schedule) ==> |schedule| <= |c.hits| + x.partitions
  {
    BeginAccounts(c, x);
    if Productive(c, x, Begin(x), schedule) {
      ProductiveIsBounded(c, x, Begin(x), schedule);
      UnionSize(AllSlices(c.hits, c.slice, x.partitions), StepsLeft(c, x, Begin(x)));
      SlicesPartition(c.hits, c.slice, x.partitions);
    }
  }
}
