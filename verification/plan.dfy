/** The scan operator's settings and its builders (src/exec.rs, `from_inner`, `rebuild`, `with_*`),
    and how a table scan sets them (src/table.rs, `scan`). */
module ExecPlan {
  import opened Prelude
  import opened Table

  datatype Inner = Inner(pageSize: nat, fetch: Option<nat>, singlePage: bool, partitions: nat)

  function FromInner(inner: Inner): Inner {
    var partitions := if inner.fetch.Some? || inner.singlePage then 1 else Max(inner.partitions, 1);
    inner.(partitions := partitions)
  }

  /** A scan as it is before any builder call: one scroll of the whole result in pages of 5 000. */
  function New(): (inner: Inner)
    ensures inner == Inner(5_000, None, false, 1)
  {
    FromInner(Inner(DEFAULT_PAGE_SIZE, None, false, 1))
  }

  function Rebuild(inner: Inner, edit: Inner -> Inner): Inner {
    FromInner(edit(inner))
  }

  function WithPageSize(inner: Inner, n: nat): Inner {
    Rebuild(inner, (i: Inner) => i.(pageSize := Max(n, 1)))
  }

  function WithFetchLimit(inner: Inner, fetch: Option<nat>): Inner {
    Rebuild(inner, (i: Inner) => i.(fetch := fetch))
  }

  function WithSinglePage(inner: Inner, single: bool): Inner {
    Rebuild(inner, (i: Inner) => i.(singlePage := single))
  }

  function WithPartitions(inner: Inner, n: nat): Inner {
    Rebuild(inner, (i: Inner) => i.(partitions := Max(n, 1)))
  }

  /** A limit pushed down by the planner narrows the one already there. */
  function WithFetch(inner: Inner, limit: Option<nat>): Inner {
    WithFetchLimit(inner, Tighter(inner.fetch, limit))
  }

  function Tighter(a: Option<nat>, b: Option<nat>): Option<nat> {
    if a.Some? && b.Some? then Some(Min(a.value, b.value)) else if a.Some? then a else b
  }

  function Scan(p: Provider, limit: Option<nat>): Inner {
    WithPartitions(
      WithSinglePage(
        WithFetchLimit(WithPageSize(New(), p.pageSize), Tighter(limit, p.maxRows)),
        p.searchAfter.Some?),
      p.partitions)
  }

  // ----- Every chain of builder calls

  datatype Call =
    | PageSizeCall(n: nat)
    | FetchLimitCall(fetch: Option<nat>)
    | SinglePageCall(single: bool)
    | PartitionsCall(n: nat)
    | FetchCall(limit: Option<nat>)

  function Apply(inner: Inner, call: Call): Inner {
    match call
    case PageSizeCall(n) => WithPageSize(inner, n)
    case FetchLimitCall(f) => WithFetchLimit(inner, f)
    case SinglePageCall(s) => WithSinglePage(inner, s)
    case PartitionsCall(n) => WithPartitions(inner, n)
    case FetchCall(l) => WithFetch(inner, l)
  }

  function ApplyAll(inner: Inner, calls: seq<Call>): Inner
    decreases |calls|
  {
    if calls == [] then inner else ApplyAll(Apply(inner, calls[0]), calls[1..])
  }

  /** One stream whenever rows are capped or the caller pages, and never an empty page or plan. */
  predicate Sound(inner: Inner) {
    && inner.pageSize >= 1
    && inner.partitions >= 1
    && (inner.fetch.Some? || inner.singlePage ==> inner.partitions == 1)
  }

  lemma {:induction false} EveryChainIsSound(inner: Inner, calls: seq<Call>)
    requires Sound(inner)
    ensures Sound(ApplyAll(inner, calls))
    decreases |calls|
  {
    if calls != [] {
      EveryChainIsSound(Apply(inner, calls[0]), calls[1..]);
    }
  }

  // ----- What a chain leaves behind

  /** The setting after a chain of calls: the last call that sets it wins, and a pushed-down limit
      narrows the fetch. */
  function LastPageSize(calls: seq<Call>, before: nat): nat {
    if calls == [] then before
    else match calls[|calls| - 1]
      case PageSizeCall(n) => Max(n, 1)
      case _ => LastPageSize(calls[..|calls| - 1], before)
  }

  function LastSinglePage(calls: seq<Call>, before: bool): bool {
    if calls == [] then before
    else match calls[|calls| - 1]
      case SinglePageCall(s) => s
      case _ => LastSinglePage(calls[..|calls| - 1], before)
  }

  function LastFetch(calls: seq<Call>, before: Option<nat>): Option<nat> {
    if calls == [] then before
    else match calls[|calls| - 1]
      case FetchLimitCall(f) => f
      case FetchCall(l) => Tighter(LastFetch(calls[..|calls| - 1], before), l)
      case _ => LastFetch(calls[..|calls| - 1], before)
  }

  predicate NeedsOneStream(inner: Inner) {
    inner.fetch.Some? || inner.singlePage
  }

  lemma {:induction false} LastCallApplied(inner: Inner, calls: seq<Call>)
    requires calls != []
    ensures var k := |calls| - 1; ApplyAll(inner, calls) == Apply(ApplyAll(inner, calls[..k]), calls[k])
    decreases |calls|
  {
    var k := |calls| - 1;
    if k > 0 {
      LastCallApplied(Apply(inner, calls[0]), calls[1..]);
      assert calls[1..][..k - 1] == calls[..k][1..];
    }
  }

  /** Each builder changes its own setting and no other. */
  lemma {:induction false} ChainSettings(inner: Inner, calls: seq<Call>)
    ensures var e := ApplyAll(inner, calls);
            && e.pageSize == LastPageSize(calls, inner.pageSize)
            && e.singlePage == LastSinglePage(calls, inner.singlePage)
            && e.fetch == LastFetch(calls, inner.fetch)
    decreases |calls|
  {
    if calls != [] {
      LastCallApplied(inner, calls);
      ChainSettings(inner, calls[..|calls| - 1]);
    }
  }

  /** The position after the last call that sets the partitions, and what that call asks for. */
  function LastSet(calls: seq<Call>): (k: nat)
    ensures k <= |calls|
  {
    if calls == [] then 0
    else if calls[|calls| - 1].PartitionsCall? then |calls|
    else LastSet(calls[..|calls| - 1])
  }

  function LastPartitions(calls: seq<Call>, before: nat): nat {
    var k := LastSet(calls);
    if k > 0 && calls[k - 1].PartitionsCall? then Max(calls[k - 1].n, 1) else before
  }

  /** Some plan along the chain, from the last that sets the partitions on, needs one stream. */
  predicate NarrowedSince(inner: Inner, calls: seq<Call>) {
    exists k :: LastSet(calls) <= k <= |calls| && NeedsOneStream(ApplyAll(inner, calls[..k]))
  }

  lemma LastSetBefore(calls: seq<Call>)
    requires calls != [] && !calls[|calls| - 1].PartitionsCall?
    ensures LastSet(calls) == LastSet(calls[..|calls| - 1]) < |calls|
    ensures forall before :: LastPartitions(calls, before) == LastPartitions(calls[..|calls| - 1], before)
  {
  }

  lemma NarrowedBefore(inner: Inner, calls: seq<Call>)
    requires calls != [] && !calls[|calls| - 1].PartitionsCall?
    ensures NarrowedSince(inner, calls) <==>
            NarrowedSince(inner, calls[..|calls| - 1]) || NeedsOneStream(ApplyAll(inner, calls))
  {
    var front := calls[..|calls| - 1];
    LastSetBefore(calls);
    assert calls[..|calls|] == calls;
    assert forall k :: 0 <= k <= |front| ==> front[..k] == calls[..k];
  }

  /** After any chain the partitions are those last asked for, unless a plan from there on needed one stream: a
      cap that is lifted again leaves one partition behind, until partitions are asked for again. */
  lemma {:induction false} FanOutIsLostIff(inner: Inner, calls: seq<Call>)
    requires Sound(inner)
    ensures ApplyAll(inner, calls).partitions ==
            if NarrowedSince(inner, calls) then 1 else LastPartitions(calls, inner.partitions)
    decreases |calls|
  {
    assert calls[..|calls|] == calls;
    if calls != [] {
      var n := |calls| - 1;
      LastCallApplied(inner, calls);
      EveryChainIsSound(inner, calls[..n]);
      if !calls[n].PartitionsCall? {
        FanOutIsLostIff(inner, calls[..n]);
        LastSetBefore(calls);
        NarrowedBefore(inner, calls);
      }
    }
  }

  /** `least` is the smallest limit among `limits`, and absent exactly when they all are. */
  predicate IsLeastLimit(limits: seq<Option<nat>>, least: Option<nat>) {
    && (least.Some? ==> least in limits)
    && forall l :: l in limits && l.Some? ==> least.Some? && least.value <= l.value
  }

  function FetchCalls(limits: seq<Option<nat>>): seq<Call> {
    if limits == [] then [] else [FetchCall(limits[0])] + FetchCalls(limits[1..])
  }

  lemma {:induction false} FetchNarrows(inner: Inner, limits: seq<Option<nat>>, seen: seq<Option<nat>>)
    requires Sound(inner) && IsLeastLimit(seen, inner.fetch)
    ensures var e := ApplyAll(inner, FetchCalls(limits));
            && IsLeastLimit(seen + limits, e.fetch)
            && e.pageSize == inner.pageSize && e.singlePage == inner.singlePage
            && e.partitions == if e.fetch.Some? then 1 else inner.partitions
    decreases |limits|
  {
    if limits == [] {
      assert seen + limits == seen;
    } else {
      var next := Apply(inner, FetchCall(limits[0]));
      assert FetchCalls(limits)[1..] == FetchCalls(limits[1..]);
      assert seen + limits == (seen + [limits[0]]) + limits[1..];
      assert forall l :: l in seen + [limits[0]] <==> l in seen || l == limits[0];
      FetchNarrows(next, limits[1..], seen + [limits[0]]);
    }
  }

  /** A scan followed by any pushed-down limits stops after the least of all the limits given: the
      query's, the table's cap and the planner's. It fans out only when there is none. */
  lemma ScanKeepsTheLeastLimit(p: Provider, limit: Option<nat>, limits: seq<Option<nat>>)
    ensures var e := ApplyAll(Scan(p, limit), FetchCalls(limits));
            && Sound(e)
            && IsLeastLimit([limit, p.maxRows] + limits, e.fetch)
            && e.pageSize == Max(p.pageSize, 1)
            && e.singlePage == p.searchAfter.Some?
            && e.partitions == if e.fetch.Some? || e.singlePage then 1 else Max(p.partitions, 1)
  {
    EveryChainIsSound(Scan(p, limit), FetchCalls(limits));
    FetchNarrows(Scan(p, limit), limits, [limit, p.maxRows]);
  }
}
