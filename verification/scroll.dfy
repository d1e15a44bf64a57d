/** The paging protocol on objects: a server that holds a cursor, and one partition's page state
    that `next_page` updates step by step (src/exec.rs). */
module Scroll {
  import opened Prelude
  import opened ExecPlan
  import opened Paging

  class ScrollServer<H> {
    const world: World<H>
    var pos: nat
    var size: nat
    var cursor: Option<Id>
    var log: seq<Event>

    constructor (world: World<H>)
      ensures this.world == world && State() == Server(0, 0, None, [])
    {
      this.world := world;
      pos, size, cursor, log := 0, 0, None, [];
    }

    function State(): Server
      reads this
    {
      Server(pos, size, cursor, log)
    }

    method Search(size: nat, scroll: bool, slice: Option<(nat, nat)>) returns (page: Page<H>)
      modifies this
      ensures (page, State()) == SearchPage(world, old(State()), size, scroll, slice)
    {
      cursor := if world.indexExists && scroll then world.ids(0) else None;
      pos := if world.indexExists && slice == world.slice then Min(size, |world.hits|) else 0;
      this.size := size;
      log := log + [Searched(size, scroll, slice, cursor)];
      page := Page(world.hits[..pos], cursor);
    }

    method Next(id: Id) returns (page: Page<H>)
      requires pos <= |world.hits|
      modifies this
      ensures (page, State()) == ScrollPage(world, old(State()), id)
    {
      if cursor != Some(id) {
        log := log + [Scrolled(id, None)];
        return Page([], None);
      }
      var got := world.ids(|log|);
      var start := pos;
      pos := Min(pos + size, |world.hits|);
      if got.Some? {
        cursor := got;
      }
      log := log + [Scrolled(id, got)];
      page := Page(world.hits[start..pos], got);
    }

    method Clear(id: Id)
      modifies this
      ensures State() == ClearScroll(old(State()), id)
    {
      if cursor == Some(id) {
        cursor := None;
      }
      log := log + [Cleared(id)];
    }
  }

  class PageState<H> {
    const inner: Inner
    const partition: nat
    const server: ScrollServer<H>
    var scrollId: Option<Id>
    var remaining: Option<nat>
    var started: bool
    var done: bool

    /** The state `execute` starts a partition in. */
    constructor (inner: Inner, partition: nat, server: ScrollServer<H>)
      ensures this.inner == inner && this.partition == partition && this.server == server
      ensures server.State() == Start(inner, partition).server ==> State() == Start(inner, partition)
    {
      this.inner, this.partition, this.server := inner, partition, server;
      scrollId, remaining, started, done := None, inner.fetch, false, false;
    }

    function State(): Session
      reads this, server
    {
      Session(Client(partition, started, done, scrollId, remaining), server.State())
    }

    ghost predicate Valid()
      reads this, server
    {
      Inv(server.world, inner, State())
    }

    method ReleaseCursor()
      modifies this, server
      ensures State() == Release(old(State()))
    {
      if scrollId.Some? {
        var id := scrollId.value;
        scrollId := None;
        server.Clear(id);
      }
    }

    /** The first half of `next_page`: the opening search or the next page of the cursor, whose id is
        kept if it names one. Without a cursor there is nothing to ask for. */
    method Receive(size: nat) returns (page: Option<Page<H>>)
      requires server.pos <= |server.world.hits| && size == RequestSize(inner, remaining)
      modifies this`started, this`scrollId, server
      ensures match Request(server.world, inner, old(State()))
              case None => page == None && State() == old(State())
              case Some((p, after)) =>
                page == Some(p) && server.State() == after && started
                && scrollId == if p.scrollId.Some? then p.scrollId else old(scrollId)
    {
      var received: Page<H>;
      if !started {
        started := true;
        var slice := if inner.partitions > 1 then Some((partition, inner.partitions)) else None;
        received := server.Search(size, !inner.singlePage, slice);
      } else {
        if scrollId.None? {
          return None;
        }
        received := server.Next(scrollId.value);
      }
      if received.scrollId.Some? {
        scrollId := received.scrollId;
      }
      page := Some(received);
    }

    /** `next_page`: the next batch of hits, or the end of the stream. */
    method Next() returns (batch: Option<seq<H>>)
      requires server.pos <= |server.world.hits|
      modifies this, server
      ensures (batch, State()) == NextPage(server.world, inner, old(State()))
    {
      if done || remaining == Some(0) {
        ReleaseCursor();
        return None;
      }
      var size := if remaining.Some? then Min(remaining.value, inner.pageSize) else inner.pageSize;
      var page := Receive(size);
      if page.None? {
        return None;
      }
      if page.value.hits == [] {
        done := true;
        ReleaseCursor();
        return None;
      }
      var hits := TruncateToFetch(page.value.hits, remaining);
      if remaining.Some? {
        remaining := Some(Max(remaining.value - |hits|, 0));
      }
      if inner.singlePage || |hits| < size || remaining == Some(0) {
        done := true;
      }
      batch := Some(hits);
    }

    /** The stream of a partition, read to its end. */
    method Drain() returns (batches: seq<seq<H>>)
      requires Valid()
      modifies this, server
      ensures Valid()
      ensures batches == Run(server.world, inner, old(State()))
      ensures State() == RunEnd(server.world, inner, old(State()))
      ensures Concat(batches) == Goal(server.world, inner)[Delivered(inner, old(State()))..]
    {
      ghost var start := State();
      RunBegins(server.world, inner, start);
      batches := [];
      var batch := Next();
      while batch.Some?
        invariant Valid()
        invariant Underway(server.world, inner, start, batches, batch, State())
        decreases batch.Some?, |server.world.hits| - server.pos
      {
        RunContinues(server.world, inner, start, batches, batch.value, State());
        batches := batches + [batch.value];
        batch := Next();
      }
      RunDelivers(server.world, inner, start);
    }
  }

  /** The run from `start` is the batches handed over, the one in hand and the run of what is left. */
  ghost predicate Underway<H>(w: World<H>, x: Inner, start: Session, batches: seq<seq<H>>, batch: Option<seq<H>>, s: Session) {
    && Inv(w, x, start) && Inv(w, x, s)
    && Run(w, x, start) == batches + (if batch.None? then [] else [batch.value] + Run(w, x, s))
    && RunEnd(w, x, start) == if batch.None? then s else RunEnd(w, x, s)
  }

  lemma RunBegins<H>(w: World<H>, x: Inner, start: Session)
    requires Inv(w, x, start)
    ensures var (out, s) := NextPage(w, x, start); Underway(w, x, start, [], out, s)
  {
    RunStep(w, x, start);
  }

  lemma RunContinues<H>(w: World<H>, x: Inner, start: Session, batches: seq<seq<H>>, batch: seq<H>, s: Session)
    requires Underway(w, x, start, batches, Some(batch), s)
    ensures var (out, s') := NextPage(w, x, s);
            && Underway(w, x, start, batches + [batch], out, s')
            && (out.Some? ==> s.server.pos < s'.server.pos <= |w.hits|)
  {
    Regroup(batches, batch, Run(w, x, s));
    RunStep(w, x, s);
  }

  datatype ExecuteError = NoSuchPartition(partition: nat, partitions: nat)

  /** `execute`: start the stream of one partition of the plan. */
  method Execute<H>(inner: Inner, partition: nat, server: ScrollServer<H>) returns (res: Result<PageState<H>, ExecuteError>)
    requires server.State() == Start(inner, partition).server
    ensures res.Ok? <==> partition < inner.partitions
    ensures res.Ok? ==> fresh(res.value) && res.value.server == server && res.value.inner == inner
    ensures res.Err? ==> res.error.partition == partition && res.error.partitions == inner.partitions
    ensures res.Ok? ==> res.value.partition == partition && res.value.State() == Start(inner, partition)
  {
    if partition >= inner.partitions {
      return Err(NoSuchPartition(partition, inner.partitions));
    }
    var state := new PageState(inner, partition, server);
    return Ok(state);
  }
}
