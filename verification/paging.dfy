/** The paging protocol (src/exec.rs, `next_page`): one partition's client talking to a server that
    holds a cursor over a snapshot of the matching hits.

    `NextPage` is the step of the protocol on values; `Scroll` runs it on objects. */
module Paging {
  import opened Prelude
  import opened ExecPlan

  type Id = string

  // ----- The server

  /** What the server answers from: the hits of one search or of one slice of it, frozen when the
      scroll opens; whether the index exists; and the cursor id carried by each response, by request number. A
      later response may repeat the id, change it or leave it out. */
  datatype World<H> = World(hits: seq<H>, slice: Option<(nat, nat)>, indexExists: bool, ids: nat -> Option<Id>)

  /** The response that opens a scroll names its cursor, and a missing index has no hits. */
  predicate WellBehaved<H>(w: World<H>) {
    w.ids(0).Some? && (!w.indexExists ==> w.hits == [])
  }

  datatype Event =
    | Searched(size: nat, scroll: bool, slice: Option<(nat, nat)>, got: Option<Id>)
    | Scrolled(sent: Id, got: Option<Id>)
    | Cleared(sent: Id)

  /** The server's side of one search: hits already returned, the page size of the first request,
      the open cursor, and the requests seen. */
  datatype Server = Server(pos: nat, size: nat, cursor: Option<Id>, log: seq<Event>)

  datatype Page<H> = Page(hits: seq<H>, scrollId: Option<Id>)

  /** The first page of a search. Asking for another slice finds none of this one's hits. */
  function SearchPage<H>(w: World<H>, s: Server, size: nat, scroll: bool, slice: Option<(nat, nat)>): (Page<H>, Server) {
    var got := if w.indexExists && scroll then w.ids(0) else None;
    var n := if w.indexExists && slice == w.slice then Min(size, |w.hits|) else 0;
    (Page(w.hits[..n], got), Server(n, size, got, s.log + [Searched(size, scroll, slice, got)]))
  }

  /** The next page of the size the scroll was opened with. An id that is not the open cursor's
      finds nothing. */
  function ScrollPage<H>(w: World<H>, s: Server, id: Id): (Page<H>, Server)
    requires s.pos <= |w.hits|
  {
    if s.cursor != Some(id) then (Page([], None), s.(log := s.log + [Scrolled(id, None)]))
    else
      var got := w.ids(|s.log|);
      var end := Min(s.pos + s.size, |w.hits|);
      (Page(w.hits[s.pos..end], got),
       Server(end, s.size, if got.Some? then got else s.cursor, s.log + [Scrolled(id, got)]))
  }

  function ClearScroll(s: Server, id: Id): Server {
    s.(cursor := if s.cursor == Some(id) then None else s.cursor, log := s.log + [Cleared(id)])
  }

  // ----- The client

  datatype Client = Client(partition: nat, started: bool, done: bool, scrollId: Option<Id>, remaining: Option<nat>)

  datatype Session = Session(client: Client, server: Server)

  function Start(x: Inner, partition: nat): Session {
    Session(Client(partition, false, false, None, x.fetch), Server(0, 0, None, []))
  }

  function TruncateToFetch<H>(hits: seq<H>, remaining: Option<nat>): seq<H> {
    if remaining.Some? && remaining.value < |hits| then hits[..remaining.value] else hits
  }

  function RequestSize(x: Inner, remaining: Option<nat>): nat {
    if remaining.Some? then Min(remaining.value, x.pageSize) else x.pageSize
  }

  function SliceOf(x: Inner, partition: nat): Option<(nat, nat)> {
    if x.partitions > 1 then Some((partition, x.partitions)) else None
  }

  /** Release the cursor, if one is held. */
  function Release(s: Session): Session {
    match s.client.scrollId
    case None => s
    case Some(id) => Session(s.client.(scrollId := None), ClearScroll(s.server, id))
  }

  /** The page a step receives: the first search, or the next page of the cursor. */
  function Request<H>(w: World<H>, x: Inner, s: Session): Option<(Page<H>, Server)>
    requires s.server.pos <= |w.hits|
  {
    if !s.client.started then
      Some(SearchPage(w, s.server, RequestSize(x, s.client.remaining), !x.singlePage, SliceOf(x, s.client.partition)))
    else match s.client.scrollId
      case None => None
      case Some(id) => Some(ScrollPage(w, s.server, id))
  }

  /** What a step does with the page it received. */
  function Accept<H>(x: Inner, c: Client, page: Page<H>, server: Server): (Option<seq<H>>, Session) {
    var id := if page.scrollId.Some? then page.scrollId else c.scrollId;
    if page.hits == [] then
      (None, Release(Session(Client(c.partition, true, true, id, c.remaining), server)))
    else
      var hits := TruncateToFetch(page.hits, c.remaining);
      var remaining := if c.remaining.Some? then Some(Max(c.remaining.value - |hits|, 0)) else None;
      var done := c.done || x.singlePage || |hits| < RequestSize(x, c.remaining) || remaining == Some(0);
      (Some(hits), Session(Client(c.partition, true, done, id, remaining), server))
  }

  /** One call of `next_page`: the next batch, or the end of the stream. */
  function NextPage<H>(w: World<H>, x: Inner, s: Session): (Option<seq<H>>, Session)
    requires s.server.pos <= |w.hits|
  {
    if s.client.done || s.client.remaining == Some(0) then (None, Release(s))
    else match Request(w, x, s)
      case None => (None, s)
      case Some((page, server)) => Accept(x, s.client, page, server)
  }

  // ----- What a stream is meant to deliver

  function Capped(n: nat, cap: Option<nat>): nat {
    if cap.Some? then Min(n, cap.value) else n
  }

  function Goal<H>(w: World<H>, x: Inner): seq<H> {
    var n := Capped(|w.hits|, x.fetch);
    w.hits[..if x.singlePage then Min(n, x.pageSize) else n]
  }

  /** Rows handed over so far; the server may already be past a cap. */
  function Delivered(x: Inner, s: Session): nat {
    Capped(s.server.pos, x.fetch)
  }

  // ----- The requests seen

  function Requests(log: seq<Event>): nat {
    if log == [] then 0 else Requests(log[..|log| - 1]) + if log[|log| - 1].Cleared? then 0 else 1
  }

  function Clears(log: seq<Event>): nat {
    if log == [] then 0 else Clears(log[..|log| - 1]) + if log[|log| - 1].Cleared? then 1 else 0
  }

  /** The newest id received and not yet cleared. */
  function Newest(log: seq<Event>): Option<Id> {
    if log == [] then None
    else match log[|log| - 1]
      case Searched(_, _, _, got) => got
      case Scrolled(_, got) => if got.Some? then got else Newest(log[..|log| - 1])
      case Cleared(_) => None
  }

  /** One search, first of all; every later request carries the newest id received, which has not
      been cleared. */
  predicate Disciplined(log: seq<Event>) {
    log != [] ==>
      var before := log[..|log| - 1];
      && Disciplined(before)
      && match log[|log| - 1]
         case Searched(_, _, _, _) => before == []
         case Scrolled(sent, _) => Newest(before) == Some(sent)
         case Cleared(sent) => Newest(before) == Some(sent)
  }

  predicate Opened(log: seq<Event>) {
    log != [] && log[0].Searched? && log[0].got.Some?
  }

  lemma LogStep(log: seq<Event>, e: Event)
    ensures var next := log + [e];
            && Requests(next) == Requests(log) + (if e.Cleared? then 0 else 1)
            && Clears(next) == Clears(log) + (if e.Cleared? then 1 else 0)
            && (Disciplined(next) <==> Disciplined(log) && match e
                case Searched(_, _, _, _) => log == []
                case Scrolled(sent, _) => Newest(log) == Some(sent)
                case Cleared(sent) => Newest(log) == Some(sent))
            && Newest(next) == (match e
                case Searched(_, _, _, got) => got
                case Scrolled(_, got) => if got.Some? then got else Newest(log)
                case Cleared(_) => None)
            && (log != [] ==> Opened(next) == Opened(log))
  {
    assert (log + [e])[..|log + [e]| - 1] == log;
  }

  // ----- The invariant

  /** The server answers the searches of this partition. */
  predicate Serves<H>(w: World<H>, x: Inner, partition: nat) {
    WellBehaved(w) && Sound(x) && w.slice == SliceOf(x, partition)
  }

  predicate Fresh(x: Inner, s: Session) {
    s == Start(x, s.client.partition)
  }

  /** The cursor bookkeeping of client, server and log agrees. */
  predicate Bookkeeping(s: Session) {
    && s.client.scrollId == s.server.cursor == Newest(s.server.log)
    && Disciplined(s.server.log)
    && s.server.log != []
    && Clears(s.server.log) + (if s.server.cursor.Some? then 1 else 0) == (if Opened(s.server.log) then 1 else 0)
  }

  /** Between two pages: everything so far came in full pages, and more is wanted. */
  predicate MidScan<H>(w: World<H>, x: Inner, s: Session) {
    && !x.singlePage
    && s.server.cursor.Some?
    && s.server.size == x.pageSize
    && s.server.pos == FullPages(Requests(s.server.log), x.pageSize)
    && (x.fetch.Some? ==> s.server.pos < x.fetch.value)
  }

  /** The rows of `n` full pages: `n * pageSize`, counted page by page. */
  function FullPages(n: nat, pageSize: nat): nat {
    if n == 0 then 0 else FullPages(n - 1, pageSize) + pageSize
  }

  /** Every request but the last brought a full page. */
  predicate WithinBudget(requests: nat, pageSize: nat, delivered: nat) {
    requests <= 1 || FullPages(requests - 1, pageSize) <= delivered
  }

  /** The stream has nothing more to deliver. */
  predicate Finished<H>(w: World<H>, x: Inner, s: Session)
  {
    && Delivered(x, s) == |Goal(w, x)|
    && (x.singlePage ==> !Opened(s.server.log) && Requests(s.server.log) == 1)
    && Requests(s.server.log) >= 1
    && WithinBudget(Requests(s.server.log), x.pageSize, Delivered(x, s))
  }

  predicate Inv<H>(w: World<H>, x: Inner, s: Session) {
    && Serves(w, x, s.client.partition)
    && s.server.pos <= |w.hits|
    && (!s.client.started ==> Fresh(x, s))
    && (s.client.started ==>
          && Bookkeeping(s)
          && x.fetch != Some(0)
          && s.client.remaining == (if x.fetch.Some? then Some(Max(x.fetch.value - s.server.pos, 0)) else None)
          && (if s.client.done then Finished(w, x, s) else MidScan(w, x, s)))
  }

  lemma ReleaseKeeps<H>(w: World<H>, x: Inner, s: Session)
    requires Inv(w, x, s) && (s.client.started ==> s.client.done)
    ensures Inv(w, x, Release(s)) && Release(s).server.cursor == None
    ensures Release(s).server.pos == s.server.pos && Release(s).client.started == s.client.started
    ensures Requests(Release(s).server.log) == Requests(s.server.log)
  {
    if s.client.scrollId.Some? {
      LogStep(s.server.log, Cleared(s.client.scrollId.value));
    }
  }

  // ----- One step

  /** What one call hands over and how far it moves the stream. */
  ghost predicate StepDelivers<H>(w: World<H>, x: Inner, s: Session, out: Option<seq<H>>, s': Session)
    requires Inv(w, x, s) && Inv(w, x, s')
  {
    match out
    case Some(batch) =>
      && 1 <= |batch| <= x.pageSize
      && s'.server.pos > s.server.pos
      && Delivered(x, s) < Delivered(x, s') <= |Goal(w, x)|
      && batch == Goal(w, x)[Delivered(x, s)..Delivered(x, s')]
    case None =>
      && Delivered(x, s) == Delivered(x, s') == |Goal(w, x)|
      && Ended(x, s')
  }

  /** How a stream ends: nothing is open, and every cursor opened has been cleared once. Nothing at
      all was requested exactly when the fetch is 0. */
  predicate Ended(x: Inner, s: Session) {
    && s.server.cursor == None
    && Newest(s.server.log) == None
    && Disciplined(s.server.log)
    && Clears(s.server.log) == (if Opened(s.server.log) then 1 else 0)
    && (x.singlePage ==> !Opened(s.server.log) && Requests(s.server.log) <= 1)
    && (s.server.log == [] <==> x.fetch == Some(0))
    && WithinBudget(Requests(s.server.log), x.pageSize, Delivered(x, s))
  }

  lemma FirstLog(e: Event)
    requires e.Searched?
    ensures Requests([e]) == 1 && Clears([e]) == 0 && Disciplined([e]) && Newest([e]) == e.got
    ensures Opened([e]) <==> e.got.Some?
  {
    LogStep([], e);
    assert [] + [e] == [e];
  }

  /** The opening search, with or without hits. */
  lemma FirstPage<H>(w: World<H>, x: Inner, partition: nat, page: Page<H>, server: Server)
    requires Serves(w, x, partition) && x.fetch != Some(0)
    requires (page, server) ==
             SearchPage(w, Start(x, partition).server, RequestSize(x, x.fetch), !x.singlePage, w.slice)
    ensures var size := RequestSize(x, x.fetch);
            && 1 <= size <= x.pageSize
            && server.pos == |page.hits| == Min(size, |w.hits|)
            && page.hits == w.hits[..server.pos]
            && server.size == size && server.cursor == page.scrollId
            && (page.scrollId.Some? <==> w.indexExists && !x.singlePage)
            && Requests(server.log) == 1 && Clears(server.log) == 0 && Disciplined(server.log)
            && Newest(server.log) == page.scrollId && (Opened(server.log) <==> page.scrollId.Some?)
            && server.log != []
  {
    FirstLog(Searched(RequestSize(x, x.fetch), !x.singlePage, w.slice, page.scrollId));
    assert server.log == [Searched(RequestSize(x, x.fetch), !x.singlePage, w.slice, page.scrollId)];
  }

  lemma FirstRequestKeeps<H>(w: World<H>, x: Inner, partition: nat, page: Page<H>, server: Server)
    requires Serves(w, x, partition) && x.fetch != Some(0)
    requires (page, server) ==
             SearchPage(w, Start(x, partition).server, RequestSize(x, x.fetch), !x.singlePage, w.slice)
    ensures Inv(w, x, Accept(x, Start(x, partition).client, page, server).1)
  {
    FirstPage(w, x, partition, page, server);
    if page.hits == [] {
      var held := Session(Client(partition, true, true, page.scrollId, x.fetch), server);
      assert Inv(w, x, held);
      ReleaseKeeps(w, x, held);
    }
  }

  lemma FirstPageDelivers<H>(w: World<H>, x: Inner, partition: nat, page: Page<H>, server: Server)
    requires Serves(w, x, partition) && x.fetch != Some(0) && page.hits != []
    requires (page, server) ==
             SearchPage(w, Start(x, partition).server, RequestSize(x, x.fetch), !x.singlePage, w.slice)
    ensures var (out, s') := Accept(x, Start(x, partition).client, page, server);
            && out == Some(page.hits)
            && s'.server == server
            && 1 <= |page.hits| <= x.pageSize
            && Delivered(x, s') == |page.hits| <= |Goal(w, x)|
            && page.hits == Goal(w, x)[..|page.hits|]
  {
    FirstPage(w, x, partition, page, server);
  }

  lemma FirstPageEmpty<H>(w: World<H>, x: Inner, partition: nat, page: Page<H>, server: Server)
    requires Serves(w, x, partition) && x.fetch != Some(0) && page.hits == []
    requires (page, server) ==
             SearchPage(w, Start(x, partition).server, RequestSize(x, x.fetch), !x.singlePage, w.slice)
    ensures var (out, s') := Accept(x, Start(x, partition).client, page, server);
            && out == None && w.hits == []
            && s'.server.pos == 0 && Ended(x, s')
  {
    FirstPage(w, x, partition, page, server);
    var held := Session(Client(partition, true, true, page.scrollId, x.fetch), server);
    assert Inv(w, x, held);
    ReleaseKeeps(w, x, held);
  }

  lemma FirstRequest<H>(w: World<H>, x: Inner, s: Session)
    requires Inv(w, x, s) && !s.client.started && s.client.remaining != Some(0)
    ensures var (out, s') := NextPage(w, x, s);
            Inv(w, x, s') && StepDelivers(w, x, s, out, s')
  {
    var partition := s.client.partition;
    var (page, server) := SearchPage(w, s.server, RequestSize(x, x.fetch), !x.singlePage, w.slice);
    FirstRequestKeeps(w, x, partition, page, server);
    if page.hits == [] {
      FirstPageEmpty(w, x, partition, page, server);
    } else {
      FirstPageDelivers(w, x, partition, page, server);
    }
  }

  /** A non-empty page in the middle of a scan: where it leaves the stream. The server keeps the
      first page size while the client's own `size` shrinks with what remains; a batch shorter than
      `size` still means that the snapshot is exhausted. */
  lemma NextPageEndsRight<H>(w: World<H>, x: Inner, s: Session)
    requires Inv(w, x, s) && s.client.started && !s.client.done
    requires s.server.pos < |w.hits|
    ensures var end := Min(s.server.pos + x.pageSize, |w.hits|);
            var batch := TruncateToFetch(w.hits[s.server.pos..end], s.client.remaining);
            && |batch| == Capped(end, x.fetch) - s.server.pos
            && batch == Goal(w, x)[s.server.pos..Capped(end, x.fetch)]
            && 1 <= |batch| <= x.pageSize
            && (|batch| < RequestSize(x, s.client.remaining) ==> end == |w.hits|)
            && (|batch| >= RequestSize(x, s.client.remaining) && !(x.fetch.Some? && end >= x.fetch.value) ==>
                  end == s.server.pos + x.pageSize)
  {
    var pos, end := s.server.pos, Min(s.server.pos + x.pageSize, |w.hits|);
    var stop := Capped(end, x.fetch);
    TakeOfSlice(w.hits, pos, stop, end);
    SliceOfTake(w.hits, Capped(|w.hits|, x.fetch), pos, stop);
  }

  lemma SliceOfTake<T>(xs: seq<T>, n: nat, a: nat, b: nat)
    requires a <= b <= n <= |xs|
    ensures xs[..n][a..b] == xs[a..b]
  {
  }

  lemma TakeOfSlice<T>(xs: seq<T>, a: nat, b: nat, c: nat)
    requires a <= b <= c <= |xs|
    ensures xs[a..c][..b - a] == xs[a..b]
    ensures b == c ==> xs[a..c] == xs[a..b]
  {
  }

  lemma NextRequest<H>(w: World<H>, x: Inner, s: Session)
    requires Inv(w, x, s) && s.client.started && !s.client.done
    ensures var (out, s') := NextPage(w, x, s);
            Inv(w, x, s') && StepDelivers(w, x, s, out, s')
  {
    var (page, server) := ScrollPage(w, s.server, s.client.scrollId.value);
    if page.hits == [] {
      EmptyPage(w, x, s, page, server);
    } else {
      NonEmptyPage(w, x, s, page, server);
    }
  }

  lemma NonEmptyPage<H>(w: World<H>, x: Inner, s: Session, page: Page<H>, server: Server)
    requires Inv(w, x, s) && s.client.started && !s.client.done
    requires (page, server) == ScrollPage(w, s.server, s.client.scrollId.value)
    requires page.hits != []
    ensures var (out, s') := Accept(x, s.client, page, server);
            Inv(w, x, s') && StepDelivers(w, x, s, out, s')
  {
    NonEmptyPageKeeps(w, x, s, page, server);
    NextPageEndsRight(w, x, s);
  }

  lemma NonEmptyPageKeeps<H>(w: World<H>, x: Inner, s: Session, page: Page<H>, server: Server)
    requires Inv(w, x, s) && s.client.started && !s.client.done
    requires (page, server) == ScrollPage(w, s.server, s.client.scrollId.value)
    requires page.hits != []
    ensures Inv(w, x, Accept(x, s.client, page, server).1)
  {
    LogStep(s.server.log, Scrolled(s.client.scrollId.value, page.scrollId));
    NextPageEndsRight(w, x, s);
  }

  lemma EmptyPageFinishes<H>(w: World<H>, x: Inner, s: Session, page: Page<H>, server: Server)
    requires Inv(w, x, s) && s.client.started && !s.client.done
    requires (page, server) == ScrollPage(w, s.server, s.client.scrollId.value)
    requires page.hits == []
    ensures server.pos == s.server.pos == |w.hits| == Delivered(x, s) == |Goal(w, x)|
    ensures Requests(server.log) >= 1 && WithinBudget(Requests(server.log), x.pageSize, server.pos)
  {
    LogStep(s.server.log, Scrolled(s.client.scrollId.value, page.scrollId));
    assert Requests(server.log) - 1 == Requests(s.server.log);
  }

  lemma EmptyPage<H>(w: World<H>, x: Inner, s: Session, page: Page<H>, server: Server)
    requires Inv(w, x, s) && s.client.started && !s.client.done
    requires (page, server) == ScrollPage(w, s.server, s.client.scrollId.value)
    requires page.hits == []
    ensures var (out, s') := Accept(x, s.client, page, server);
            Inv(w, x, s') && StepDelivers(w, x, s, out, s')
  {
    var log, c := s.server.log, s.client;
    LogStep(log, Scrolled(c.scrollId.value, page.scrollId));
    var id := if page.scrollId.Some? then page.scrollId else c.scrollId;
    var held := Session(Client(c.partition, true, true, id, c.remaining), server);
    EmptyPageFinishes(w, x, s, page, server);
    assert Finished(w, x, held);
    assert Inv(w, x, held);
    ReleaseKeeps(w, x, held);
  }

  /** Every call of `next_page` keeps the invariant and hands over the next rows of the goal. */
  lemma StepIsRight<H>(w: World<H>, x: Inner, s: Session)
    requires Inv(w, x, s)
    ensures var (out, s') := NextPage(w, x, s);
            Inv(w, x, s') && StepDelivers(w, x, s, out, s')
  {
    if s.client.started && s.client.done {
      ReleaseKeeps(w, x, s);
    } else if s.client.started {
      NextRequest(w, x, s);
    } else if s.client.remaining != Some(0) {
      FirstRequest(w, x, s);
    }
  }

  // ----- Whole runs

  /** The batches of a stream, until it ends. */
  function Run<H>(w: World<H>, x: Inner, s: Session): seq<seq<H>>
    requires Inv(w, x, s)
    decreases |w.hits| - s.server.pos
  {
    var (out, s') := NextPage(w, x, s);
    StepIsRight(w, x, s);
    if out.None? then [] else [out.value] + Run(w, x, s')
  }

  function RunEnd<H>(w: World<H>, x: Inner, s: Session): Session
    requires Inv(w, x, s)
    decreases |w.hits| - s.server.pos
  {
    var (out, s') := NextPage(w, x, s);
    StepIsRight(w, x, s);
    if out.None? then s' else RunEnd(w, x, s')
  }

  /** A run is its first step followed by the run of what is left. */
  lemma RunStep<H>(w: World<H>, x: Inner, s: Session)
    requires Inv(w, x, s)
    ensures var (out, s') := NextPage(w, x, s);
            && Inv(w, x, s')
            && Run(w, x, s) == (if out.None? then [] else [out.value] + Run(w, x, s'))
            && RunEnd(w, x, s) == (if out.None? then s' else RunEnd(w, x, s'))
            && (out.Some? ==> s.server.pos < s'.server.pos <= |w.hits|)
  {
    StepIsRight(w, x, s);
  }

  function Concat<H>(batches: seq<seq<H>>): seq<H> {
    if batches == [] then [] else batches[0] + Concat(batches[1..])
  }

  /** The batches of a stream concatenate to the goal: the first `fetch` hits in order, or all of
      them, or one page of them. */
  lemma {:induction false} RunDelivers<H>(w: World<H>, x: Inner, s: Session)
    requires Inv(w, x, s)
    ensures Delivered(x, s) <= |Goal(w, x)|
    ensures Concat(Run(w, x, s)) == Goal(w, x)[Delivered(x, s)..]
    decreases |w.hits| - s.server.pos
  {
    var (out, s') := NextPage(w, x, s);
    StepIsRight(w, x, s);
    if out.Some? {
      RunDelivers(w, x, s');
      Rejoin(Goal(w, x), Delivered(x, s), Delivered(x, s'));
    }
  }

  lemma Rejoin<T>(xs: seq<T>, a: nat, b: nat)
    requires a <= b <= |xs|
    ensures xs[a..] == xs[a..b] + xs[b..]
  {
  }

  lemma {:induction false} RunBatches<H>(w: World<H>, x: Inner, s: Session)
    requires Inv(w, x, s)
    ensures forall b :: b in Run(w, x, s) ==> 1 <= |b| <= x.pageSize
    decreases |w.hits| - s.server.pos
  {
    var (out, s') := NextPage(w, x, s);
    StepIsRight(w, x, s);
    if out.Some? {
      RunBatches(w, x, s');
    }
  }

  lemma {:induction false} RunEnds<H>(w: World<H>, x: Inner, s: Session)
    requires Inv(w, x, s)
    ensures var end := RunEnd(w, x, s);
            Ended(x, end) && Delivered(x, end) == |Goal(w, x)|
    decreases |w.hits| - s.server.pos
  {
    var (out, s') := NextPage(w, x, s);
    StepIsRight(w, x, s);
    if out.Some? {
      RunEnds(w, x, s');
    }
  }

  lemma StartIsReady<H>(w: World<H>, x: Inner, partition: nat)
    requires Serves(w, x, partition)
    ensures Inv(w, x, Start(x, partition)) && Delivered(x, Start(x, partition)) == 0
  {
  }

  lemma {:induction false} FullPagesIsProduct(n: nat, pageSize: nat)
    ensures FullPages(n, pageSize) == n * pageSize
  {
    if n > 0 {
      FullPagesIsProduct(n - 1, pageSize);
      assert n * pageSize == (n - 1) * pageSize + pageSize;
    }
  }

  lemma MulMonotone(a: int, b: int, p: nat)
    ensures a >= b ==> a * p >= b * p
  {
    if a >= b {
      assert a * p == b * p + (a - b) * p;
    }
  }

  lemma FullPagesBound(n: nat, pageSize: nat, delivered: nat)
    requires pageSize >= 1 && FullPages(n, pageSize) <= delivered
    ensures n <= delivered / pageSize
  {
    FullPagesIsProduct(n, pageSize);
    var q := delivered / pageSize;
    assert delivered < q * pageSize + pageSize == (q + 1) * pageSize;
    MulMonotone(n, q + 1, pageSize);
  }

  /** The goal of a stream in order, in batches no larger than a page. */
  lemma StreamIsComplete<H>(w: World<H>, x: Inner, partition: nat)
    requires Serves(w, x, partition)
    ensures Inv(w, x, Start(x, partition))
    ensures var batches := Run(w, x, Start(x, partition));
            && Concat(batches) == Goal(w, x)
            && forall b :: b in batches ==> 1 <= |b| <= x.pageSize
  {
    StartIsReady(w, x, partition);
    RunDelivers(w, x, Start(x, partition));
    RunBatches(w, x, Start(x, partition));
  }

  /** What the server sees of a whole stream: every request carries the newest cursor id, none is used
      after it is cleared, and the last is cleared exactly once; a single-page read opens none. There
      is at most one request beyond the full pages delivered, and none at all for a fetch of 0. */
  lemma StreamIsDisciplined<H>(w: World<H>, x: Inner, partition: nat)
    requires Serves(w, x, partition)
    ensures Inv(w, x, Start(x, partition))
    ensures var log := RunEnd(w, x, Start(x, partition)).server.log;
            && Disciplined(log) && Newest(log) == None
            && Clears(log) == (if Opened(log) then 1 else 0)
            && Requests(log) <= |Goal(w, x)| / x.pageSize + 1
            && (log == [] <==> x.fetch == Some(0))
            && (x.singlePage ==> !Opened(log) && Requests(log) <= 1)
  {
    StartIsReady(w, x, partition);
    RunEnds(w, x, Start(x, partition));
    var log := RunEnd(w, x, Start(x, partition)).server.log;
    FullPagesBound(if Requests(log) > 1 then Requests(log) - 1 else 0, x.pageSize, |Goal(w, x)|);
  }

  /** Outside that assumption: when the opening response names no cursor, the stream ends after its first
      page without an error, so it is complete exactly when one page was enough. */
  lemma WithoutCursorOnePage<H>(w: World<H>, x: Inner, partition: nat)
    requires Sound(x) && w.slice == SliceOf(x, partition) && w.indexExists && w.ids(0).None?
    requires !x.singlePage && x.fetch != Some(0) && w.hits != []
    ensures var (first, s) := NextPage(w, x, Start(x, partition));
            && first == Some(w.hits[..Min(RequestSize(x, x.fetch), |w.hits|)])
            && s.server.pos <= |w.hits|
            && NextPage(w, x, s).0 == None
            && (first.value == Goal(w, x) <==> |Goal(w, x)| <= x.pageSize)
  {
    var (first, s) := NextPage(w, x, Start(x, partition));
    assert |first.value| == Min(RequestSize(x, x.fetch), |w.hits|);
    assert |Goal(w, x)| == Capped(|w.hits|, x.fetch);
  }
}
