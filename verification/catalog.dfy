/** The catalog of a cluster's indices (src/catalog.rs): a listing and a lazily filled cache behind
    two locks, shared by any number of `table` and `refresh` calls. Between two lock sections, and
    while a call waits for the cluster, any other call may run. */
module Catalog {
  import opened Prelude

  /** A table provider and the index it reads. `columns` stands for the schema derived from the
      index's mapping. */
  datatype Table = Table(index: string, columns: seq<string>)

  /** `table_provider(name)`: the table is built over the index asked for. */
  function Build(name: string, columns: seq<string>): Table {
    Table(name, columns)
  }

  function RetainListed<T>(tables: map<string, T>, listed: seq<string>): map<string, T> {
    map k | k in tables && k in listed :: tables[k]
  }

  /** What a lookup does, when nothing runs in between, to a listing and a cache: an unlisted name has no
      table, a cached table is returned as it is, and otherwise the columns fetched, if any, give the table
      of that name, which is cached. */
  predicate LooksUp(names: seq<string>, before: map<string, Table>, name: string, fetched: Option<seq<string>>,
                    answer: Option<Table>, after: map<string, Table>) {
    if name !in names then answer == None && after == before
    else if name in before then answer == Some(before[name]) && after == before
    else match fetched
      case None => answer == None && after == before
      case Some(columns) => answer == Some(Table(name, columns)) && after == before[name := Table(name, columns)]
  }

  /** What a refresh does, when nothing runs in between: the listing is the new one and the cache keeps
      exactly the listed tables. */
  predicate Refreshes(listed: seq<string>, before: map<string, Table>, names: seq<string>, after: map<string, Table>) {
    && names == listed
    && after.Keys <= before.Keys
    && forall k :: k in before ==> (k in after <==> k in listed) && (k in after ==> after[k] == before[k])
  }

  // ----- The lock sections

  class SchemaProvider {
    var names: seq<string>
    var tables: map<string, Table>

    /** Every cached table was built for the key it is cached under. */
    ghost predicate Valid()
      reads this
    {
      forall k :: k in tables ==> tables[k].index == k
    }

    constructor (names: seq<string>)
      ensures Valid() && this.names == names && tables == map[]
    {
      this.names := names;
      tables := map[];
    }

    method TableExist(name: string) returns (found: bool)
      ensures found <==> name in names
    {
      found := false;
      var i := 0;
      while i < |names| && !found
        invariant 0 <= i <= |names|
        invariant found <==> name in names[..i]
      {
        assert names[..i + 1] == names[..i] + [names[i]];
        found := names[i] == name;
        i := i + 1;
      }
      if !found {
        assert names[..i] == names;
      }
    }

    method Cached(name: string) returns (table: Option<Table>)
      ensures table == if name in tables then Some(tables[name]) else None
    {
      table := if name in tables then Some(tables[name]) else None;
    }

    method Insert(name: string, table: Table)
      modifies this`tables
      ensures tables == old(tables)[name := table]
    {
      tables := tables[name := table];
    }

    /** `retain`: visit every cached key and drop the unlisted ones. */
    method Retain(listed: seq<string>)
      modifies this`tables
      ensures tables == RetainListed(old(tables), listed)
    {
      var unseen := tables.Keys;
      while unseen != {}
        invariant unseen <= old(tables).Keys
        invariant tables == map k | k in old(tables) && (k in unseen || k in listed) :: old(tables)[k]
        decreases |unseen|
      {
        var k :| k in unseen;
        unseen := unseen - {k};
        if k !in listed {
          tables := tables - {k};
        }
      }
    }

    method Install(listed: seq<string>)
      modifies this`names
      ensures names == listed
    {
      names := listed;
    }

    /** `table` with nothing running in between. `fetched` is what the cluster answers for the
        mapping: the columns, or an error. */
    method LookUp(name: string, fetched: Result<seq<string>, string>) returns (res: Result<Option<Table>, string>)
      requires Valid()
      modifies this`tables
      ensures Valid()
      ensures LooksUp(names, old(tables), name, if fetched.Ok? then Some(fetched.value) else None,
                      if res.Ok? then res.value else None, tables)
      ensures res.Err? <==> name in names && name !in old(tables) && fetched.Err?
      ensures res.Err? ==> res.error == fetched.error
    {
      var found := TableExist(name);
      if !found {
        return Ok(None);
      }
      var cached := Cached(name);
      if cached.Some? {
        return Ok(cached);
      }
      if fetched.Err? {
        return Err(fetched.error);
      }
      var table := Build(name, fetched.value);
      Insert(name, table);
      res := Ok(Some(table));
    }

    /** `refresh` with nothing running in between. */
    method Refresh(listing: Result<seq<string>, string>) returns (res: Result<(), string>)
      requires Valid()
      modifies this
      ensures Valid()
      ensures listing.Ok? ==> res == Ok(()) && Refreshes(listing.value, old(tables), names, tables)
      ensures listing.Err? ==> res == Err(listing.error) && names == old(names) && tables == old(tables)
      ensures listing.Ok? ==> tables.Keys <= (set n | n in names)
    {
      if listing.Err? {
        return Err(listing.error);
      }
      Retain(listing.value);
      Install(listing.value);
      res := Ok(());
    }
  }

  // ----- Interleaved calls

  /** A cached table, when the lookup that built it found its name listed, and when it was inserted. */
  datatype Entry = Entry(table: Table, checkedAt: nat, insertedAt: nat)

  /** Where a call stands between two of its steps. */
  datatype Call =
    | Checked(name: string, checkedAt: nat)
    | Missed(name: string, checkedAt: nat)
    | Fetched(name: string, checkedAt: nat, table: Table)
    | Listed(listed: seq<string>)
    | Retained(listed: seq<string>, retainedAt: nat)
    | Returned

  /** A lookup that returned a table. */
  datatype Answer = Answer(name: string, checkedAt: nat, table: Table)

  /** The shared state, the calls in flight, the mappings the cluster has answered, by index, and when the latest installed listing was used to
      retain and was installed. */
  datatype State = State(
    names: seq<string>,
    tables: map<string, Entry>,
    calls: seq<Call>,
    answers: seq<Answer>,
    fetched: seq<(string, seq<string>)>,
    clock: nat,
    lastRetain: nat,
    lastInstall: nat)

  function Connect(names: seq<string>): State {
    State(names, map[], [], [], [], 1, 0, 0)
  }

  /** One step of some call. The cluster's answers are part of the event. */
  datatype Event =
    | StartLookup(name: string)
    | ReadCache(call: nat)
    | ReceiveMapping(call: nat, mapping: Option<seq<string>>)
    | InsertTable(call: nat)
    | ReceiveListing(listing: seq<string>)
    | RetainTables(call: nat)
    | InstallNames(call: nat)

  function SetCall(s: State, i: nat, c: Call): State
    requires i < |s.calls|
  {
    s.(calls := s.calls[i := c])
  }

  /** An event that names no call at that step changes nothing. */
  function Effect(s: State, e: Event): State {
    match e
    case StartLookup(name) =>
      if name in s.names then s.(calls := s.calls + [Checked(name, s.clock)]) else s
    case ReadCache(i) =>
      if !(i < |s.calls| && s.calls[i].Checked?) then s
      else
        var c := s.calls[i];
        if c.name in s.tables then
          SetCall(s, i, Returned).(answers := s.answers + [Answer(c.name, c.checkedAt, s.tables[c.name].table)])
        else SetCall(s, i, Missed(c.name, c.checkedAt))
    case ReceiveMapping(i, mapping) =>
      if !(i < |s.calls| && s.calls[i].Missed?) then s
      else
        var c := s.calls[i];
        if mapping.None? then SetCall(s, i, Returned)
        else
          SetCall(s, i, Fetched(c.name, c.checkedAt, Build(c.name, mapping.value))).(
            fetched := s.fetched + [(c.name, mapping.value)])
    case InsertTable(i) =>
      if !(i < |s.calls| && s.calls[i].Fetched?) then s
      else
        var c := s.calls[i];
        SetCall(s, i, Returned).(
          tables := s.tables[c.name := Entry(c.table, c.checkedAt, s.clock)],
          answers := s.answers + [Answer(c.name, c.checkedAt, c.table)])
    case ReceiveListing(listing) =>
      s.(calls := s.calls + [Listed(listing)])
    case RetainTables(i) =>
      if !(i < |s.calls| && s.calls[i].Listed?) then s
      else SetCall(s, i, Retained(s.calls[i].listed, s.clock)).(tables := RetainListed(s.tables, s.calls[i].listed))
    case InstallNames(i) =>
      if !(i < |s.calls| && s.calls[i].Retained?) then s
      else
        SetCall(s, i, Returned).(
          names := s.calls[i].listed, lastRetain := s.calls[i].retainedAt, lastInstall := s.clock)
  }

  function Step(s: State, e: Event): State {
    Effect(s, e).(clock := s.clock + 1)
  }

  /** The shared cache without its bookkeeping. */
  function Cache(s: State): map<string, Table> {
    map k | k in s.tables :: s.tables[k].table
  }

  /** Each step changes the shared state exactly as the lock section of that name does: `Insert`,
      `Retain`, `Install`, or not at all. */
  lemma StepsAreLockSections(s: State, e: Event)
    ensures var t := Step(s, e);
            match e
            case InsertTable(i) =>
              && t.names == s.names
              && Cache(t) == if i < |s.calls| && s.calls[i].Fetched? then Cache(s)[s.calls[i].name := s.calls[i].table]
                             else Cache(s)
            case RetainTables(i) =>
              && t.names == s.names
              && Cache(t) == if i < |s.calls| && s.calls[i].Listed? then RetainListed(Cache(s), s.calls[i].listed)
                             else Cache(s)
            case InstallNames(i) =>
              && t.names == (if i < |s.calls| && s.calls[i].Retained? then s.calls[i].listed else s.names)
              && Cache(t) == Cache(s)
            case _ => t.names == s.names && Cache(t) == Cache(s)
  {
  }

  function Play(s: State, events: seq<Event>): State
    decreases |events|
  {
    if events == [] then s else Play(Step(s, events[0]), events[1..])
  }

  // ----- Undisturbed calls

  lemma PlayThree(s: State, a: Event, b: Event, c: Event)
    ensures Play(s, [a, b, c]) == Step(Step(Step(s, a), b), c)
  {
    assert [a, b, c][1..] == [b, c] && [b, c][1..] == [c] && [c][1..] == [];
    var t := Step(Step(s, a), b);
    assert Play(t, [c]) == Play(Step(t, c), []) == Step(t, c);
    assert Play(Step(s, a), [b, c]) == Play(t, [c]);
  }

  lemma PlayFour(s: State, a: Event, b: Event, c: Event, d: Event)
    ensures Play(s, [a, b, c, d]) == Step(Step(Step(Step(s, a), b), c), d)
  {
    assert [a, b, c, d][1..] == [b, c, d];
    assert Play(s, [a, b, c, d]) == Play(Step(s, a), [b, c, d]);
    PlayThree(Step(s, a), b, c, d);
  }

  /** A lookup of a listed name reaches the cache read; another changes nothing. */
  lemma CheckThenRead(s: State, name: string)
    ensures var i := |s.calls|;
            var t := Step(Step(s, StartLookup(name)), ReadCache(i));
            && t.names == s.names && t.tables == s.tables
            && (name !in s.names ==> t.calls == s.calls && t.answers == s.answers)
            && (name in s.names ==> |t.calls| == i + 1)
            && (name in s.names && name in s.tables ==>
                  t.calls[i] == Returned && t.answers == s.answers + [Answer(name, s.clock, s.tables[name].table)])
            && (name in s.names && name !in s.tables ==> t.calls[i] == Missed(name, s.clock) && t.answers == s.answers)
  {
  }

  lemma ReceiveThenInsert(s: State, i: nat, fetched: Option<seq<string>>)
    requires i < |s.calls| ==> !s.calls[i].Fetched?
    ensures var t := Step(Step(s, ReceiveMapping(i, fetched)), InsertTable(i));
            && t.names == s.names
            && if i < |s.calls| && s.calls[i].Missed? && fetched.Some? then
                 var c := s.calls[i];
                 var table := Build(c.name, fetched.value);
                 && t.tables == s.tables[c.name := Entry(table, c.checkedAt, s.clock + 1)]
                 && t.answers == s.answers + [Answer(c.name, c.checkedAt, table)]
               else t.tables == s.tables && t.answers == s.answers
  {
  }

  lemma CacheInsert(s: State, t: State, name: string, e: Entry)
    requires t.tables == s.tables[name := e]
    ensures Cache(t) == Cache(s)[name := e.table]
  {
  }

  /** The steps of one lookup with no other step between them do what `LookUp` promises. */
  lemma UndisturbedLookUp(s: State, name: string, fetched: Option<seq<string>>)
    ensures var i := |s.calls|;
            var t := Play(s, [StartLookup(name), ReadCache(i), ReceiveMapping(i, fetched), InsertTable(i)]);
            t.names == s.names
            && exists answer ::
                 && LooksUp(s.names, Cache(s), name, fetched, answer, Cache(t))
                 && match answer
                    case None => t.answers == s.answers
                    case Some(table) => t.answers == s.answers + [Answer(name, s.clock, table)]
  {
    var i := |s.calls|;
    PlayFour(s, StartLookup(name), ReadCache(i), ReceiveMapping(i, fetched), InsertTable(i));
    var s2 := Step(Step(s, StartLookup(name)), ReadCache(i));
    var t := Step(Step(s2, ReceiveMapping(i, fetched)), InsertTable(i));
    CheckThenRead(s, name);
    ReceiveThenInsert(s2, i, fetched);
    if name in s.names && name in s.tables {
      assert LooksUp(s.names, Cache(s), name, fetched, Some(Cache(s)[name]), Cache(t));
    } else if name in s.names && fetched.Some? {
      var table := Build(name, fetched.value);
      CacheInsert(s, t, name, Entry(table, s.clock, s2.clock + 1));
      assert LooksUp(s.names, Cache(s), name, fetched, Some(table), Cache(t));
    } else {
      assert LooksUp(s.names, Cache(s), name, fetched, None, Cache(t));
    }
  }

  lemma RefreshCalls(s: State, listed: seq<string>)
    ensures var i := |s.calls|;
            var s1 := Step(s, ReceiveListing(listed));
            && |s1.calls| == i + 1 && s1.calls[i] == Listed(listed)
            && var s2 := Step(s1, RetainTables(i));
               |s2.calls| == i + 1 && s2.calls[i] == Retained(listed, s1.clock)
  {
  }

  lemma RetainedRefreshes(listed: seq<string>, before: map<string, Table>)
    ensures Refreshes(listed, before, listed, RetainListed(before, listed))
  {
  }

  /** The steps of one refresh with no other step between them do what `Refresh` promises. */
  lemma UndisturbedRefresh(s: State, listed: seq<string>)
    ensures var i := |s.calls|;
            var t := Play(s, [ReceiveListing(listed), RetainTables(i), InstallNames(i)]);
            Refreshes(listed, Cache(s), t.names, Cache(t))
  {
    var i := |s.calls|;
    PlayThree(s, ReceiveListing(listed), RetainTables(i), InstallNames(i));
    RefreshCalls(s, listed);
    var s1 := Step(s, ReceiveListing(listed));
    StepsAreLockSections(s, ReceiveListing(listed));
    StepsAreLockSections(s1, RetainTables(i));
    StepsAreLockSections(Step(s1, RetainTables(i)), InstallNames(i));
    RetainedRefreshes(listed, Cache(s));
  }

  // ----- What every interleaving keeps

  /** A name found listed since the latest install is still listed. */
  predicate Fresh(s: State, name: string, checkedAt: nat) {
    checkedAt < s.clock && (checkedAt >= s.lastInstall ==> name in s.names)
  }

  /** The table reads the index of that name with the columns of a mapping the cluster answered for it. */
  predicate BuiltFor(s: State, name: string, table: Table) {
    table.index == name && (name, table.columns) in s.fetched
  }

  predicate CallInv(s: State, c: Call) {
    match c
    case Checked(name, at) => Fresh(s, name, at)
    case Missed(name, at) => Fresh(s, name, at)
    case Fetched(name, at, table) => Fresh(s, name, at) && BuiltFor(s, name, table)
    case Retained(listed, at) =>
      at < s.clock && forall k :: k in s.tables ==> k in listed || s.tables[k].insertedAt > at
    case _ => true
  }

  predicate EntryInv(s: State, k: string)
    requires k in s.tables
  {
    var e := s.tables[k];
    && BuiltFor(s, k, e.table)
    && Fresh(s, k, e.checkedAt)
    && e.insertedAt < s.clock
    && (k in s.names || e.insertedAt > s.lastRetain)
  }

  predicate AnswerInv(s: State, a: Answer) {
    Fresh(s, a.name, a.checkedAt) && BuiltFor(s, a.name, a.table)
  }

  predicate Inv(s: State) {
    && s.lastRetain < s.clock && s.lastInstall < s.clock
    && (forall k :: k in s.tables ==> EntryInv(s, k))
    && (forall i :: 0 <= i < |s.calls| ==> CallInv(s, s.calls[i]))
    && (forall i :: 0 <= i < |s.answers| ==> AnswerInv(s, s.answers[i]))
  }

  lemma EntriesKeep(s: State, e: Event, k: string)
    requires Inv(s) && k in Step(s, e).tables
    ensures EntryInv(Step(s, e), k)
  {
    if k in s.tables {
      assert EntryInv(s, k);
    }
    match e
    case InstallNames(i) =>
      if i < |s.calls| { assert CallInv(s, s.calls[i]); }
    case InsertTable(i) =>
      if i < |s.calls| { assert CallInv(s, s.calls[i]); }
    case _ =>
  }

  lemma CallsKeep(s: State, e: Event, c: Call)
    requires Inv(s) && CallInv(s, c)
    ensures CallInv(Step(s, e), c)
  {
    match e
    case InsertTable(i) =>
      if i < |s.calls| { assert CallInv(s, s.calls[i]); }
    case _ =>
  }

  lemma NewCallsKeep(s: State, e: Event, j: nat)
    requires Inv(s) && j < |Step(s, e).calls|
    ensures CallInv(Step(s, e), Step(s, e).calls[j])
  {
    if j < |s.calls| {
      assert CallInv(s, s.calls[j]);
      CallsKeep(s, e, s.calls[j]);
    }
  }

  lemma AnswersKeep(s: State, e: Event, j: nat)
    requires Inv(s) && j < |Step(s, e).answers|
    ensures AnswerInv(Step(s, e), Step(s, e).answers[j])
  {
    if j < |s.answers| {
      assert AnswerInv(s, s.answers[j]);
    }
    match e
    case ReadCache(i) =>
      if i < |s.calls| {
        assert CallInv(s, s.calls[i]);
        if s.calls[i].Checked? && s.calls[i].name in s.tables { assert EntryInv(s, s.calls[i].name); }
      }
    case InsertTable(i) =>
      if i < |s.calls| { assert CallInv(s, s.calls[i]); }
    case _ =>
  }

  lemma StepKeeps(s: State, e: Event)
    requires Inv(s)
    ensures Inv(Step(s, e))
  {
    var t := Step(s, e);
    forall k | k in t.tables ensures EntryInv(t, k) {
      EntriesKeep(s, e, k);
    }
    forall j | 0 <= j < |t.calls| ensures CallInv(t, t.calls[j]) {
      NewCallsKeep(s, e, j);
    }
    forall j | 0 <= j < |t.answers| ensures AnswerInv(t, t.answers[j]) {
      AnswersKeep(s, e, j);
    }
  }

  lemma {:induction false} PlayKeeps(s: State, events: seq<Event>)
    requires Inv(s)
    ensures Inv(Play(s, events))
    decreases |events|
  {
    if events != [] {
      StepKeeps(s, events[0]);
      PlayKeeps(Step(s, events[0]), events[1..]);
    }
  }

  /** What counts as fetched is what the cluster has answered. */
  lemma {:induction false} FetchedIsReceived(s: State, events: seq<Event>, name: string, columns: seq<string>)
    requires (name, columns) in Play(s, events).fetched
    ensures || (name, columns) in s.fetched
            || exists k: nat, call :: k < |events| && events[k] == ReceiveMapping(call, Some(columns))
    decreases |events|
  {
    if events != [] {
      var t := Step(s, events[0]);
      FetchedIsReceived(t, events[1..], name, columns);
      if (name, columns) in t.fetched && (name, columns) !in s.fetched {
        assert events[0] == ReceiveMapping(events[0].call, Some(columns));
      } else if (name, columns) !in t.fetched {
        var k: nat, call :| k < |events[1..]| && events[1..][k] == ReceiveMapping(call, Some(columns));
        assert events[k + 1] == ReceiveMapping(call, Some(columns));
      }
    }
  }

  /** Over every interleaving: each cached table was built for the name it stands under, with the columns of a
      mapping the cluster answered for that name. A cached name that is missing from the listing was inserted after the
      latest installed listing was used to drop the unlisted ones, by a lookup that had found the
      name listed before that listing was installed. */
  lemma CacheIsSafe(names: seq<string>, events: seq<Event>)
    ensures var s := Play(Connect(names), events);
            && (forall k :: k in s.tables ==>
                  s.tables[k].table.index == k && (k, s.tables[k].table.columns) in s.fetched)
            && (forall k :: k in s.tables && k !in s.names ==>
                  s.tables[k].checkedAt < s.lastInstall && s.lastRetain < s.tables[k].insertedAt)
  {
    PlayKeeps(Connect(names), events);
    var s := Play(Connect(names), events);
    forall k | k in s.tables ensures EntryInv(s, k) {
    }
  }

  /** Each table a lookup returned is of the index asked for, with the columns of a mapping the cluster answered
      for it, and the index is listed if the lookup checked its name after the latest install. */
  lemma AnswersAreListed(names: seq<string>, events: seq<Event>)
    ensures var s := Play(Connect(names), events);
            forall i :: 0 <= i < |s.answers| ==>
              && s.answers[i].table.index == s.answers[i].name
              && (s.answers[i].name, s.answers[i].table.columns) in s.fetched
              && (s.answers[i].checkedAt >= s.lastInstall ==> s.answers[i].name in s.names)
  {
    PlayKeeps(Connect(names), events);
    var s := Play(Connect(names), events);
    forall i | 0 <= i < |s.answers| ensures AnswerInv(s, s.answers[i]) {
    }
  }

  // ----- When the cache holds only listed tables

  predicate CacheListed(s: State) {
    forall k :: k in s.tables ==> k in s.names
  }

  /** The name of a lookup in flight. */
  function Pending(c: Call): Option<string> {
    match c
    case Checked(name, _) => Some(name)
    case Missed(name, _) => Some(name)
    case Fetched(name, _, _) => Some(name)
    case _ => None
  }

  predicate PendingListed(s: State) {
    forall i :: 0 <= i < |s.calls| && Pending(s.calls[i]).Some? ==> Pending(s.calls[i]).value in s.names
  }

  /** No new listing is installed. */
  predicate Quiet(events: seq<Event>) {
    forall i :: 0 <= i < |events| ==> !events[i].InstallNames?
  }

  lemma QuietStep(s: State, e: Event)
    requires CacheListed(s) && PendingListed(s) && !e.InstallNames?
    ensures CacheListed(Step(s, e)) && PendingListed(Step(s, e)) && Step(s, e).names == s.names
  {
  }

  lemma {:induction false} QuietPlay(s: State, events: seq<Event>)
    requires CacheListed(s) && PendingListed(s) && Quiet(events)
    ensures CacheListed(Play(s, events))
    decreases |events|
  {
    if events != [] {
      QuietStep(s, events[0]);
      QuietPlay(Step(s, events[0]), events[1..]);
    }
  }

  /** A continuation in which a lookup in flight for an unlisted name caches its table. */
  lemma StaleContinuation(s: State, i: nat) returns (events: seq<Event>)
    requires CacheListed(s) && i < |s.calls| && Pending(s.calls[i]).Some? && Pending(s.calls[i]).value !in s.names
    ensures Quiet(events) && !CacheListed(Play(s, events))
  {
    var name := Pending(s.calls[i]).value;
    var read, receive, insert := ReadCache(i), ReceiveMapping(i, Some([])), InsertTable(i);
    events := [read, read, receive, insert];
    PlayFour(s, read, read, receive, insert);
    var s2 := Step(Step(s, read), read);
    var s3 := Step(s2, receive);
    assert s2.calls[i].Missed? || s2.calls[i].Fetched?;
    assert s3.calls[i].Fetched? && s3.calls[i].name == name;
    assert name in Step(s3, insert).tables && Step(s3, insert).names == s.names;
  }

  /** From any state, whatever runs before the next listing is installed, the cache holds tables of listed
      indices only, if and only if it does now and no lookup in flight is for an unlisted name. In the state
      a refresh leaves behind, this says when that refresh has dropped what it promises to drop. */
  lemma StaysListedIff(s: State)
    ensures (forall events: seq<Event> :: Quiet(events) ==> CacheListed(Play(s, events))) <==>
            CacheListed(s) && PendingListed(s)
  {
    if !CacheListed(s) {
      assert Play(s, []) == s && Quiet([]);
    } else if !PendingListed(s) {
      var i :| 0 <= i < |s.calls| && Pending(s.calls[i]).Some? && Pending(s.calls[i]).value !in s.names;
      var events := StaleContinuation(s, i);
    } else {
      forall events: seq<Event> | Quiet(events) ensures CacheListed(Play(s, events)) {
        QuietPlay(s, events);
      }
    }
  }

  /** The race is real: a lookup that is waiting for its mapping while a refresh drops its name leaves
      a table cached under an unlisted name. */
  lemma StaleInsertHappens(name: string, columns: seq<string>)
    ensures var s := Play(Connect([name]),
                          [StartLookup(name), ReadCache(0), ReceiveListing([]), RetainTables(1), InstallNames(1),
                           ReceiveMapping(0, Some(columns)), InsertTable(0)]);
            name in s.tables && s.names == []
  {
    var s0 := Connect([name]);
    var s1 := Step(s0, StartLookup(name));
    var s2 := Step(s1, ReadCache(0));
    var s3 := Step(s2, ReceiveListing([]));
    var s4 := Step(s3, RetainTables(1));
    var s5 := Step(s4, InstallNames(1));
    var s6 := Step(s5, ReceiveMapping(0, Some(columns)));
    var s7 := Step(s6, InsertTable(0));
    var rest := [StartLookup(name), ReadCache(0), ReceiveListing([]), RetainTables(1), InstallNames(1),
                 ReceiveMapping(0, Some(columns)), InsertTable(0)];
    assert Play(s7, []) == s7;
    assert Play(s6, rest[6..]) == s7;
    assert Play(s5, rest[5..]) == s7 by { assert rest[5..][1..] == rest[6..]; }
    assert Play(s4, rest[4..]) == s7 by { assert rest[4..][1..] == rest[5..]; }
    assert Play(s3, rest[3..]) == s7 by { assert rest[3..][1..] == rest[4..]; }
    assert Play(s2, rest[2..]) == s7 by { assert rest[2..][1..] == rest[3..]; }
    assert Play(s1, rest[1..]) == s7 by { assert rest[1..][1..] == rest[2..]; }
  }
}
