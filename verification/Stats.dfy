/** The buffer of request statistics: records wait, travel in transactions, and come back or are
    confirmed; a persistent store shadows them. */
module Stats {
  import opened Optional
  import opened JsonValue
  import opened JsonParser
  import opened JsonWriters
  import opened JsonStyled
  import opened JsonEndToEnd

  /** One request record, as the text it is stored and sent as. */
  type Record = string

  datatype Transaction = Transaction(id: int, records: seq<Record>)

  /** mRequestsDataVector, mSentData, the records file and the id counter. */
  datatype State = State(pending: seq<Record>, sent: seq<Transaction>, store: seq<Record>, lastId: int)

  datatype Event =
    | Add(r: Record)
    | Send(count: int)
    | Success(id: int)
    | Fail(id: int)
    | DeleteAll

  /** What a report carries: the text to send and, when a transaction was made, the id that its
      two callbacks are for. */
  datatype Handle = Handle(buffer: string, id: Option<int>)

  /** No real number occurs in a report, so how reals are printed does not matter. */
  const REPORT := Options(false, false, false, _ => "")

  function Buffer(records: seq<Record>): string { StyledWrite(REPORT, ArrayOf(records)) }

  // ---- The specification of each event ----

  /** The size of the next batch. The count is compared as an unsigned number, so a negative one
      takes everything. */
  function BatchSize(count: int, waiting: nat): nat {
    if count < 0 || count > waiting then waiting else count
  }

  function FindSent(sent: seq<Transaction>, id: int): Option<nat> {
    if sent == [] then None
    else if sent[0].id == id then Some(0)
    else match FindSent(sent[1..], id)
      case Some(i) => Some(i + 1)
      case None => None
  }

  function Without<T>(s: seq<T>, i: nat): seq<T>
    requires i < |s|
  {
    s[..i] + s[i + 1..]
  }

  lemma {:induction false} FoundAt(sent: seq<Transaction>, id: int)
    ensures match FindSent(sent, id)
      case Some(i) => i < |sent| && sent[i].id == id && forall j :: 0 <= j < i ==> sent[j].id != id
      case None => forall j :: 0 <= j < |sent| ==> sent[j].id != id
  {
    if sent != [] {
      FoundAt(sent[1..], id);
    }
  }

  /** The in-flight batch of an id and what stays in flight without it. */
  function Taken(sent: seq<Transaction>, id: int): (r: (seq<Record>, seq<Transaction>))
  {
    match FindSent(sent, id)
    case Some(i) => (FoundAt(sent, id); (sent[i].records, Without(sent, i)))
    case None => ([], sent)
  }

  function Step(s: State, e: Event): State {
    match e
    case Add(r) => s.(pending := s.pending + [r], store := s.store + [r])
    case Send(count) =>
      if s.pending == [] then s
      else
        var n := BatchSize(count, |s.pending|);
        State(s.pending[n..], s.sent + [Transaction(s.lastId + 1, s.pending[..n])], s.store, s.lastId + 1)
    case Fail(id) =>
      var (records, left) := Taken(s.sent, id);
      s.(pending := s.pending + records, sent := left)
    case Success(id) => s.(sent := Taken(s.sent, id).1, store := s.pending)
    case DeleteAll => s.(pending := [], store := [])
  }

  /** An empty batch trips an assertion of the source, so a batch size of zero is never asked for. */
  predicate Allowed(e: Event) { e.Send? ==> e.count != 0 }

  // ---- The handler as it runs ----

  class RequestStatsHandler {
    var pending: seq<Record>
    var sent: seq<Transaction>
    var store: seq<Record>
    var lastId: int

    ghost function Now(): State
      reads this
    {
      State(pending, sent, store, lastId)
    }

    /** A new process: what the store holds is loaded; ids start over. */
    constructor (stored: seq<Record>)
      ensures Now() == State(stored, [], stored, 0)
    {
      pending, sent, store, lastId := stored, [], stored, 0;
    }

    method AddNewRequestData(r: Record)
      modifies this
      ensures Now() == Step(old(Now()), Add(r))
    {
      pending := pending + [r];
      store := store + [r];
    }

    method CreateTransaction(count: int) returns (t: Transaction)
      requires pending != [] && count != 0
      modifies `pending, `lastId
      ensures lastId == old(lastId) + 1 && t.id == lastId
      ensures t.records + pending == old(pending) && |t.records| == BatchSize(count, |old(pending)|)
      ensures if 0 < count <= |old(pending)| then |t.records| == count else pending == []
    {
      lastId := lastId + 1;
      var offset := count;
      if offset < 0 || offset > |pending| {
        offset := |pending|;
      }
      t := Transaction(lastId, pending[..offset]);
      pending := pending[offset..];
    }

    /** The text of the records of the new transaction and its id, or the text of no records when
        nothing waits. */
    method RequestsData(count: int) returns (handle: Handle)
      requires count != 0
      modifies this
      ensures Now() == Step(old(Now()), Send(count))
      ensures handle == if old(pending) == [] then Handle(Buffer([]), None) else
        Handle(Buffer(sent[|sent| - 1].records), Some(sent[|sent| - 1].id))
    {
      hide StyledWrite, ArrayOf;
      var buffer := JsonDataFromDataVector(REPORT, pending);
      if pending == [] {
        return Handle(buffer, None);
      }
      ghost var before := pending;
      var t := CreateTransaction(count);
      assert t.records == before[..|t.records|] && pending == before[|t.records|..];
      sent := sent + [t];
      buffer := JsonDataFromDataVector(REPORT, sent[|sent| - 1].records);
      return Handle(buffer, Some(sent[|sent| - 1].id));
    }

    method RestoreTransaction(key: int)
      modifies this
      ensures Now() == Step(old(Now()), Fail(key))
    {
      FoundAt(sent, key);
      var it := 0;
      while it < |sent|
        invariant 0 <= it <= |sent| && Now() == old(Now())
        invariant forall j :: 0 <= j < it ==> sent[j].id != key
      {
        if key == sent[it].id {
          pending := pending + sent[it].records;
          sent := sent[..it] + sent[it + 1..];
          return;
        }
        it := it + 1;
      }
      assert pending + [] == pending;
    }

    method DeleteTransaction(key: int)
      modifies this
      ensures Now() == Step(old(Now()), Success(key))
    {
      FoundAt(sent, key);
      var it := 0;
      while it < |sent|
        invariant 0 <= it <= |sent| && Now() == old(Now())
        invariant forall j :: 0 <= j < it ==> sent[j].id != key
      {
        if key == sent[it].id {
          sent := sent[..it] + sent[it + 1..];
          break;
        }
        it := it + 1;
      }
      DeleteRequestsData();
    }

    /** The store is deleted and, unless nothing waits, rewritten from what waits. */
    method DeleteRequestsData()
      modifies `store
      ensures store == pending
    {
      store := [];
      if |pending| > 0 {
        store := store + pending;
      }
    }

    method DeleteAllData()
      modifies this
      ensures Now() == Step(old(Now()), DeleteAll)
    {
      pending := [];
      DeleteRequestsData();
    }
  }

  // ---- Conservation over whole runs ----

  ghost function InFlight(sent: seq<Transaction>): multiset<Record> {
    if sent == [] then multiset{} else multiset(sent[0].records) + InFlight(sent[1..])
  }

  lemma {:induction false} InFlightAppend(sent: seq<Transaction>, t: Transaction)
    ensures InFlight(sent + [t]) == InFlight(sent) + multiset(t.records)
  {
    if sent == [] {
      assert [t][1..] == [];
    } else {
      assert (sent + [t])[1..] == sent[1..] + [t];
      InFlightAppend(sent[1..], t);
    }
  }

  lemma InFlightCons(t: Transaction, rest: seq<Transaction>)
    ensures InFlight([t] + rest) == multiset(t.records) + InFlight(rest)
  {
    assert ([t] + rest)[1..] == rest;
  }

  lemma {:induction false} InFlightWithout(sent: seq<Transaction>, i: nat)
    requires i < |sent|
    ensures InFlight(sent) == InFlight(Without(sent, i)) + multiset(sent[i].records)
  {
    hide InFlight;
    assert sent == [sent[0]] + sent[1..];
    InFlightCons(sent[0], sent[1..]);
    if i == 0 {
      assert Without(sent, 0) == sent[1..];
    } else {
      InFlightWithout(sent[1..], i - 1);
      var rest := Without(sent[1..], i - 1);
      assert Without(sent, i) == [sent[0]] + rest;
      InFlightCons(sent[0], rest);
    }
  }

  /** Taking a batch out conserves the records in flight. */
  lemma TakenConserves(sent: seq<Transaction>, id: int)
    ensures InFlight(sent) == InFlight(Taken(sent, id).1) + multiset(Taken(sent, id).0)
  {
    FoundAt(sent, id);
    if FindSent(sent, id).Some? {
      InFlightWithout(sent, FindSent(sent, id).value);
    }
  }

  /** The state with the books of a run: what came in, what was confirmed, what was discarded. */
  datatype Books = Books(s: State, received: multiset<Record>, confirmed: multiset<Record>, discarded: multiset<Record>)

  function Opened(stored: seq<Record>): Books {
    Books(State(stored, [], stored, 0), multiset(stored), multiset{}, multiset{})
  }

  function Booked(b: Books, e: Event): Books {
    var t := Step(b.s, e);
    match e
    case Add(r) => Books(t, b.received + multiset{r}, b.confirmed, b.discarded)
    case Success(id) => Books(t, b.received, b.confirmed + multiset(Taken(b.s.sent, id).0), b.discarded)
    case DeleteAll => Books(t, b.received, b.confirmed, b.discarded + multiset(b.s.pending))
    case _ => Books(t, b.received, b.confirmed, b.discarded)
  }

  function After(stored: seq<Record>, run: seq<Event>): Books {
    if run == [] then Opened(stored) else Booked(After(stored, run[..|run| - 1]), run[|run| - 1])
  }

  lemma AfterStep(stored: seq<Record>, run: seq<Event>)
    requires run != []
    ensures After(stored, run).s == Step(After(stored, run[..|run| - 1]).s, run[|run| - 1])
  {
  }

  predicate AllAllowed(run: seq<Event>) { forall i :: 0 <= i < |run| ==> Allowed(run[i]) }

  /** Every record is in exactly one place; ids in flight are distinct and already issued; no
      batch in flight is empty. */
  ghost predicate Balanced(b: Books) {
    && b.received == multiset(b.s.pending) + InFlight(b.s.sent) + b.confirmed + b.discarded
    && WellSent(b.s)
  }

  ghost predicate WellSent(s: State) {
    && (forall i, j :: 0 <= i < j < |s.sent| ==> s.sent[i].id != s.sent[j].id)
    && (forall i :: 0 <= i < |s.sent| ==> 1 <= s.sent[i].id <= s.lastId && s.sent[i].records != [])
    && s.lastId >= 0
  }

  lemma TakenStaysWellSent(s: State, id: int)
    requires WellSent(s)
    ensures WellSent(s.(sent := Taken(s.sent, id).1))
    ensures FindSent(Taken(s.sent, id).1, id) == None
    ensures FindSent(s.sent, id) == None <==> Taken(s.sent, id).0 == []
  {
    FoundAt(s.sent, id);
    FoundAt(Taken(s.sent, id).1, id);
  }

  lemma SendSplits(s: State, count: int)
    requires s.pending != [] && count != 0
    ensures var t := Step(s, Send(count));
      && t.sent == s.sent + [Transaction(s.lastId + 1, t.sent[|s.sent|].records)]
      && t.sent[|s.sent|].records + t.pending == s.pending
      && 1 <= |t.sent[|s.sent|].records|
      && (if 0 < count <= |s.pending| then |t.sent[|s.sent|].records| == count else t.pending == [])
  {
  }

  lemma SendStaysBalanced(b: Books, count: int)
    requires Balanced(b) && count != 0 && b.s.pending != []
    ensures Balanced(Booked(b, Send(count)))
  {
    hide InFlight, Taken, BatchSize;
    SendSplits(b.s, count);
    var t := Step(b.s, Send(count));
    var moved := t.sent[|b.s.sent|].records;
    InFlightAppend(b.s.sent, t.sent[|b.s.sent|]);
    assert b.s.pending == moved + t.pending;
    assert multiset(b.s.pending) == multiset(moved) + multiset(t.pending);
  }

  lemma CallbackStaysBalanced(b: Books, e: Event)
    requires Balanced(b) && (e.Fail? || e.Success?)
    ensures Balanced(Booked(b, e))
  {
    hide InFlight, Taken;
    TakenConserves(b.s.sent, e.id);
    TakenStaysWellSent(b.s, e.id);
  }

  lemma StepStaysBalanced(b: Books, e: Event)
    requires Balanced(b) && Allowed(e)
    ensures Balanced(Booked(b, e))
  {
    hide Balanced, Booked;
    match e {
      case Add(r) => AddStaysBalanced(b, r);
      case Send(count) => if b.s.pending != [] { SendStaysBalanced(b, count); } else { NothingToSend(b, count); }
      case Fail(_) => CallbackStaysBalanced(b, e);
      case Success(_) => CallbackStaysBalanced(b, e);
      case DeleteAll => DeleteStaysBalanced(b);
    }
  }

  lemma AddStaysBalanced(b: Books, r: Record)
    requires Balanced(b)
    ensures Balanced(Booked(b, Add(r)))
  {
    hide InFlight;
    assert multiset(b.s.pending + [r]) == multiset(b.s.pending) + multiset{r};
  }

  lemma NothingToSend(b: Books, count: int)
    requires Balanced(b) && b.s.pending == []
    ensures Balanced(Booked(b, Send(count)))
  {
    hide InFlight;
  }

  lemma DeleteStaysBalanced(b: Books)
    requires Balanced(b)
    ensures Balanced(Booked(b, DeleteAll))
  {
    hide InFlight;
  }

  /** Conservation: in every run, from any stored records, what was loaded or added is exactly
      what waits, travels, was confirmed or was discarded. */
  lemma {:induction false} RunsBalance(stored: seq<Record>, run: seq<Event>)
    requires AllAllowed(run)
    ensures Balanced(After(stored, run))
  {
    if run != [] {
      RunsBalance(stored, run[..|run| - 1]);
      StepStaysBalanced(After(stored, run[..|run| - 1]), run[|run| - 1]);
    }
  }

  lemma SentIsWell(stored: seq<Record>, run: seq<Event>)
    requires AllAllowed(run)
    ensures WellSent(After(stored, run).s)
  {
    RunsBalance(stored, run);
  }

  /** An id that was issued and is no longer in flight. */
  ghost predicate Resolved(s: State, id: int) {
    id <= s.lastId && FindSent(s.sent, id) == None
  }

  lemma ResolvedStays(s: State, e: Event, id: int)
    requires Resolved(s, id)
    ensures Resolved(Step(s, e), id)
    ensures e == Success(id) || e == Fail(id) ==> Step(s, e).pending == s.pending && Step(s, e).sent == s.sent
  {
    hide FindSent;
    FoundAt(s.sent, id);
    FoundAt(Step(s, e).sent, id);
    match e {
      case Success(other) => FoundAt(s.sent, other);
      case Fail(other) => FoundAt(s.sent, other);
      case _ =>
    }
  }

  /** Exactly once: once a transaction was called back, whatever happens after, no further
      callback for its id moves any record in memory. */
  lemma {:induction false} CallbackOnce(stored: seq<Record>, run: seq<Event>, first: nat, again: Event)
    requires AllAllowed(run) && first < |run|
    requires run[first].Success? || run[first].Fail?
    requires run[first].id <= After(stored, run[..first]).s.lastId
    requires again == Success(run[first].id) || again == Fail(run[first].id)
    ensures var s := After(stored, run).s;
      Resolved(s, run[first].id) && Step(s, again).pending == s.pending && Step(s, again).sent == s.sent
    decreases |run|
  {
    hide FindSent, Taken, Step, After, Booked, Balanced;
    AfterStep(stored, run);
    var n := |run| - 1;
    var before := After(stored, run[..n]).s;
    var id := run[first].id;
    if first == n {
      SentIsWell(stored, run[..n]);
      CallbackResolves(before, run[n]);
    } else {
      assert run[..n][..first] == run[..first];
      CallbackOnce(stored, run[..n], first, again);
      ResolvedStays(before, run[n], id);
    }
    ResolvedStays(After(stored, run).s, again, id);
  }

  lemma CallbackResolves(s: State, e: Event)
    requires WellSent(s) && (e.Success? || e.Fail?) && e.id <= s.lastId
    ensures Resolved(Step(s, e), e.id)
  {
    TakenStaysWellSent(s, e.id);
  }

  // ---- The order of the records ----

  /** A ledger of the run, kept from the events and the batches sent: every batch made, in order, so
      that the batch of id k is the k-th; the ids not called back yet; the records that came to wait
      since the last delete-all, each failed batch when its failure came; the records of the batches
      sent since then; what was stored. */
  datatype Ledger = Ledger(
    made: seq<seq<Record>>,
    open: set<int>,
    came: seq<Record>,
    left: seq<Record>,
    stored: seq<Record>)

  function Entered(g: Ledger, e: Event, before: State, after: State): Ledger {
    match e
    case Add(r) => g.(came := g.came + [r], stored := g.stored + [r])
    case Send(_) =>
      if before.pending == [] || after.sent == [] then g
      else
        var batch := after.sent[|after.sent| - 1].records;
        g.(made := g.made + [batch], open := g.open + {|g.made| + 1}, left := g.left + batch)
    case Fail(id) =>
      if id in g.open && 1 <= id <= |g.made| then g.(open := g.open - {id}, came := g.came + g.made[id - 1]) else g
    case Success(id) => g.(open := g.open - {id}, stored := after.pending)
    case DeleteAll => g.(came := [], left := [], stored := [])
  }

  function LedgerOf(stored: seq<Record>, run: seq<Event>): Ledger {
    if run == [] then Ledger([], {}, stored, [], stored)
    else
      var p := run[..|run| - 1];
      Entered(LedgerOf(stored, p), run[|run| - 1], After(stored, p).s, After(stored, run).s)
  }

  /** What the ledger says of the state: the records that came are, in order, those sent and then
      those that wait; in flight are exactly the open batches; the store has the listed order. */
  ghost predicate Tallies(g: Ledger, s: State) {
    && g.came == g.left + s.pending
    && s.store == g.stored
    && |g.made| == s.lastId
    && (forall id :: id in g.open ==> 1 <= id <= |g.made| && exists t :: t in s.sent && t.id == id)
    && (forall t :: t in s.sent ==> t.id in g.open && t.records == g.made[t.id - 1])
  }

  /** First in, first out, over every run: batches leave in the order in which records came, a
      failed batch comes back behind what waits, and nothing else reorders records. */
  lemma {:induction false} QueueLaw(stored: seq<Record>, run: seq<Event>)
    requires AllAllowed(run)
    ensures Tallies(LedgerOf(stored, run), After(stored, run).s)
  {
    hide Step, Entered, Tallies;
    if run == [] {
      StartTallies(stored);
    } else {
      var p := run[..|run| - 1];
      QueueLaw(stored, p);
      SentIsWell(stored, p);
      AfterStep(stored, run);
      StepTallies(LedgerOf(stored, p), After(stored, p).s, run[|run| - 1]);
    }
  }

  lemma StartTallies(stored: seq<Record>)
    ensures Tallies(Ledger([], {}, stored, [], stored), Opened(stored).s)
  {
    assert [] + stored == stored;
  }

  lemma StepTallies(g: Ledger, s: State, e: Event)
    requires Tallies(g, s) && WellSent(s) && Allowed(e)
    ensures Tallies(Entered(g, e, s, Step(s, e)), Step(s, e))
  {
    match e {
      case Add(r) => assert g.left + (s.pending + [r]) == g.left + s.pending + [r];
      case Send(count) => SendTallies(g, s, count);
      case Fail(id) => CallbackTallies(g, s, id);
      case Success(id) => CallbackTallies(g, s, id);
      case DeleteAll =>
    }
  }

  lemma SendTallies(g: Ledger, s: State, count: int)
    requires Tallies(g, s) && WellSent(s) && count != 0
    ensures Tallies(Entered(g, Send(count), s, Step(s, Send(count))), Step(s, Send(count)))
  {
    if s.pending != [] {
      var t := Step(s, Send(count));
      SendSplits(s, count);
      var batch := t.sent[|s.sent|];
      assert t.sent == s.sent + [batch] && batch in t.sent && batch.id == s.lastId + 1;
      assert g.left + (batch.records + t.pending) == g.left + batch.records + t.pending;
      forall id | id in g.open ensures exists u :: u in t.sent && u.id == id {
        var u :| u in s.sent && u.id == id;
        assert u in t.sent;
      }
    }
  }

  /** Both callbacks take exactly the batch of their id out of flight. */
  lemma CallbackTallies(g: Ledger, s: State, id: int)
    requires Tallies(g, s) && WellSent(s)
    ensures Tallies(Entered(g, Fail(id), s, Step(s, Fail(id))), Step(s, Fail(id)))
    ensures Tallies(Entered(g, Success(id), s, Step(s, Success(id))), Step(s, Success(id)))
  {
    hide Taken, FindSent;
    var (records, left) := Taken(s.sent, id);
    TakenIs(s, id);
    assert id !in g.open ==> records == [] && s.pending + [] == s.pending && g.open - {id} == g.open;
    if id in g.open {
      assert g.left + (s.pending + records) == g.left + s.pending + records;
    }
    forall other | other in g.open && other != id ensures exists u :: u in left && u.id == other {
      var u :| u in s.sent && u.id == other;
      assert u in left;
    }
  }

  lemma TakenIs(s: State, id: int)
    requires WellSent(s)
    ensures var (records, left) := Taken(s.sent, id);
      && (forall t :: t in left <==> t in s.sent && t.id != id)
      && (forall t :: t in s.sent && t.id == id ==> records == t.records)
      && ((forall t :: t in s.sent ==> t.id != id) ==> records == [])
  {
    FoundAt(s.sent, id);
  }

  // ---- The persistent store ----

  /** A crash would lose nothing: the store holds what waits and what travels. */
  ghost predicate Durable(s: State) {
    multiset(s.store) == multiset(s.pending) + InFlight(s.sent)
  }

  lemma {:induction false} InFlightEmpty(sent: seq<Transaction>)
    requires forall i :: 0 <= i < |sent| ==> sent[i].records != []
    ensures InFlight(sent) == multiset{} <==> sent == []
  {
    if sent != [] {
      assert sent[0].records[0] in multiset(sent[0].records);
      assert sent[0].records[0] in InFlight(sent);
    }
  }

  /** A success or a delete-all rewrites the store from what waits. */
  predicate Rewrites(e: Event) { e.Success? || e.DeleteAll? }

  /** Before the event: nothing is in flight but the batch that it confirms. */
  predicate NothingElseInFlight(s: State, e: Event) {
    forall t :: t in s.sent ==> e == Success(t.id)
  }

  /** Adding, sending and failing keep a complete store complete and an incomplete one incomplete.
      After a success or a delete-all the store is complete if and only if, before it, nothing else
      was in flight; a success for another id is no exception. */
  lemma DurableExactly(s: State, e: Event)
    requires WellSent(s) && Allowed(e)
    ensures Durable(Step(s, e)) <==> if Rewrites(e) then NothingElseInFlight(s, e) else Durable(s)
  {
    hide Durable, Step, WellSent, NothingElseInFlight;
    match e {
      case Add(r) => AddKeeps(s, r);
      case Send(count) => SendKeeps(s, count);
      case Fail(id) => FailKeeps(s, id);
      case Success(_) => RewriteKeeps(s, e);
      case DeleteAll => RewriteKeeps(s, e);
    }
  }

  lemma SendKeeps(s: State, count: int)
    requires count != 0
    ensures Durable(Step(s, Send(count))) <==> Durable(s)
  {
    hide InFlight;
    if s.pending != [] {
      var t := Step(s, Send(count));
      var moved := t.sent[|s.sent|];
      SendSplits(s, count);
      InFlightAppend(s.sent, moved);
      assert multiset(s.pending) == multiset(moved.records + t.pending);
      assert multiset(s.pending) + InFlight(s.sent) == multiset(t.pending) + InFlight(t.sent);
    }
  }

  lemma FailKeeps(s: State, id: int)
    ensures Durable(Step(s, Fail(id))) <==> Durable(s)
  {
    hide InFlight, Taken;
    TakenConserves(s.sent, id);
    var t := Step(s, Fail(id));
    assert multiset(s.pending) + InFlight(s.sent) == multiset(t.pending) + InFlight(t.sent);
  }

  /** After a rewriting event the store is what waits: complete exactly if nothing is in flight. */
  lemma RewriteKeeps(s: State, e: Event)
    requires WellSent(s) && Rewrites(e)
    ensures Durable(Step(s, e)) <==> NothingElseInFlight(s, e)
  {
    hide InFlight, Taken, WellSent;
    var t := Step(s, e);
    if e.Success? {
      TakenStaysWellSent(s, e.id);
      TakenAll(s, e.id);
    } else {
      assert s.sent != [] ==> s.sent[0] in s.sent;
    }
    BatchesFilled(s.(sent := t.sent));
    InFlightEmpty(t.sent);
    SameSum(multiset(t.store), InFlight(t.sent));
  }

  lemma BatchesFilled(s: State)
    requires WellSent(s)
    ensures forall i :: 0 <= i < |s.sent| ==> s.sent[i].records != []
  {
  }

  lemma AddKeeps(s: State, r: Record)
    ensures Durable(Step(s, Add(r))) <==> Durable(s)
  {
    hide InFlight;
    var t := Step(s, Add(r));
    assert multiset(t.store) == multiset(s.store) + multiset{r};
    assert multiset(t.pending) + InFlight(t.sent) == multiset(s.pending) + InFlight(s.sent) + multiset{r};
    AddBoth(multiset(s.store), multiset(s.pending) + InFlight(s.sent), multiset{r});
  }

  lemma AddBoth(a: multiset<Record>, b: multiset<Record>, c: multiset<Record>)
    ensures a + c == b + c <==> a == b
  {
    if a + c == b + c {
      forall x ensures a[x] == b[x] {
        assert (a + c)[x] == a[x] + c[x] && (b + c)[x] == b[x] + c[x];
      }
    }
  }

  /** Taking a batch out leaves nothing if and only if every batch had its id. */
  lemma TakenAll(s: State, id: int)
    requires WellSent(s)
    ensures Taken(s.sent, id).1 == [] <==> forall t :: t in s.sent ==> t.id == id
  {
    FoundAt(s.sent, id);
    if s.sent != [] {
      assert s.sent[0] in s.sent && s.sent[|s.sent| - 1] in s.sent;
    }
  }

  lemma SameSum(a: multiset<Record>, b: multiset<Record>)
    ensures a == a + b <==> b == multiset{}
  {
    if b != multiset{} {
      var x :| x in b;
      assert (a + b)[x] == a[x] + b[x];
    }
  }

  /** Every success and delete-all of the run finds nothing else in flight. */
  ghost predicate Quiet(stored: seq<Record>, run: seq<Event>) {
    forall i :: 0 <= i < |run| ==> QuietAt(stored, run, i)
  }

  ghost predicate QuietAt(stored: seq<Record>, run: seq<Event>, i: nat)
    requires i < |run|
  {
    Rewrites(run[i]) ==> NothingElseInFlight(After(stored, run[..i]).s, run[i])
  }

  ghost predicate AlwaysDurable(stored: seq<Record>, run: seq<Event>) {
    forall k :: 0 <= k <= |run| ==> DurableAt(stored, run, k)
  }

  ghost predicate DurableAt(stored: seq<Record>, run: seq<Event>, k: nat)
    requires k <= |run|
  {
    Durable(After(stored, run[..k]).s)
  }

  /** A run keeps the store complete after every event if and only if it is quiet. */
  lemma {:induction false} StoreIsComplete(stored: seq<Record>, run: seq<Event>)
    requires AllAllowed(run)
    ensures AlwaysDurable(stored, run) <==> Quiet(stored, run)
  {
    hide Step, Durable, After, WellSent;
    if run == [] {
      OpenedIsDurable(stored);
      assert run[..0] == [];
    } else {
      var n := |run| - 1;
      var p := run[..n];
      StoreIsComplete(stored, p);
      SentIsWell(stored, p);
      AfterStep(stored, run);
      forall k | 0 <= k <= n ensures DurableAt(stored, run, k) <==> DurableAt(stored, p, k) {
        assert p[..k] == run[..k];
      }
      forall i | 0 <= i < n ensures QuietAt(stored, run, i) <==> QuietAt(stored, p, i) {
        assert p[..i] == run[..i];
      }
      assert run[..n + 1] == run;
      DurableExactly(After(stored, p).s, run[n]);
      assert DurableAt(stored, run, n) <==> Durable(After(stored, p).s);
      assert AlwaysDurable(stored, run) <==> AlwaysDurable(stored, p) && DurableAt(stored, run, n + 1);
      assert Quiet(stored, run) <==> Quiet(stored, p) && QuietAt(stored, run, n);
      assert AlwaysDurable(stored, p) ==> DurableAt(stored, p, n);
    }
  }

  /** The last success or delete-all of the run, if any, finds nothing else in flight. */
  ghost predicate QuietAtLast(stored: seq<Record>, run: seq<Event>) {
    forall i :: 0 <= i < |run| && IsLastRewrite(run, i) ==> QuietAt(stored, run, i)
  }

  predicate IsLastRewrite(run: seq<Event>, i: nat)
    requires i < |run|
  {
    Rewrites(run[i]) && forall j :: i < j < |run| ==> !Rewrites(run[j])
  }

  lemma LastRewrite(run: seq<Event>, i: nat)
    requires i < |run|
    ensures var n := |run| - 1;
      IsLastRewrite(run, i) <==> if Rewrites(run[n]) then i == n else i < n && IsLastRewrite(run[..n], i)
  {
  }

  lemma {:induction false} StoreAtTheEnd(stored: seq<Record>, run: seq<Event>)
    requires AllAllowed(run)
    ensures Durable(After(stored, run).s) <==> QuietAtLast(stored, run)
  {
    hide Step, Durable, After, WellSent, NothingElseInFlight, Rewrites, IsLastRewrite;
    if run == [] {
      OpenedIsDurable(stored);
    } else {
      var n := |run| - 1;
      var p := run[..n];
      StoreAtTheEnd(stored, p);
      SentIsWell(stored, p);
      AfterStep(stored, run);
      DurableExactly(After(stored, p).s, run[n]);
      forall i | 0 <= i < n ensures QuietAt(stored, run, i) <==> QuietAt(stored, p, i) {
        assert p[..i] == run[..i];
      }
      forall i | 0 <= i <= n
        ensures IsLastRewrite(run, i) <==> if Rewrites(run[n]) then i == n else i < n && IsLastRewrite(p, i)
      {
        LastRewrite(run, i);
      }
      if Rewrites(run[n]) {
        assert IsLastRewrite(run, n);
        assert QuietAtLast(stored, run) <==> QuietAt(stored, run, n);
      } else {
        assert QuietAtLast(stored, run) <==> QuietAtLast(stored, p);
      }
    }
  }

  /** A restart from the store recovers every record that was neither confirmed nor discarded if and
      only if the last success or delete-all found nothing else in flight. */
  lemma RestartRecovers(stored: seq<Record>, run: seq<Event>)
    requires AllAllowed(run)
    ensures var b := After(stored, run);
      multiset(Opened(b.s.store).s.pending) + b.confirmed + b.discarded == b.received <==> QuietAtLast(stored, run)
  {
    hide After, InFlight, QuietAtLast;
    RunsBalance(stored, run);
    StoreAtTheEnd(stored, run);
    var b := After(stored, run);
    var kept := multiset(b.s.pending) + InFlight(b.s.sent);
    AddBoth(multiset(b.s.store), kept, b.confirmed + b.discarded);
    assert b.received == kept + (b.confirmed + b.discarded);
    assert multiset(b.s.store) + b.confirmed + b.discarded == multiset(b.s.store) + (b.confirmed + b.discarded);
  }

  lemma OpenedIsDurable(stored: seq<Record>)
    ensures Durable(After(stored, []).s)
  {
  }

  /** With two transactions in flight, the success of one erases the other from the store. */
  lemma TwoInFlightLoseTheStore()
    ensures var s := Step(Step(Step(Step(Opened([]).s, Add("a")), Add("b")), Send(1)), Send(1));
      var t := Step(s, Success(1));
      Durable(s) && |s.sent| == 2 && t.store == [] && t.sent == [Transaction(2, ["b"])] && !Durable(t)
  {
    hide Step, Durable;
    TwoAdded();
    TwoSent();
    TwoInFlight(State([], [Transaction(1, ["a"]), Transaction(2, ["b"])], ["a", "b"], 2));
  }

  lemma TwoAdded()
    ensures Step(Step(Opened([]).s, Add("a")), Add("b")) == State(["a", "b"], [], ["a", "b"], 0)
  {
  }

  lemma TwoSent()
    ensures Step(Step(State(["a", "b"], [], ["a", "b"], 0), Send(1)), Send(1))
      == State([], [Transaction(1, ["a"]), Transaction(2, ["b"])], ["a", "b"], 2)
  {
    assert ["a", "b"][..1] == ["a"] && ["a", "b"][1..] == ["b"];
    assert ["b"][..1] == ["b"] && ["b"][1..] == [];
  }

  lemma TwoInFlight(s: State)
    requires s == State([], [Transaction(1, ["a"]), Transaction(2, ["b"])], ["a", "b"], 2)
    ensures var t := Step(s, Success(1));
      Durable(s) && t.store == [] && t.sent == [Transaction(2, ["b"])] && !Durable(t)
  {
    assert s.sent[1..] == [Transaction(2, ["b"])] && s.sent[1..][1..] == [];
    assert InFlight(s.sent[1..]) == multiset{"b"} && InFlight(s.sent) == multiset{"a"} + multiset{"b"};
    assert FindSent(s.sent, 1) == Some(0);
    assert Without(s.sent, 0) == [Transaction(2, ["b"])];
    DurableExactly(s, Success(1));
  }

  // ---- The reporting loop ----

  const REQUESTS_COUNT_MAX := 500

  /** Consecutive batches of at most k records, all full but the last. */
  function Batches(records: seq<Record>, k: int): seq<seq<Record>>
    requires k > 0
  {
    if records == [] then []
    else if |records| <= k then [records]
    else [records[..k]] + Batches(records[k..], k)
  }

  function Concat(xs: seq<seq<Record>>): seq<Record> {
    if xs == [] then [] else xs[0] + Concat(xs[1..])
  }

  /** The batches partition the records in order; there are as many as needed and no more. */
  lemma {:induction false} BatchesPartition(records: seq<Record>, k: int)
    requires k > 0
    ensures Concat(Batches(records, k)) == records
    ensures forall i :: 0 <= i < |Batches(records, k)| ==> 1 <= |Batches(records, k)[i]| <= k
    ensures forall i :: 0 <= i < |Batches(records, k)| - 1 ==> |Batches(records, k)[i]| == k
    ensures |Batches(records, k)| * k >= |records|
    ensures records != [] ==> (|Batches(records, k)| - 1) * k < |records|
  {
    if records == [] {
    } else if |records| <= k {
      assert [records][1..] == [];
    } else {
      BatchesPartition(records[k..], k);
      var rest := Batches(records[k..], k);
      assert Batches(records, k)[1..] == rest;
      OneMore(|rest|, k);
    }
  }

  lemma OneMore(n: int, k: int)
    ensures (n + 1) * k == n * k + k && n * k == (n - 1) * k + k
  {
  }

  function Transactions(batches: seq<seq<Record>>, lastId: int): seq<Transaction> {
    if batches == [] then [] else [Transaction(lastId + 1, batches[0])] + Transactions(batches[1..], lastId + 1)
  }

  /** reportStats with no other event in between: one report per batch, or a single report
      without records when nothing waits. */
  method ReportStats(h: RequestStatsHandler, configured: int) returns (reports: seq<Handle>)
    modifies h
    ensures var k := if configured > 0 then configured else 500;
      var batches := Batches(old(h.pending), k);
      && h.pending == [] && h.store == old(h.store)
      && h.sent == old(h.sent) + Transactions(batches, old(h.lastId))
      && (batches == [] ==> reports == [Handle(Buffer([]), None)])
      && (batches != [] ==> |reports| == |batches|)
      && (forall i :: 0 <= i < |batches| ==> reports[i] == Handle(Buffer(batches[i]), Some(old(h.lastId) + 1 + i)))
  {
    var k := configured;
    if k <= 0 {
      k := REQUESTS_COUNT_MAX;
    }
    hide Step, Batches, Transactions, InFlight, Buffer;
    reports := [];
    ghost var batches := Batches(h.pending, k);
    ghost var all := Transactions(batches, h.lastId);
    TransactionsAt(batches, h.lastId);
    ghost var done := 0;
    assert batches[0..] == batches && all[0..] == all;
    while true
      invariant 0 <= done <= |batches| && done == |reports| && (done == |batches| ==> batches == [])
      invariant Batches(h.pending, k) == batches[done..] && Transactions(batches[done..], h.lastId) == all[done..]
      invariant h.store == old(h.store) && h.sent == old(h.sent) + all[..done]
      invariant forall i :: 0 <= i < done ==> reports[i] == Handle(Buffer(all[i].records), Some(all[i].id))
      decreases |h.pending|
    {
      ghost var before := h.Now();
      var handle := h.RequestsData(k);
      reports := reports + [handle];
      var hasDataToSend := h.pending != [];
      NothingWaits(before, k);
      if before.pending != [] {
        OneBatch(before, k, batches[done..]);
        OneFurther(batches, done);
        OneFurther(all, done);
        BufferIsRead(all[done].records);
        done := done + 1;
      } else {
        BufferIsRead([]);
      }
      assert handle.buffer != "";
      if !hasDataToSend {
        break;
      }
    }
    assert Batches([], k) == batches[done..] && done == |batches|;
    assert all[..done] == all;
  }

  lemma {:induction false} TransactionsAt(batches: seq<seq<Record>>, lastId: int)
    ensures |Transactions(batches, lastId)| == |batches|
    ensures forall i :: 0 <= i < |batches| ==>
      Transactions(batches, lastId)[i] == Transaction(lastId + 1 + i, batches[i])
  {
    if batches != [] {
      TransactionsAt(batches[1..], lastId + 1);
    }
  }

  /** The text of a report is not empty, as the source asserts, and parses back to its records. */
  lemma BufferIsRead(records: seq<Record>)
    ensures Buffer(records) != ""
    ensures forall toDouble, root :: var r := Parse(toDouble, Buffer(records), root);
      r.Ret? && r.ok && Strip(r.value) == ArrayOf(records)
  {
    hide Parse, StyledDoc;
    forall toDouble, root
      ensures var r := Parse(toDouble, Buffer(records), root); r.Ret? && r.ok && Strip(r.value) == ArrayOf(records)
    {
      BufferReadsBack(REPORT, toDouble, records, root);
    }
  }

  lemma OneFurther<T>(xs: seq<T>, i: nat)
    requires i < |xs|
    ensures xs[i..][0] == xs[i] && xs[i..][1..] == xs[i + 1..] && xs[..i + 1] == xs[..i] + [xs[i]]
  {
  }

  lemma NothingWaits(s: State, k: int)
    requires k > 0
    ensures s.pending == [] ==> Step(s, Send(k)) == s
    ensures Batches([], k) == []
  {
  }

  lemma FirstTransaction(batches: seq<seq<Record>>, lastId: int)
    requires batches != []
    ensures var ts := Transactions(batches, lastId);
      ts != [] && ts[0] == Transaction(lastId + 1, batches[0]) && ts[1..] == Transactions(batches[1..], lastId + 1)
  {
  }

  /** How many records the first batch holds, and which ones stay. */
  function FirstSize(waiting: nat, k: int): nat
    requires k > 0
  {
    if waiting <= k then waiting else k
  }

  /** What one send does, in terms of the first batch. */
  lemma SendFirstBatch(s: State, k: int)
    requires k > 0 && s.pending != []
    ensures var t, n := Step(s, Send(k)), FirstSize(|s.pending|, k);
      && t.lastId == s.lastId + 1 && t.store == s.store
      && t.sent == s.sent + [Transaction(s.lastId + 1, s.pending[..n])] && t.pending == s.pending[n..]
  {
  }

  lemma FirstBatch(records: seq<Record>, k: int)
    requires k > 0 && records != []
    ensures var bs, n := Batches(records, k), FirstSize(|records|, k);
      bs != [] && bs[0] == records[..n] && bs[1..] == Batches(records[n..], k) && (|records| <= k <==> |bs| == 1)
  {
    if |records| <= k {
      assert records[|records|..] == [] && records[..|records|] == records;
    } else {
      assert records[k..] != [];
    }
  }

  /** One turn of the loop sends the first of the remaining batches. */
  lemma OneBatch(s: State, k: int, batches: seq<seq<Record>>)
    requires k > 0 && s.pending != [] && batches == Batches(s.pending, k)
    ensures var t := Step(s, Send(k));
      && batches != [] && Transactions(batches, s.lastId) != []
      && t.sent == s.sent + [Transactions(batches, s.lastId)[0]]
      && Batches(t.pending, k) == batches[1..] && t.lastId == s.lastId + 1 && t.store == s.store
      && Transactions(batches[1..], t.lastId) == Transactions(batches, s.lastId)[1..]
      && (t.pending == [] <==> |batches| == 1) && |t.pending| < |s.pending|
  {
    hide Step, Batches, Transactions;
    SendFirstBatch(s, k);
    FirstBatch(s.pending, k);
    FirstTransaction(batches, s.lastId);
  }
}
