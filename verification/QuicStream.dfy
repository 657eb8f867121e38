/** Delivery of a QUIC stream to its delegate: early data is cached, the response comes first,
    silence for too long fails the stream. */
module QuicStream {

  const TIMEOUT_MS := 20000
  const TWO_64 := 0x1_0000_0000_0000_0000

  /** The calls the delegate receives. */
  datatype Callback =
    | Response
    | Received(bytes: string)
    | Failed(timeout: bool)
    | Completed

  /** What happens to the stream: headers, frames, decrypted data, the visitor's close, timer
      updates and socket errors. */
  datatype Event =
    | Headers
    | Frame
    | Incoming(bytes: string)
    | Close
    | Update(now: nat)
    | SocketError

  datatype State = State(
    delegate: bool,
    initialMS: nat,
    failed: bool,
    headersDelivered: bool,
    cache: seq<string>,
    log: seq<Callback>)

  // ---- The specification of each event ----

  function Deliveries(cache: seq<string>): seq<Callback> {
    if cache == [] then [] else [Received(cache[0])] + Deliveries(cache[1..])
  }

  /** should_add_incoming_data: null or empty data only flushes the cache. */
  function Accept(s: State, bytes: string): State {
    if !s.headersDelivered then
      if bytes == "" then s else s.(cache := s.cache + [bytes])
    else if !s.delegate then s
    else s.(cache := [], log := s.log + Deliveries(s.cache) + if bytes == "" then [] else [Received(bytes)])
  }

  /** The age is a difference of unsigned 64-bit numbers. */
  function Age(now: nat, since: nat): nat { (now - since) % TWO_64 }

  function Fail(s: State, timeout: bool): State {
    s.(failed := true, log := s.log + if s.delegate then [Failed(timeout)] else [])
  }

  function Step(s: State, e: Event): State {
    var live := !s.failed && s.delegate;
    match e
    case Headers => if live then s.(log := s.log + [Response], initialMS := 0, headersDelivered := true) else s
    case Frame => if live then s.(initialMS := 0) else s
    case Incoming(bytes) => Accept(s, bytes)
    case Close =>
      if !live then s
      else
        var begun := if s.headersDelivered then s else s.(log := s.log + [Response], headersDelivered := true);
        var flushed := Accept(begun, "");
        flushed.(log := flushed.log + [Completed], initialMS := 0)
    case Update(now) =>
      if s.failed then s
      else if s.initialMS == 0 then s.(initialMS := now)
      else if Age(now, s.initialMS) > TIMEOUT_MS then Fail(s, true)
      else s
    case SocketError => if s.failed then s else Fail(s, false)
  }

  // ---- The stream as it runs ----

  /** `log` stands for the calls made on the delegate. */
  class QUICDataStream {
    var delegate: bool
    var initialMS: nat
    var failed: bool
    var headersDelivered: bool
    var cacheList: seq<string>
    var log: seq<Callback>

    ghost function Now(): State
      reads this
    {
      State(delegate, initialMS, failed, headersDelivered, cacheList, log)
    }

    constructor ()
      ensures Now() == State(false, 0, false, false, [], [])
    {
      delegate, initialMS, failed, headersDelivered, cacheList, log := false, 0, false, false, [], [];
    }

    method SetDelegate()
      modifies this
      ensures Now() == old(Now()).(delegate := true)
    {
      delegate := true;
    }

    method OnStreamFrame()
      modifies this
      ensures Now() == Step(old(Now()), Frame)
    {
      if !failed && delegate {
        initialMS := 0;
      }
    }

    method OnInitialHeadersComplete()
      modifies this
      ensures Now() == Step(old(Now()), Headers)
    {
      if !failed && delegate {
        log := log + [Response];
        initialMS := 0;
        headersDelivered := true;
      }
    }

    method ShouldAddIncomingData(bytes: string) returns (r: bool)
      modifies this
      ensures Now() == Accept(old(Now()), bytes) && !r
    {
      if headersDelivered {
        if delegate {
          if |cacheList| > 0 {
            ghost var before := log;
            var i := 0;
            assert cacheList[0..] == cacheList;
            while i < |cacheList|
              invariant 0 <= i <= |cacheList|
              invariant Now() == old(Now()).(log := log)
              invariant log + Deliveries(cacheList[i..]) == before + Deliveries(cacheList)
            {
              assert cacheList[i..][1..] == cacheList[i + 1..];
              assert log + ([Received(cacheList[i])] + Deliveries(cacheList[i + 1..]))
                == (log + [Received(cacheList[i])]) + Deliveries(cacheList[i + 1..]);
              log := log + [Received(cacheList[i])];
              i := i + 1;
            }
            cacheList := [];
          } else {
            assert log + Deliveries(cacheList) == log;
          }
          if |bytes| > 0 {
            log := log + [Received(bytes)];
          } else {
            assert log + [] == log;
          }
        }
      } else {
        if |bytes| > 0 {
          cacheList := cacheList + [bytes];
        }
      }
      r := false;
    }

    method OnVisitorSentClose()
      modifies this
      ensures Now() == Step(old(Now()), Close)
    {
      if !failed && delegate {
        if !headersDelivered {
          log := log + [Response];
          headersDelivered := true;
        }
        var added := ShouldAddIncomingData("");
        log := log + [Completed];
        initialMS := 0;
      }
    }

    method Tick(nowMS: nat)
      requires nowMS < TWO_64
      modifies this
      ensures Now() == Step(old(Now()), Update(nowMS))
    {
      if failed {
        return;
      }
      if initialMS == 0 {
        initialMS := nowMS;
        return;
      }
      var age := (nowMS - initialMS) % TWO_64;
      if age > TIMEOUT_MS {
        failed := true;
        if delegate {
          log := log + [Failed(true)];
        } else {
          assert log + [] == log;
        }
      }
    }

    method OnSocketError()
      modifies this
      ensures Now() == Step(old(Now()), SocketError)
    {
      if failed {
        return;
      }
      failed := true;
      if delegate {
        log := log + [Failed(false)];
      } else {
        assert log + [] == log;
      }
    }
  }

  // ---- Runs with a delegate ----

  const OPEN := State(true, 0, false, false, [], [])

  function After(run: seq<Event>): State {
    if run == [] then OPEN else Step(After(run[..|run| - 1]), run[|run| - 1])
  }

  function Concat(xs: seq<string>): string {
    if xs == [] then "" else xs[0] + Concat(xs[1..])
  }

  /** All bytes handed to the delegate. */
  function Delivered(log: seq<Callback>): string {
    if log == [] then ""
    else Delivered(log[..|log| - 1]) + match log[|log| - 1] { case Received(b) => b case _ => "" }
  }

  /** All bytes that came in. */
  function Arrived(run: seq<Event>): string {
    if run == [] then ""
    else Arrived(run[..|run| - 1]) + match run[|run| - 1] { case Incoming(b) => b case _ => "" }
  }

  /** Data comes only after a response; a completion only before any failure; one failure. */
  ghost predicate GoodLog(log: seq<Callback>) {
    && (forall i :: 0 <= i < |log| && log[i].Received? ==> exists j :: 0 <= j < i && log[j] == Response)
    && (forall i, j :: 0 <= i < j < |log| && log[i].Failed? ==>
          !log[j].Failed? && !log[j].Completed? && log[j] != Response)
  }

  /** Which callbacks a log holds, as the state remembers it. */
  ghost predicate Remembers(s: State) {
    && (s.headersDelivered <==> exists j :: 0 <= j < |s.log| && s.log[j] == Response)
    && (s.failed <==> exists j :: 0 <= j < |s.log| && s.log[j].Failed?)
  }

  lemma {:induction false} DeliveredAppend(log: seq<Callback>, more: seq<Callback>)
    ensures Delivered(log + more) == Delivered(log) + Delivered(more)
    decreases |more|
  {
    if more == [] {
      assert log + more == log;
    } else {
      var n := |more| - 1;
      assert (log + more)[..|log + more| - 1] == log + more[..n];
      DeliveredAppend(log, more[..n]);
    }
  }

  lemma {:induction false} DeliveriesDeliver(cache: seq<string>)
    ensures Delivered(Deliveries(cache)) == Concat(cache)
  {
    hide Delivered;
    if cache == [] {
      EmptyRun();
    } else {
      DeliveriesDeliver(cache[1..]);
      DeliveredAppend([Received(cache[0])], Deliveries(cache[1..]));
      EmptyRun();
      DeliveredOne([], Received(cache[0]));
      assert [] + [Received(cache[0])] == [Received(cache[0])];
    }
  }

  lemma {:induction false} ConcatAppend(xs: seq<string>, x: string)
    ensures Concat(xs + [x]) == Concat(xs) + x
  {
    if xs == [] {
      assert [x][1..] == [];
    } else {
      assert (xs + [x])[1..] == xs[1..] + [x];
      ConcatAppend(xs[1..], x);
    }
  }

  lemma DeliveredOne(log: seq<Callback>, c: Callback)
    ensures Delivered(log + [c]) == Delivered(log) + match c { case Received(b) => b case _ => "" }
  {
    assert (log + [c])[..|log|] == log;
  }

  /** Accepting bytes puts them behind everything delivered or cached before. */
  lemma AcceptKeepsOrder(s: State, bytes: string)
    requires s.delegate
    ensures var t := Accept(s, bytes);
      Delivered(t.log) + Concat(t.cache) == Delivered(s.log) + Concat(s.cache) + bytes
    ensures s.headersDelivered ==> Accept(s, bytes).cache == []
  {
    if !s.headersDelivered {
      ConcatAppend(s.cache, bytes);
      assert Delivered(s.log) + (Concat(s.cache) + bytes) == Delivered(s.log) + Concat(s.cache) + bytes;
    } else {
      DeliveredAppend(s.log, Deliveries(s.cache));
      DeliveriesDeliver(s.cache);
      if bytes != "" {
        DeliveredOne(s.log + Deliveries(s.cache), Received(bytes));
      } else {
        assert s.log + Deliveries(s.cache) + [] == s.log + Deliveries(s.cache);
      }
    }
  }

  /** What an event adds to the bytes. */
  lemma StepKeepsOrder(s: State, e: Event)
    requires s.delegate
    ensures var t := Step(s, e);
      t.delegate &&
      Delivered(t.log) + Concat(t.cache)
        == Delivered(s.log) + Concat(s.cache) + match e { case Incoming(b) => b case _ => "" }
  {
    hide Delivered, Concat, Accept;
    match e {
      case Incoming(bytes) =>
        AcceptKeepsOrder(s, bytes);
        AcceptKeepsFlags(s, bytes);
      case Headers => DeliveredOne(s.log, Response);
      case Close =>
        DeliveredOne(s.log, Response);
        var begun := if s.headersDelivered then s else s.(log := s.log + [Response], headersDelivered := true);
        AcceptKeepsOrder(begun, "");
        AcceptKeepsFlags(begun, "");
        DeliveredOne(Accept(begun, "").log, Completed);
        AddNothing(Delivered(s.log));
        AddNothing(Delivered(begun.log) + Concat(begun.cache));
        AddNothing(Delivered(Accept(begun, "").log));
      case Update(_) => DeliveredOne(s.log, Failed(true));
      case SocketError => DeliveredOne(s.log, Failed(false));
      case Frame =>
    }
  }

  lemma AddNothing(x: string)
    ensures x + "" == x
  {
  }

  lemma AcceptKeepsFlags(s: State, bytes: string)
    ensures var t := Accept(s, bytes);
      t.delegate == s.delegate && t.failed == s.failed && t.headersDelivered == s.headersDelivered
        && t.initialMS == s.initialMS
  {
  }

  lemma Logged(s: State, c: Callback, t: State)
    requires GoodLog(s.log) && Remembers(s) && t.log == s.log + [c]
    requires c.Received? ==> s.headersDelivered
    requires !c.Received? ==> !s.failed
    requires t.headersDelivered == (s.headersDelivered || c == Response) && t.failed == (s.failed || c.Failed?)
    ensures GoodLog(t.log) && Remembers(t)
  {
    var n := |s.log|;
    assert t.log[n] == c;
    assert forall j :: 0 <= j < n ==> t.log[j] == s.log[j];
  }

  lemma {:induction false} LoggedDeliveries(s: State, cache: seq<string>)
    requires GoodLog(s.log) && Remembers(s) && s.headersDelivered
    ensures var t := s.(log := s.log + Deliveries(cache)); GoodLog(t.log) && Remembers(t)
    decreases |cache|
  {
    hide GoodLog, Remembers;
    if cache == [] {
      assert s.log + Deliveries(cache) == s.log;
    } else {
      var t := s.(log := s.log + [Received(cache[0])]);
      Logged(s, Received(cache[0]), t);
      LoggedDeliveries(t, cache[1..]);
      assert t.log + Deliveries(cache[1..]) == s.log + Deliveries(cache);
    }
  }

  lemma AcceptKeepsLog(s: State, bytes: string)
    requires GoodLog(s.log) && Remembers(s)
    ensures var t := Accept(s, bytes); GoodLog(t.log) && Remembers(t)
  {
    hide GoodLog, Deliveries;
    if s.headersDelivered && s.delegate {
      LoggedDeliveries(s, s.cache);
      var flushed := s.(log := s.log + Deliveries(s.cache));
      if bytes != "" {
        Logged(flushed, Received(bytes), Accept(s, bytes));
      } else {
        assert Accept(s, bytes).log == flushed.log;
      }
    }
  }

  lemma StepKeepsLog(s: State, e: Event)
    requires s.delegate && GoodLog(s.log) && Remembers(s)
    ensures var t := Step(s, e); GoodLog(t.log) && Remembers(t)
  {
    hide GoodLog, Remembers, Accept;
    var t := Step(s, e);
    match e {
      case Incoming(bytes) => AcceptKeepsLog(s, bytes);
      case Headers => if !s.failed { Logged(s, Response, t); }
      case Close =>
        if !s.failed {
          var begun := if s.headersDelivered then s else s.(log := s.log + [Response], headersDelivered := true);
          if !s.headersDelivered {
            Logged(s, Response, begun);
          }
          AcceptKeepsLog(begun, "");
          AcceptKeepsFlags(begun, "");
          var flushed := Accept(begun, "");
          Logged(flushed, Completed, t);
        }
      case Update(_) => if t.failed && !s.failed { Logged(s, Failed(true), t); } else { SameLog(s, t); }
      case SocketError => if !s.failed { Logged(s, Failed(false), t); }
      case Frame => SameLog(s, t);
    }
  }

  lemma SameLog(s: State, t: State)
    requires GoodLog(s.log) && Remembers(s) && t.log == s.log && t.failed == s.failed
      && t.headersDelivered == s.headersDelivered
    ensures GoodLog(t.log) && Remembers(t)
  {
  }

  /** The stream is an ordered lossless channel: in every run with a delegate, what was delivered
      followed by what is cached is what arrived; no data precedes the response; at most one
      failure is reported, and no response, completion or second failure follows it. */
  lemma {:induction false} OrderedAndLossless(run: seq<Event>)
    ensures var s := After(run);
      && s.delegate && Delivered(s.log) + Concat(s.cache) == Arrived(run)
      && GoodLog(s.log) && Remembers(s)
  {
    hide Step, Delivered, Concat, GoodLog, Remembers;
    if run == [] {
      EmptyRun();
    } else {
      OrderedAndLossless(run[..|run| - 1]);
      var s := After(run[..|run| - 1]);
      StepKeepsOrder(s, run[|run| - 1]);
      StepKeepsLog(s, run[|run| - 1]);
    }
  }

  lemma EmptyRun()
    ensures Delivered([]) == "" && Concat([]) == "" && GoodLog([]) && Remembers(OPEN)
  {
  }

  /** When the close of a live stream is reported, everything that arrived has been delivered. */
  lemma CompleteAtClose(run: seq<Event>)
    requires run != [] && run[|run| - 1] == Close && !After(run[..|run| - 1]).failed
    ensures var s := After(run);
      && s.cache == [] && Delivered(s.log) == Arrived(run)
      && s.log != [] && s.log[|s.log| - 1] == Completed && Response in s.log
  {
    hide Delivered, Deliveries;
    OrderedAndLossless(run);
    OrderedAndLossless(run[..|run| - 1]);
    var s := After(run);
    assert Delivered(s.log) + "" == Delivered(s.log);
  }

  // ---- What is announced, and how soon ----

  predicate FailureReported(log: seq<Callback>) { exists c :: c in log && c.Failed? }

  /** The responses due: one for every header event before any failure, and one for a close that
      finds none. */
  function ResponsesDue(run: seq<Event>): nat {
    if run == [] then 0
    else
      var p := run[..|run| - 1];
      var due := ResponsesDue(p);
      if FailureReported(After(p).log) then due
      else match run[|run| - 1]
        case Headers => due + 1
        case Close => if due == 0 then 1 else due
        case _ => due
  }

  /** The completions due: one for every close before any failure. */
  function CompletionsDue(run: seq<Event>): nat {
    if run == [] then 0
    else
      var p := run[..|run| - 1];
      CompletionsDue(p) + if run[|run| - 1] == Close && !FailureReported(After(p).log) then 1 else 0
  }

  /** Exactly the responses and completions that are due are in the log. */
  lemma {:induction false} AnnouncesExactly(run: seq<Event>)
    ensures multiset(After(run).log)[Response] == ResponsesDue(run)
    ensures multiset(After(run).log)[Completed] == CompletionsDue(run)
  {
    hide Accept, GoodLog;
    if run == [] {
    } else {
      var p := run[..|run| - 1];
      AnnouncesExactly(p);
      OrderedAndLossless(p);
      RemembersLog(After(p));
      StepCounts(After(p), run[|run| - 1]);
    }
  }

  lemma RemembersLog(s: State)
    requires Remembers(s)
    ensures s.failed <==> FailureReported(s.log)
    ensures s.headersDelivered <==> multiset(s.log)[Response] > 0
    ensures s.headersDelivered <==> Response in s.log
  {
    assert Response in s.log <==> multiset(s.log)[Response] > 0;
  }

  lemma StepCounts(s: State, e: Event)
    requires s.delegate
    ensures var announced := if s.failed then 0 else match e
        case Headers => 1
        case Close => (if s.headersDelivered then 0 else 1)
        case _ => 0;
      multiset(Step(s, e).log)[Response] == multiset(s.log)[Response] + announced
    ensures multiset(Step(s, e).log)[Completed]
      == multiset(s.log)[Completed] + if e == Close && !s.failed then 1 else 0
  {
    hide Accept;
    match e {
      case Incoming(bytes) => AcceptCounts(s, bytes);
      case Close =>
        var begun := if s.headersDelivered then s else s.(log := s.log + [Response], headersDelivered := true);
        AcceptCounts(begun, "");
      case _ =>
    }
  }

  lemma AcceptCounts(s: State, bytes: string)
    ensures multiset(Accept(s, bytes).log)[Response] == multiset(s.log)[Response]
    ensures multiset(Accept(s, bytes).log)[Completed] == multiset(s.log)[Completed]
  {
    OnlyData(s.cache);
  }

  lemma {:induction false} OnlyData(cache: seq<string>)
    ensures multiset(Deliveries(cache))[Response] == 0 && multiset(Deliveries(cache))[Completed] == 0
  {
    if cache != [] {
      OnlyData(cache[1..]);
    }
  }

  /** Once headers came, with no failure reported before, the response is in the log for good, and
      every later piece of data finds the way free: nothing is left in the cache behind it. */
  lemma {:induction false} DeliversPromptly(run: seq<Event>, i: nat)
    requires i < |run| && run[i] == Headers && !FailureReported(After(run[..i]).log)
    ensures Response in After(run).log
    ensures run[|run| - 1].Incoming? ==> After(run).cache == [] && Delivered(After(run).log) == Arrived(run)
    decreases |run|
  {
    hide Accept, GoodLog, Delivered, Concat;
    var n := |run| - 1;
    var p := run[..n];
    OrderedAndLossless(run);
    OrderedAndLossless(p);
    RemembersLog(After(p));
    RemembersLog(After(run));
    if i < n {
      assert p[..i] == run[..i];
      DeliversPromptly(p, i);
      StaysBegun(After(p), run[n]);
      if run[n].Incoming? {
        AcceptKeepsOrder(After(p), run[n].bytes);
        EmptyRun();
        assert Delivered(After(run).log) + "" == Delivered(After(run).log);
      }
    }
  }

  lemma StaysBegun(s: State, e: Event)
    ensures s.headersDelivered ==> Step(s, e).headersDelivered
  {
  }

  /** A socket error of a stream that has reported none is reported, as such and at once. */
  lemma SocketErrorIsReported(run: seq<Event>)
    requires !FailureReported(After(run).log)
    ensures After(run + [SocketError]).log == After(run).log + [Failed(false)]
  {
    OrderedAndLossless(run);
    RemembersLog(After(run));
    assert (run + [SocketError])[..|run|] == run;
  }

  /** The pieces of data the delegate receives are those that came, one for one. */
  function Pieces(log: seq<Callback>): seq<string> {
    if log == [] then []
    else Pieces(log[..|log| - 1]) + match log[|log| - 1] { case Received(b) => [b] case _ => [] }
  }

  function PiecesCome(run: seq<Event>): seq<string> {
    if run == [] then []
    else PiecesCome(run[..|run| - 1]) + match run[|run| - 1] {
      case Incoming(b) => if b == "" then [] else [b]
      case _ => []
    }
  }

  lemma {:induction false} PieceByPiece(run: seq<Event>)
    ensures Pieces(After(run).log) + After(run).cache == PiecesCome(run)
  {
    hide Accept, Pieces;
    if run == [] {
      NoPieces();
    } else {
      var p := run[..|run| - 1];
      PieceByPiece(p);
      OrderedAndLossless(p);
      StepPieces(After(p), run[|run| - 1]);
    }
  }

  lemma NoPieces()
    ensures Pieces([]) == []
  {
  }

  lemma OnePiece(log: seq<Callback>, c: Callback)
    ensures Pieces(log + [c]) == Pieces(log) + match c { case Received(b) => [b] case _ => [] }
  {
    assert (log + [c])[..|log|] == log;
  }

  lemma {:induction false} DeliveredPieces(log: seq<Callback>, cache: seq<string>)
    ensures Pieces(log + Deliveries(cache)) == Pieces(log) + cache
    decreases |cache|
  {
    hide Pieces;
    if cache == [] {
      assert log + Deliveries(cache) == log && Pieces(log) + cache == Pieces(log);
    } else {
      OnePiece(log, Received(cache[0]));
      DeliveredPieces(log + [Received(cache[0])], cache[1..]);
      assert log + Deliveries(cache) == log + [Received(cache[0])] + Deliveries(cache[1..]);
      assert Pieces(log) + cache == Pieces(log) + [cache[0]] + cache[1..];
    }
  }

  lemma AcceptPieces(s: State, bytes: string)
    requires s.delegate
    ensures var t := Accept(s, bytes);
      Pieces(t.log) + t.cache == Pieces(s.log) + s.cache + if bytes == "" then [] else [bytes]
  {
    hide Pieces, Deliveries;
    if s.headersDelivered {
      DeliveredPieces(s.log, s.cache);
      if bytes == "" {
        assert s.log + Deliveries(s.cache) + [] == s.log + Deliveries(s.cache);
      } else {
        OnePiece(s.log + Deliveries(s.cache), Received(bytes));
      }
    }
  }

  lemma StepPieces(s: State, e: Event)
    requires s.delegate
    ensures var t := Step(s, e);
      Pieces(t.log) + t.cache == Pieces(s.log) + s.cache + match e {
        case Incoming(b) => if b == "" then [] else [b]
        case _ => []
      }
  {
    hide Accept, Pieces;
    match e {
      case Incoming(bytes) => AcceptPieces(s, bytes);
      case Headers => OnePiece(s.log, Response);
      case Close =>
        OnePiece(s.log, Response);
        var begun := if s.headersDelivered then s else s.(log := s.log + [Response], headersDelivered := true);
        AcceptPieces(begun, "");
        assert Pieces(s.log) + [] == Pieces(s.log);
        assert Pieces(begun.log) + begun.cache + [] == Pieces(s.log) + s.cache;
        assert Pieces(Accept(begun, "").log) + [] == Pieces(Accept(begun, "").log);
        assert Pieces(s.log) + s.cache + [] == Pieces(s.log) + s.cache;
        OnePiece(Accept(begun, "").log, Completed);
      case Update(_) => OnePiece(s.log, Failed(true));
      case SocketError => OnePiece(s.log, Failed(false));
      case Frame =>
    }
  }

  /** A stream that never had a delegate calls nobody and keeps all data. */
  function Undelegated(run: seq<Event>): State {
    if run == [] then OPEN.(delegate := false) else Step(Undelegated(run[..|run| - 1]), run[|run| - 1])
  }

  lemma {:induction false} WaitsForADelegate(run: seq<Event>)
    ensures var s := Undelegated(run); !s.delegate && !s.headersDelivered && s.log == [] && s.cache == PiecesCome(run)
  {
    if run != [] {
      WaitsForADelegate(run[..|run| - 1]);
    }
  }

  // ---- The timeout ----

  /** Events that show the peer is alive. */
  predicate IsActivity(e: Event) { e.Headers? || e.Frame? || e.Close? }

  ghost predicate MonotoneClock(run: seq<Event>) {
    && (forall i :: 0 <= i < |run| && run[i].Update? ==> run[i].now < TWO_64)
    && forall i, j :: 0 <= i < j < |run| && run[i].Update? && run[j].Update? ==> run[i].now <= run[j].now
  }

  /** A running timer was started by an update, and no activity came since. */
  lemma {:induction false} TimerStart(run: seq<Event>) returns (i: nat)
    requires After(run).initialMS != 0 && !After(run).failed
    ensures i < |run| && run[i] == Update(After(run).initialMS)
    ensures forall k :: i < k < |run| ==> !IsActivity(run[k])
  {
    hide Accept;
    var n := |run| - 1;
    OrderedAndLossless(run[..n]);
    var s := After(run[..n]);
    if s.initialMS == 0 {
      i := n;
      StartsOnlyOnUpdate(s, run[n]);
    } else {
      KeepsTimer(s, run[n]);
      i := TimerStart(run[..n]);
    }
  }

  lemma StartsOnlyOnUpdate(s: State, e: Event)
    requires s.initialMS == 0 && Step(s, e).initialMS != 0
    ensures e == Update(Step(s, e).initialMS)
  {
  }

  lemma KeepsTimer(s: State, e: Event)
    requires s.delegate && s.initialMS != 0 && Step(s, e).initialMS != 0 && !Step(s, e).failed
    ensures Step(s, e).initialMS == s.initialMS && !IsActivity(e) && !s.failed
  {
  }

  /** The update at position i is too long before the last event, with no activity in between. */
  ghost predicate TooOld(run: seq<Event>, i: nat)
    requires run != [] && run[|run| - 1].Update?
  {
    && i < |run| - 1 && run[i].Update? && run[i].now > 0 && run[|run| - 1].now - run[i].now > TIMEOUT_MS
    && forall k :: i < k < |run| - 1 ==> !IsActivity(run[k])
  }

  /** With a monotone clock the stream times out at an update if and only if some earlier update
      is more than the timeout before it with no header, frame or close in between. */
  lemma TimesOutExactly(run: seq<Event>)
    requires run != [] && run[|run| - 1].Update? && MonotoneClock(run) && !After(run[..|run| - 1]).failed
    ensures After(run).failed <==> exists i :: TooOld(run, i)
    ensures After(run).log == After(run[..|run| - 1]).log + if After(run).failed then [Failed(true)] else []
  {
    hide After, Step, TooOld;
    OrderedAndLossless(run[..|run| - 1]);
    TimeoutLog(After(run[..|run| - 1]), run[|run| - 1].now);
    var n := |run| - 1;
    LastStep(run);
    var s := After(run[..n]);
    if s.initialMS != 0 {
      var i := TimerStart(run[..n]);
      assert run[i] == Update(s.initialMS);
      UpdateFails(s, run[i].now, run[n].now);
      if After(run).failed {
        TooOldIntro(run, run[..n], i);
      }
    } else {
      TimerOff(s, run[n].now);
    }
    if i :| TooOld(run, i) {
      TooOldFails(run, i);
    }
  }

  lemma TimeoutLog(s: State, now: nat)
    requires s.delegate && !s.failed
    ensures var t := Step(s, Update(now)); t.log == s.log + if t.failed then [Failed(true)] else []
  {
  }

  /** A clock that steps back below the start of the timer fails the stream too, because the age is
      unsigned, unless it wraps around to a small number. */
  lemma ClockStepsBack(s: State, now: nat)
    requires !s.failed && now < s.initialMS < TWO_64
    ensures Step(s, Update(now)).failed <==> s.initialMS - now < TWO_64 - TIMEOUT_MS
  {
    assert Age(now, s.initialMS) == TWO_64 - (s.initialMS - now);
  }

  lemma LastStep(run: seq<Event>)
    requires run != []
    ensures After(run) == Step(After(run[..|run| - 1]), run[|run| - 1])
  {
  }

  lemma UpdateFails(s: State, since: nat, now: nat)
    requires !s.failed && s.initialMS == since != 0 && since <= now < TWO_64
    ensures Step(s, Update(now)).failed <==> now - since > TIMEOUT_MS
  {
    assert Age(now, since) == now - since;
  }

  lemma TimerOff(s: State, now: nat)
    requires !s.failed && s.initialMS == 0
    ensures !Step(s, Update(now)).failed
  {
  }

  lemma TooOldIntro(run: seq<Event>, p: seq<Event>, i: nat)
    requires run != [] && p == run[..|run| - 1] && run[|run| - 1].Update? && i < |run| - 1 && run[i].Update?
      && run[i].now > 0
    requires run[|run| - 1].now - run[i].now > TIMEOUT_MS
    requires forall k :: i < k < |run| - 1 ==> !IsActivity(p[k])
    ensures TooOld(run, i)
  {
    forall k | i < k < |run| - 1 ensures !IsActivity(run[k]) {
      assert p[k] == run[k];
    }
  }

  lemma TooOldFails(run: seq<Event>, i: nat)
    requires run != [] && run[|run| - 1].Update? && MonotoneClock(run) && !After(run[..|run| - 1]).failed
      && TooOld(run, i)
    ensures After(run).failed
  {
    hide After, Step;
    var n := |run| - 1;
    LastStep(run);
    TimerIsOlder(run[..n], i);
    var s := After(run[..n]);
    var j := TimerStart(run[..n]);
    assert run[j] == Update(s.initialMS);
    UpdateFails(s, run[j].now, run[n].now);
  }

  /** Without activity since an update, the timer runs from no later than that update. */
  lemma {:induction false} TimerIsOlder(run: seq<Event>, i: nat)
    requires i < |run| && run[i].Update? && run[i].now > 0 && MonotoneClock(run) && !After(run).failed
    requires forall k :: i < k < |run| ==> !IsActivity(run[k])
    ensures 0 < After(run).initialMS <= run[i].now
  {
    hide Accept;
    var n := |run| - 1;
    var s := After(run[..n]);
    NotFailedBefore(s, run[n]);
    if i < n {
      TimerIsOlder(run[..n], i);
      TimerStays(s, run[n]);
    } else if s.initialMS != 0 {
      var j := TimerStart(run[..n]);
      assert run[j].now <= run[n].now;
    }
  }

  lemma NotFailedBefore(s: State, e: Event)
    ensures s.failed ==> Step(s, e).failed
  {
  }

  lemma TimerStays(s: State, e: Event)
    requires s.initialMS != 0 && !IsActivity(e)
    ensures Step(s, e).initialMS == s.initialMS
  {
  }
}
