/**
 The causal order of a run, defined from who did what and in which order, without looking at any clock.

 A run is logged as one global sequence of events.  A receive is matched with a send by counting: inboxes are
 first-in first-out, so the k-th receive of a process takes the k-th message sent to it.
 */
module CausalHistory {
  import opened VectorClock

  datatype Kind =
    | Local
    | Send(target: nat)
    | Recv(sender: nat, message: Clock)

  /** An entry of the history: the process, the action with its peer, and a copy of the clock after it. */
  datatype Event = Event(pid: nat, kind: Kind, clock: Clock)

  type Log = seq<Event>

  function Last(log: Log): Event
    requires log != []
  {
    log[|log| - 1]
  }

  function Front(log: Log): Log
    requires log != []
  {
    log[..|log| - 1]
  }

  /** The number of events of process p. */
  function EventsOf(log: Log, p: nat): nat {
    if log == [] then 0 else EventsOf(Front(log), p) + if Last(log).pid == p then 1 else 0
  }

  /** The history of process p: its events, oldest first. */
  function History(log: Log, p: nat): seq<Event> {
    if log == [] then [] else History(Front(log), p) + if Last(log).pid == p then [Last(log)] else []
  }

  /** The number of receives of process p. */
  function Receives(log: Log, p: nat): nat {
    if log == [] then 0 else Receives(Front(log), p) + if Last(log).pid == p && Last(log).kind.Recv? then 1 else 0
  }

  /** The positions of the messages sent to process p, in order. */
  function SendsTo(log: Log, p: nat): seq<nat> {
    if log == [] then []
    else SendsTo(Front(log), p) + if Last(log).kind == Send(p) then [|log| - 1] else []
  }

  /** The event at j receives the message that the event at i sent. */
  predicate Delivers(log: Log, i: nat, j: nat) {
    && i < j < |log|
    && log[j].kind.Recv?
    && var sends := SendsTo(log[..j], log[j].pid);
       var k := Receives(log[..j], log[j].pid);
       k < |sends| && sends[k] == i
  }

  /** Program order, or a message. */
  predicate Edge(log: Log, i: nat, j: nat) {
    i < j < |log| && (log[i].pid == log[j].pid || Delivers(log, i, j))
  }

  ghost predicate HappensBefore(log: Log, i: nat, j: nat)
    decreases j
  {
    && i < j < |log|
    && (Edge(log, i, j) || exists k: nat :: i < k < j && HappensBefore(log, i, k) && Edge(log, k, j))
  }

  /** The event at i is the event at j, or happened before it. */
  ghost predicate InPast(log: Log, i: nat, j: nat) {
    j < |log| && (i == j || HappensBefore(log, i, j))
  }

  /** The event at i is known to process p: it lies in the past of one of p's events. */
  ghost predicate KnownTo(log: Log, i: nat, p: nat) {
    exists k: nat :: k < |log| && log[k].pid == p && InPast(log, i, k)
  }

  lemma {:induction false} HappensBeforeIsTransitive(log: Log, i: nat, j: nat, k: nat)
    requires HappensBefore(log, i, j) && HappensBefore(log, j, k)
    ensures HappensBefore(log, i, k)
    decreases k
  {
    if Edge(log, j, k) {
    } else {
      var m: nat :| j < m < k && HappensBefore(log, j, m) && Edge(log, m, k);
      HappensBeforeIsTransitive(log, i, j, m);
    }
  }

  lemma {:induction false} LaterEventsChangeNothing(log: Log, e: Event, i: nat, j: nat)
    requires j < |log|
    ensures Edge(log + [e], i, j) <==> Edge(log, i, j)
    ensures HappensBefore(log + [e], i, j) <==> HappensBefore(log, i, j)
    decreases j
  {
    assert (log + [e])[..j] == log[..j];
    forall k: nat | i < k < j
      ensures Edge(log + [e], k, j) <==> Edge(log, k, j)
      ensures HappensBefore(log + [e], i, k) <==> HappensBefore(log, i, k)
    {
      LaterEventsChangeNothing(log, e, i, k);
    }
    if HappensBefore(log, i, j) && !Edge(log, i, j) {
      var k: nat :| i < k < j && HappensBefore(log, i, k) && Edge(log, k, j);
      assert HappensBefore(log + [e], i, k) && Edge(log + [e], k, j);
    }
    if HappensBefore(log + [e], i, j) && !Edge(log + [e], i, j) {
      var k: nat :| i < k < j && HappensBefore(log + [e], i, k) && Edge(log + [e], k, j);
      assert HappensBefore(log, i, k) && Edge(log, k, j);
    }
  }

  /** What precedes a new event: what its process knew, and for a receive the past of the send it takes. */
  lemma PastOfNewEvent(log: Log, e: Event, i: nat)
    requires i < |log|
    ensures HappensBefore(log + [e], i, |log|) <==>
      || KnownTo(log, i, e.pid)
      || exists o: nat :: o < |log| && Delivers(log + [e], o, |log|) && InPast(log, i, o)
  {
    var log', j := log + [e], |log|;
    forall k: nat | k < j
      ensures HappensBefore(log', i, k) <==> HappensBefore(log, i, k)
      ensures Edge(log', k, j) <==> log[k].pid == e.pid || Delivers(log', k, j)
    {
      LaterEventsChangeNothing(log, e, i, k);
    }
    if HappensBefore(log', i, j) {
      if Edge(log', i, j) {
        assert InPast(log, i, i);
      } else {
        var k: nat :| i < k < j && HappensBefore(log', i, k) && Edge(log', k, j);
        assert InPast(log, i, k);
      }
    }
    if KnownTo(log, i, e.pid) {
      var k: nat :| k < |log| && log[k].pid == e.pid && InPast(log, i, k);
      assert Edge(log', k, j);
    }
    if o: nat :| o < |log| && Delivers(log', o, j) && InPast(log, i, o) {
      assert Edge(log', o, j);
    }
  }

  /** Every entry of a process history is an event of the log, at the place given by its rank. */
  lemma {:induction false} HistoryIsLogged(log: Log, p: nat, k: nat) returns (i: nat)
    requires k < |History(log, p)|
    ensures i < |log| && log[i] == History(log, p)[k] && log[i].pid == p && EventsOf(log[..i], p) == k
  {
    HistoryLength(Front(log), p);
    if k < |History(Front(log), p)| {
      i := HistoryIsLogged(Front(log), p, k);
      assert Front(log)[..i] == log[..i];
    } else {
      i := |log| - 1;
    }
  }

  /** Every event of the log is an entry of the history of its process. */
  lemma {:induction false} LogIsInHistory(log: Log, i: nat)
    requires i < |log|
    ensures var p := log[i].pid;
            EventsOf(log[..i], p) < |History(log, p)| && History(log, p)[EventsOf(log[..i], p)] == log[i]
  {
    if i == |log| - 1 {
      HistoryLength(Front(log), log[i].pid);
    } else {
      LogIsInHistory(Front(log), i);
      assert Front(log)[..i] == log[..i];
    }
  }

  lemma {:induction false} HistoryLength(log: Log, p: nat)
    ensures |History(log, p)| == EventsOf(log, p)
  {
    if log == [] {
    } else {
      HistoryLength(Front(log), p);
    }
  }
}
