/** The parser and the worker that share the packet list
    (src/excom-server/client.c): the mutex, the condition variable, and the
    worker's removals, which hold no lock. */
module Worker {
  import opened Bytes
  import opened Packets

  /** Where `check_packet` is: outside, between lock and unlock, or between
      unlock and signal. */
  datatype ParserAt = Outside | Appending | MustSignal

  /** Where the worker is: about to lock; asleep in the wait; awake and about
      to take the mutex again; holding it with the wait behind it; in the inner
      loop, with the variable `packet` null or not; handling the packet it has
      removed; about to look at the list again. */
  datatype WorkerAt =
    | Locking | Asleep | Awake | Holding | InLoop(loaded: Option<Packet>) | Handling(inHand: Packet) | Relooking

  /** `appended` and `handled` record every packet ever parsed and handled. */
  datatype Shared = Shared(
    queue: seq<Packet>, parser: ParserAt, worker: WorkerAt, appended: seq<Packet>, handled: seq<Packet>)

  datatype Act =
    | ParserLock | ParserAppend(packet: Packet) | ParserUnlock | ParserSignal
    | WorkerLock | WakeUp | WorkerRelock | WorkerUnlock | WorkerDequeue | WorkerHandle | WorkerRelook | WorkerLeave

  predicate MutexFree(s: Shared) {
    s.parser != Appending && s.worker != Holding
  }

  predicate Can(s: Shared, a: Act) {
    match a
    case ParserLock => s.parser == Outside && MutexFree(s)
    case ParserAppend(_) => s.parser == Appending
    case ParserUnlock => s.parser == Appending
    case ParserSignal => s.parser == MustSignal
    case WorkerLock => s.worker == Locking && MutexFree(s)
    case WakeUp => s.worker == Asleep
    case WorkerRelock => s.worker == Awake && MutexFree(s)
    case WorkerUnlock => s.worker == Holding
    case WorkerDequeue => s.worker.InLoop? && s.worker.loaded.Some? && s.queue != []
    case WorkerHandle => s.worker.Handling?
    case WorkerRelook => s.worker == Relooking
    case WorkerLeave => s.worker == InLoop(None)
  }

  function First(ps: seq<Packet>): Option<Packet> {
    if ps == [] then None else Some(ps[0])
  }

  /** The worker loads the head of the list into `packet` and removes it later:
      the removal drops whatever is first then, and the handler gets what was
      loaded. Waiting gives the mutex up, so a worker that locks and finds the
      list empty is asleep at once. `WakeUp` is a wake-up without a signal. */
  function Do(s: Shared, a: Act): Shared
    requires Can(s, a)
  {
    match a
    case ParserLock => s.(parser := Appending)
    case ParserAppend(p) => s.(queue := s.queue + [p], appended := s.appended + [p])
    case ParserUnlock => s.(parser := MustSignal)
    case ParserSignal => s.(parser := Outside, worker := if s.worker == Asleep then Awake else s.worker)
    case WorkerLock => s.(worker := if s.queue == [] then Asleep else Holding)
    case WakeUp => s.(worker := Awake)
    case WorkerRelock => s.(worker := Holding)
    case WorkerUnlock => s.(worker := InLoop(First(s.queue)))
    case WorkerDequeue => s.(queue := s.queue[1..], worker := Handling(s.worker.loaded.value))
    case WorkerHandle => s.(handled := s.handled + [s.worker.inHand], worker := Relooking)
    case WorkerRelook => s.(worker := InLoop(First(s.queue)))
    case WorkerLeave => s.(worker := Locking)
  }

  const START := Shared([], Outside, Locking, [], [])

  function RunActs(s: Shared, acts: seq<Act>): Option<Shared>
    decreases |acts|
  {
    if acts == [] then Some(s)
    else if !Can(s, acts[0]) then None
    else RunActs(Do(s, acts[0]), acts[1..])
  }

  /** The packet that is off the list and not yet handled. */
  function InHand(s: Shared): seq<Packet> {
    if s.worker.Handling? then [s.worker.inHand] else []
  }

  predicate Inv(s: Shared) {
    && s.handled + InHand(s) + s.queue == s.appended
    && !(s.parser == Appending && s.worker == Holding)
    && (s.worker == Asleep && s.queue != [] ==> s.parser != Outside)
    && (s.worker.InLoop? && s.worker.loaded.Some? ==> s.worker.loaded == First(s.queue))
  }

  lemma ActKeeps(s: Shared, a: Act)
    requires Inv(s) && Can(s, a)
    ensures Inv(Do(s, a))
  {
    match a
    case ParserAppend(p) =>
      Assoc(s.handled + InHand(s), s.queue, [p]);
    case WorkerDequeue =>
      assert s.queue == [s.queue[0]] + s.queue[1..] && s.handled + [] == s.handled;
      Assoc(s.handled, [s.queue[0]], s.queue[1..]);
    case WorkerHandle =>
      assert s.handled + [s.worker.inHand] + [] == s.handled + [s.worker.inHand];
    case _ =>
  }

  lemma {:induction false} RunKeeps(s: Shared, acts: seq<Act>)
    requires Inv(s) && RunActs(s, acts).Some?
    ensures Inv(RunActs(s, acts).value)
    decreases |acts|
  {
    hide Inv, Can, Do;
    if acts != [] {
      ActKeeps(s, acts[0]);
      RunKeeps(Do(s, acts[0]), acts[1..]);
    }
  }

  ghost predicate Reachable(s: Shared) {
    exists acts :: RunActs(START, acts) == Some(s)
  }

  lemma ReachableInv(s: Shared)
    requires Reachable(s)
    ensures Inv(s)
  {
    hide Inv;
    var acts :| RunActs(START, acts) == Some(s);
    assert Inv(START) by {
      StartInv();
    }
    RunKeeps(START, acts);
  }

  lemma StartInv()
    ensures Inv(START)
  {
  }

  // ------------------------------------------------------------------
  // The list, from the actions alone
  // ------------------------------------------------------------------

  /** The packets parsed in a run, in order. */
  function Parsed(acts: seq<Act>): seq<Packet> {
    if acts == [] then []
    else Parsed(acts[..|acts| - 1]) + if acts[|acts| - 1].ParserAppend? then [acts[|acts| - 1].packet] else []
  }

  /** How many times the worker has removed a packet, and handled one. */
  function Dequeues(acts: seq<Act>): nat {
    if acts == [] then 0
    else Dequeues(acts[..|acts| - 1]) + if acts[|acts| - 1].WorkerDequeue? then 1 else 0
  }

  function Handles(acts: seq<Act>): nat {
    if acts == [] then 0
    else Handles(acts[..|acts| - 1]) + if acts[|acts| - 1].WorkerHandle? then 1 else 0
  }

  lemma {:induction false} RunActsSnoc(s: Shared, acts: seq<Act>, a: Act)
    ensures RunActs(s, acts + [a])
         == match RunActs(s, acts)
            case None => None
            case Some(t) => if Can(t, a) then Some(Do(t, a)) else None
    decreases |acts|
  {
    hide Can, Do;
    if acts == [] {
      assert acts + [a] == [a] && [a][1..] == [];
    } else {
      TailOfSnoc(acts, a);
      if Can(s, acts[0]) {
        RunActsSnoc(Do(s, acts[0]), acts[1..], a);
      }
    }
  }

  /** What a run leaves is told by its appends and removals alone. */
  ghost predicate AsParsed(s: Shared, acts: seq<Act>) {
    var all, n := Parsed(acts), Dequeues(acts);
    && n <= |all| && s.appended == all && s.queue == all[n..]
    && s.handled + InHand(s) == all[..n] && |s.handled| == Handles(acts) <= n
  }

  lemma OneActMore(acts: seq<Act>, a: Act)
    ensures Parsed(acts + [a]) == Parsed(acts) + if a.ParserAppend? then [a.packet] else []
    ensures Dequeues(acts + [a]) == Dequeues(acts) + if a.WorkerDequeue? then 1 else 0
    ensures Handles(acts + [a]) == Handles(acts) + if a.WorkerHandle? then 1 else 0
  {
    assert (acts + [a])[..|acts|] == acts;
  }

  lemma Moved(all: seq<Packet>, n: nat)
    requires n < |all|
    ensures all[n..][0] == all[n] && all[n..][1..] == all[n + 1..] && all[..n + 1] == all[..n] + [all[n]]
  {
  }

  lemma Parsing(all: seq<Packet>, n: nat, p: Packet)
    requires n <= |all|
    ensures (all + [p])[n..] == all[n..] + [p] && (all + [p])[..n] == all[..n]
  {
  }

  lemma AsParsedStep(s: Shared, acts: seq<Act>, a: Act)
    requires Inv(s) && Can(s, a) && AsParsed(s, acts)
    ensures AsParsed(Do(s, a), acts + [a])
  {
    hide Parsed, Dequeues, Handles;
    OneActMore(acts, a);
    var all, n := Parsed(acts), Dequeues(acts);
    match a
    case ParserAppend(p) =>
      Parsing(all, n, p);
    case WorkerDequeue =>
      Moved(all, n);
      assert s.handled + [] == s.handled;
    case WorkerHandle =>
      assert s.handled + [s.worker.inHand] + [] == s.handled + [s.worker.inHand];
    case _ =>
      assert all + [] == all;
  }

  /** Exactly once, first come first served, under every interleaving: the list
      holds the packets parsed but for as many of the first as were removed, and
      these are handled, or the last of them is in hand. What the worker has
      loaded but not removed is still the first. */
  lemma ExactlyOnce(acts: seq<Act>, s: Shared)
    requires RunActs(START, acts) == Some(s)
    ensures var all, n, h := Parsed(acts), Dequeues(acts), Handles(acts);
            && h <= n <= |all|
            && s.appended == all && s.queue == all[n..]
            && s.handled == all[..h] && s.handled + InHand(s) == all[..n]
    ensures s.worker.InLoop? && s.worker.loaded.Some? ==> s.queue != [] && s.worker.loaded.value == s.queue[0]
  {
    RunAsParsed(acts, s);
    ReachableInv(s);
    hide InHand;
    var n := Dequeues(acts);
    assert s.handled == (s.handled + InHand(s))[..|s.handled|];
    assert Parsed(acts)[..n][..|s.handled|] == Parsed(acts)[..|s.handled|];
  }

  lemma {:induction false} RunAsParsed(acts: seq<Act>, s: Shared)
    requires RunActs(START, acts) == Some(s)
    ensures AsParsed(s, acts)
    decreases |acts|
  {
    hide Inv, Can, Do, AsParsed;
    if acts == [] {
      NothingParsed();
    } else {
      var front, a := acts[..|acts| - 1], acts[|acts| - 1];
      assert front + [a] == acts;
      RunActsSnoc(START, front, a);
      var before := RunActs(START, front).value;
      RunAsParsed(front, before);
      ReachableInv(before);
      AsParsedStep(before, front, a);
    }
  }

  lemma NothingParsed()
    ensures AsParsed(START, [])
  {
  }

  /** No lost wake-up: a worker that sleeps on a list that is not empty has a
      signal still to come. When the parser is outside and the worker asleep,
      every packet has been handled. */
  lemma SignalToCome(acts: seq<Act>, s: Shared)
    requires RunActs(START, acts) == Some(s) && s.worker == Asleep
    ensures s.queue != [] ==> s.parser == Appending || s.parser == MustSignal
    ensures s.parser == Outside ==> s.handled == Parsed(acts)
  {
    ReachableInv(s);
    ExactlyOnce(acts, s);
    if s.queue == [] {
      assert s.handled + [] == s.handled && Parsed(acts)[..|Parsed(acts)|] == Parsed(acts);
    }
  }

  predicate IsWorkerStep(a: Act) {
    a in {WorkerLock, WorkerRelock, WorkerUnlock, WorkerDequeue, WorkerHandle, WorkerRelook, WorkerLeave}
  }

  function Measure(s: Shared): nat {
    7 * |s.queue| + match s.worker
                    case Handling(_) => 6
                    case Relooking => 5
                    case InLoop(None) => 4
                    case Locking => 3
                    case Awake => 3
                    case Asleep => 3
                    case Holding => 2
                    case InLoop(Some(_)) => 1
  }

  /** What the worker does next when packets wait. */
  function NextStep(s: Shared): Act {
    match s.worker
    case Handling(_) => WorkerHandle
    case Relooking => WorkerRelook
    case InLoop(None) => WorkerLeave
    case Locking => WorkerLock
    case Holding => WorkerUnlock
    case InLoop(Some(_)) => WorkerDequeue
    case _ => WorkerRelock
  }

  /** Once the parser is outside, a packet in the list keeps the worker going,
      and each of its steps brings the end of the list nearer. */
  lemma WorkerDrains(s: Shared)
    requires Reachable(s) && s.parser == Outside && s.queue != []
    ensures IsWorkerStep(NextStep(s)) && Can(s, NextStep(s))
    ensures forall a: Act :: IsWorkerStep(a) && Can(s, a) ==> Measure(Do(s, a)) < Measure(s)
  {
    ReachableInv(s);
    assert IsWorkerStep(NextStep(s)) && Can(s, NextStep(s));
  }

  // ------------------------------------------------------------------
  // Every packet can be parsed, and is handled
  // ------------------------------------------------------------------

  lemma {:induction false} RunActsConcat(s: Shared, a: seq<Act>, b: seq<Act>)
    requires RunActs(s, a).Some?
    ensures RunActs(s, a + b) == RunActs(RunActs(s, a).value, b)
    decreases |a|
  {
    hide Can, Do;
    if a == [] {
      assert a + b == b;
    } else {
      assert (a + b)[1..] == a[1..] + b;
      RunActsConcat(Do(s, a[0]), a[1..], b);
    }
  }

  lemma Further(s: Shared, a: seq<Act>)
    requires Reachable(s) && RunActs(s, a).Some?
    ensures Reachable(RunActs(s, a).value)
  {
    var acts :| RunActs(START, acts) == Some(s);
    RunActsConcat(START, acts, a);
  }

  lemma Single(s: Shared, a: Act)
    requires Can(s, a)
    ensures RunActs(s, [a]) == Some(Do(s, a))
  {
    assert [a][1..] == [];
  }

  /** Nothing but a worker that holds the mutex keeps the parser out, and while
      the parser appends it can append any packet. */
  lemma ParserFree(s: Shared, p: Packet)
    ensures s.parser == Outside && s.worker != Holding ==> Can(s, ParserLock)
    ensures s.parser == Appending ==> Can(s, ParserAppend(p)) && Can(s, ParserUnlock)
    ensures s.parser == MustSignal ==> Can(s, ParserSignal)
  {
  }

  /** With the parser outside, the worker on its own handles all there is. */
  lemma {:induction false} WorkerFinishes(s: Shared) returns (acts: seq<Act>)
    requires Reachable(s) && s.parser == Outside
    ensures forall a | a in acts :: IsWorkerStep(a)
    ensures var r := RunActs(s, acts);
            r.Some? && r.value.handled == r.value.appended == s.appended && r.value.queue == []
    decreases Measure(s)
  {
    if s.queue == [] && !s.worker.Handling? {
      acts := [];
      ReachableInv(s);
      assert s.handled + [] + [] == s.handled;
    } else {
      var a := if s.worker.Handling? then WorkerHandle else NextStep(s);
      if !s.worker.Handling? {
        WorkerDrains(s);
      }
      Single(s, a);
      Further(s, [a]);
      var rest := WorkerFinishes(Do(s, a));
      acts := [a] + rest;
      assert acts[1..] == rest;
    }
  }

  lemma {:induction false} AppendMany(s: Shared, batch: seq<Packet>) returns (acts: seq<Act>)
    requires s.parser == Appending
    ensures var r := RunActs(s, acts);
            r.Some? && r.value == s.(queue := s.queue + batch, appended := s.appended + batch)
    decreases |batch|
  {
    if batch == [] {
      acts := [];
      assert s.queue + [] == s.queue && s.appended + [] == s.appended;
    } else {
      var t := Do(s, ParserAppend(batch[0]));
      var rest := AppendMany(t, batch[1..]);
      acts := [ParserAppend(batch[0])] + rest;
      assert acts[1..] == rest && batch == [batch[0]] + batch[1..];
      Assoc(s.queue, [batch[0]], batch[1..]);
      Assoc(s.appended, [batch[0]], batch[1..]);
    }
  }

  /** From any reachable state with the parser outside, whatever packets it
      parses next, there is a way on to where it has parsed them and the worker
      has handled everything. */
  lemma BatchHandled(s: Shared, batch: seq<Packet>) returns (acts: seq<Act>)
    requires Reachable(s) && s.parser == Outside
    ensures var r := RunActs(s, acts);
            r.Some? && r.value.handled == s.appended + batch && r.value.queue == []
  {
    hide Reachable;
    var unlock := if s.worker == Holding then [WorkerUnlock] else [];
    if s.worker == Holding {
      Single(s, WorkerUnlock);
    }
    var s1 := RunActs(s, unlock).value;
    Single(s1, ParserLock);
    var s2 := Do(s1, ParserLock);
    var appends := AppendMany(s2, batch);
    var s3 := RunActs(s2, appends).value;
    Single(s3, ParserUnlock);
    var s4 := Do(s3, ParserUnlock);
    Single(s4, ParserSignal);
    var s5 := Do(s4, ParserSignal);
    hide Can, Do, RunActs;
    RunActsConcat(s, unlock, [ParserLock]);
    RunActsConcat(s, unlock + [ParserLock], appends);
    RunActsConcat(s, unlock + [ParserLock] + appends, [ParserUnlock]);
    RunActsConcat(s, unlock + [ParserLock] + appends + [ParserUnlock], [ParserSignal]);
    acts := unlock + [ParserLock] + appends + [ParserUnlock] + [ParserSignal];
    Further(s, acts);
    var rest := WorkerFinishes(s5);
    RunActsConcat(s, acts, rest);
    acts := acts + rest;
  }
}
