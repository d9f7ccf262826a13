/** Whole runs of the slot protocol: how every slot ends, what a task is credited with, and the runs that
    show what goes wrong without the conditions. */
module SlotRuns {
  import opened SlotLife

  datatype Option<T> = None | Some(value: T)

  /** The state after a run of events; none when one of them was not possible. */
  ghost function Run(epoch: int, evs: seq<Event>): Option<Sys> {
    if evs == [] then Some(Initial(epoch))
    else
      match Run(epoch, evs[..|evs| - 1])
      case None => None
      case Some(s) =>
        var ev := evs[|evs| - 1];
        if Linked(s) && Enabled(s, ev) then Some(Apply(s, ev)) else None
  }

  lemma {:induction false} RunIsGood(epoch: int, evs: seq<Event>)
    requires Run(epoch, evs).Some?
    ensures Good(Run(epoch, evs).value)
  {
    if evs != [] {
      RunIsGood(epoch, evs[..|evs| - 1]);
      StepIsGood(Run(epoch, evs[..|evs| - 1]).value, evs[|evs| - 1]);
    }
  }

  lemma {:induction false} RunsBefore(epoch: int, evs: seq<Event>, k: nat)
    requires Run(epoch, evs).Some? && k <= |evs|
    ensures Run(epoch, evs[..k]).Some?
  {
    if k < |evs| {
      var init := evs[..|evs| - 1];
      RunsBefore(epoch, init, k);
      assert init[..k] == evs[..k];
    } else {
      assert evs[..k] == evs;
    }
  }

  lemma RunNext(epoch: int, evs: seq<Event>, k: nat)
    requires Run(epoch, evs).Some? && k < |evs|
    ensures Run(epoch, evs[..k]).Some? && Run(epoch, evs[..k + 1]).Some?
    ensures var s := Run(epoch, evs[..k]).value;
            Good(s) && Enabled(s, evs[k]) && Run(epoch, evs[..k + 1]).value == Apply(s, evs[k])
  {
    RunsBefore(epoch, evs, k);
    RunsBefore(epoch, evs, k + 1);
    RunIsGood(epoch, evs[..k]);
    assert evs[..k + 1][..k] == evs[..k];
    hide Good, Apply;
  }

  // ----- Counting events ---------------------------------------------------

  /** What can happen to a slot, in the events' own terms. */
  datatype Kind =
    | Admission          // it is handled for the first time, with a good certificate
    | ReliableAdmission  // ... and its task is registered as one that needs no proof
    | ProofSeen      // a proof event finds the slot in the tracker
    | ProofLate      // ... and finds it complete already
    | FinalHandled   // its final message is handled
    | FinalCredited  // ... and its task is registered
    | FinalMissed    // ... and its task is not registered

  ghost predicate Happens(kind: Kind, s: Sys, ev: Event, id: nat) {
    && id < |s.slots|
    && var x := s.slots[id];
       match kind
       case Admission => ev == Handle(Item(id), true) && x.state == UNDETERMINED
       case ReliableAdmission => ev == Handle(Item(id), true) && x.state == UNDETERMINED && x.task in s.tasks && s.tasks[x.task].isReliable
       case ProofSeen => ev.Proof? && ev.hash == x.hash && Tracked(s, id)
       case ProofLate => ev.Proof? && ev.hash == x.hash && Tracked(s, id) && x.Complete()
       case FinalHandled => ev.Handle? && ev.message == Item(id) && x.state == FINALIZE
       case FinalCredited => ev.Handle? && ev.message == Item(id) && x.state == FINALIZE && x.task in s.tasks
       case FinalMissed => ev.Handle? && ev.message == Item(id) && x.state == FINALIZE && x.task !in s.tasks
  }

  /** The same in the log of the slot. */
  function Tally(kind: Kind, log: Log): int {
    match kind
    case Admission => if log.admitted then 1 else 0
    case ReliableAdmission => if log.reliable then 1 else 0
    case ProofSeen => log.proofs
    case ProofLate => log.lateProofs
    case FinalHandled => log.finalsDone
    case FinalCredited => log.counted
    case FinalMissed => log.finalsDone - log.counted
  }

  ghost function Times(kind: Kind, epoch: int, evs: seq<Event>, id: nat): nat
    requires Run(epoch, evs).Some?
  {
    if evs == [] then 0
    else
      var init, s := evs[..|evs| - 1], Run(epoch, evs[..|evs| - 1]).value;
      Times(kind, epoch, init, id) + if Happens(kind, s, evs[|evs| - 1], id) then 1 else 0
  }

  ghost predicate HappensAt(kind: Kind, epoch: int, evs: seq<Event>, k: nat, id: nat) {
    k < |evs| && Run(epoch, evs[..k]).Some? && Happens(kind, Run(epoch, evs[..k]).value, evs[k], id)
  }

  ghost predicate Ever(kind: Kind, epoch: int, evs: seq<Event>, id: nat) {
    exists k :: HappensAt(kind, epoch, evs, k, id)
  }

  lemma {:induction false} TimesIsEver(kind: Kind, epoch: int, evs: seq<Event>, id: nat)
    requires Run(epoch, evs).Some?
    ensures Times(kind, epoch, evs, id) == 0 <==> !Ever(kind, epoch, evs, id)
  {
    if evs != [] {
      TimesIsEver(kind, epoch, evs[..|evs| - 1], id);
      EverGrows(kind, epoch, evs, id);
    }
  }

  lemma EverGrows(kind: Kind, epoch: int, evs: seq<Event>, id: nat)
    requires evs != []
    ensures Ever(kind, epoch, evs, id) <==> Ever(kind, epoch, evs[..|evs| - 1], id) || HappensAt(kind, epoch, evs, |evs| - 1, id)
  {
    hide Happens, Run;
    var n := |evs| - 1;
    var init := evs[..n];
    forall k: nat | k < n ensures HappensAt(kind, epoch, evs, k, id) <==> HappensAt(kind, epoch, init, k, id) {
      assert evs[..k] == init[..k];
    }
  }

  predicate SameSlot(x: Slot, y: Slot) {
    x.hash == y.hash && x.task == y.task && x.process == y.process
  }

  /** One event moves the log of a slot exactly by what happens to it; a new slot has an empty log. */
  lemma LogStep(kind: Kind, s: Sys, ev: Event, id: nat)
    requires Good(s) && Enabled(s, ev)
    ensures var t := Apply(s, ev);
            && |s.slots| <= |t.slots|
            && (id < |s.slots| ==> SameSlot(s.slots[id], t.slots[id]))
            && (id < |s.slots| ==> Tally(kind, t.slots[id].log) == Tally(kind, s.slots[id].log) + if Happens(kind, s, ev, id) then 1 else 0)
            && (|s.slots| <= id < |t.slots| ==> Tally(kind, t.slots[id].log) == 0)
  {
    assert Linked(s);
    hide Good, Linked, Happens, Tally, SameSlot, Dispatch, ReceiveProof, InitTask, ExpireTask, Submit, Tick, CountVotes, ExpireSlot;
    match ev
    case Handle(m, certified) => HandleLogs(kind, s, m, certified, id);
    case Proof(hash) => ProofLogs(kind, s, hash, id);
    case _ => QuietLogs(kind, s, ev, id);
  }

  lemma QuietLogs(kind: Kind, s: Sys, ev: Event, id: nat)
    requires Linked(s) && Possible(s, ev) && !ev.Handle? && !ev.Proof?
    ensures var t := Apply(s, ev);
            && |s.slots| <= |t.slots| && !Happens(kind, s, ev, id)
            && (id < |s.slots| ==> SameSlot(s.slots[id], t.slots[id]) && Tally(kind, t.slots[id].log) == Tally(kind, s.slots[id].log))
            && (|s.slots| <= id < |t.slots| ==> Tally(kind, t.slots[id].log) == 0)
  {
    if ev.SlotTimer? && id < |s.slots| {
      hide ExpireSlot, Tally, SameSlot;
      ExpiryKeepsLogs(kind, s, ev.id, id);
    }
  }

  lemma ExpiryKeepsLogs(kind: Kind, s: Sys, j: nat, id: nat)
    requires j < |s.slots| && id < |s.slots|
    ensures var t := ExpireSlot(s, j);
            |s.slots| == |t.slots| && SameSlot(s.slots[id], t.slots[id]) && Tally(kind, t.slots[id].log) == Tally(kind, s.slots[id].log)
  {
  }

  /** What waits for admission has not been admitted. */
  lemma WaitingIsNew(s: Sys, j: nat)
    requires Good(s) && Item(j) in s.queue && s.slots[j].state == UNDETERMINED
    ensures !s.slots[j].log.admitted && !s.slots[j].log.reliable
  {
    assert SlotInOrder(s, j);
  }

  lemma HandleLogs(kind: Kind, s: Sys, m: Message, certified: bool, id: nat)
    requires Good(s) && m in s.queue
    ensures var t := Dispatch(s, m, certified);
            && |s.slots| == |t.slots|
            && (id < |s.slots| ==> SameSlot(s.slots[id], t.slots[id]))
            && (id < |s.slots| ==>
                  Tally(kind, t.slots[id].log) == Tally(kind, s.slots[id].log) + if Happens(kind, s, Handle(m, certified), id) then 1 else 0)
  {
    assert Linked(s);
    hide Good, Linked, Happens, Tally, SameSlot, Dispatch;
    match m
    case Won(hash) => HandleWonLogs(kind, s, hash, certified, id);
    case Item(j) =>
      if s.slots[j].state == UNDETERMINED {
        WaitingIsNew(s, j);
      }
      HandleItemLogs(kind, s, j, certified, id);
  }

  lemma HandleWonLogs(kind: Kind, s: Sys, hash: Hash, certified: bool, id: nat)
    requires Linked(s) && Won(hash) in s.queue
    ensures var t := Dispatch(s, Won(hash), certified);
            && |s.slots| == |t.slots| && !Happens(kind, s, Handle(Won(hash), certified), id)
            && (id < |s.slots| ==> SameSlot(s.slots[id], t.slots[id]) && Tally(kind, t.slots[id].log) == Tally(kind, s.slots[id].log))
  {
    var u := s.(queue := s.queue - multiset{Won(hash)}, voted := s.voted + {hash});
    assert Linked(u);
    NoItem(kind, s, Won(hash), certified, id);
    hide Happens, Tally, SameSlot, WonVote;
    WonKeepsLogs(kind, u, hash, id);
  }

  lemma NoItem(kind: Kind, s: Sys, m: Message, certified: bool, id: nat)
    requires m.Won?
    ensures !Happens(kind, s, Handle(m, certified), id)
  {
  }

  lemma HandleItemLogs(kind: Kind, s: Sys, j: nat, certified: bool, id: nat)
    requires Linked(s) && Item(j) in s.queue
    requires s.slots[j].state == UNDETERMINED ==> !s.slots[j].log.admitted && !s.slots[j].log.reliable
    ensures var t := Dispatch(s, Item(j), certified);
            && |s.slots| == |t.slots|
            && (id < |s.slots| ==>
                  && SameSlot(s.slots[id], t.slots[id])
                  && Tally(kind, t.slots[id].log)
                     == Tally(kind, s.slots[id].log) + if Happens(kind, s, Handle(Item(j), certified), id) then 1 else 0)
  {
    var u := s.(queue := s.queue - multiset{Item(j)});
    assert Linked(u) && u.slots == s.slots && u.tasks == s.tasks;
    hide Admit, Finalize, Abort, WonVote, Happens, Tally, SameSlot, FinalStep, AdmitStep, Linked;
    if id < |s.slots| {
      ItemLogs(kind, s, j, certified, id);
    }
    match s.slots[j].state
    case UNDETERMINED => AdmitLogs(kind, u, j, certified, id);
    case JUSTIFIED => WonKeepsLogs(kind, u, s.slots[j].hash, id);
    case FINALIZE => FinalLogs(kind, u, j, id);
    case INVALID => AbortKeepsLogs(kind, u, j, id);
  }

  lemma ItemLogs(kind: Kind, s: Sys, j: nat, certified: bool, id: nat)
    requires j < |s.slots| && id < |s.slots|
    ensures (if Happens(kind, s, Handle(Item(j), certified), id) then 1 else 0)
         == if id != j then 0
            else if s.slots[j].state == FINALIZE then FinalStep(kind, s.slots[j].task in s.tasks)
            else if s.slots[j].state == UNDETERMINED && certified then AdmitStep(kind, s, s.slots[j].task)
            else 0
  {
  }

  /** What an admission adds to each count. */
  function AdmitStep(kind: Kind, s: Sys, task: TaskHash): int {
    match kind
    case Admission => 1
    case ReliableAdmission => if task in s.tasks && s.tasks[task].isReliable then 1 else 0
    case _ => 0
  }

  lemma WonKeepsLogs(kind: Kind, s: Sys, hash: Hash, id: nat)
    requires Linked(s)
    ensures var t := WonVote(s, hash);
            && |s.slots| == |t.slots|
            && (id < |s.slots| ==> SameSlot(s.slots[id], t.slots[id]) && Tally(kind, t.slots[id].log) == Tally(kind, s.slots[id].log))
  {
  }

  lemma AdmitLogs(kind: Kind, s: Sys, j: nat, certified: bool, id: nat)
    requires j < |s.slots| && !s.slots[j].log.admitted && !s.slots[j].log.reliable
    ensures var t := Admit(s, j, certified);
            && |s.slots| == |t.slots|
            && (id < |s.slots| ==>
                  && SameSlot(s.slots[id], t.slots[id])
                  && Tally(kind, t.slots[id].log)
                     == Tally(kind, s.slots[id].log) + if id == j && certified then AdmitStep(kind, s, s.slots[j].task) else 0)
  {
  }

  lemma AbortKeepsLogs(kind: Kind, s: Sys, j: nat, id: nat)
    requires j < |s.slots|
    ensures var t := Abort(s, j);
            && |s.slots| == |t.slots|
            && (id < |s.slots| ==> SameSlot(s.slots[id], t.slots[id]) && Tally(kind, t.slots[id].log) == Tally(kind, s.slots[id].log))
  {
  }

  lemma FinalLogs(kind: Kind, s: Sys, j: nat, id: nat)
    requires j < |s.slots|
    ensures var t, known := Finalize(s, j), s.slots[j].task in s.tasks;
            && |s.slots| == |t.slots|
            && (id < |s.slots| ==>
                  && SameSlot(s.slots[id], t.slots[id])
                  && Tally(kind, t.slots[id].log) == Tally(kind, s.slots[id].log) + if id == j then FinalStep(kind, known) else 0)
  {
    var x, known := s.slots[j], s.slots[j].task in s.tasks;
    FinalTally(kind, x.log, known);
    hide Tally, FinalStep;
    assert Finalize(s, j).slots[j].log == WithFinal(x.log, known);
  }

  /** What handling a final message adds to each count. */
  function FinalStep(kind: Kind, known: bool): int {
    match kind
    case Admission => 0
    case ReliableAdmission => 0
    case ProofSeen => 0
    case ProofLate => 0
    case FinalHandled => 1
    case FinalCredited => if known then 1 else 0
    case FinalMissed => if known then 0 else 1
  }

  function WithFinal(log: Log, known: bool): Log {
    log.(finalsDone := log.finalsDone + 1, counted := log.counted + if known then 1 else 0)
  }

  lemma FinalTally(kind: Kind, log: Log, known: bool)
    ensures Tally(kind, WithFinal(log, known)) == Tally(kind, log) + FinalStep(kind, known)
  {
  }

  lemma ProofLogs(kind: Kind, s: Sys, hash: Hash, id: nat)
    requires Good(s)
    ensures var t := ReceiveProof(s, hash);
            && |s.slots| == |t.slots|
            && (id < |s.slots| ==> SameSlot(s.slots[id], t.slots[id]))
            && (id < |s.slots| ==>
                  Tally(kind, t.slots[id].log) == Tally(kind, s.slots[id].log) + if Happens(kind, s, Proof(hash), id) then 1 else 0)
  {
    if hash in s.pending {
      assert SlotInOrder(s, s.pending[hash]);
    }
  }

  lemma {:induction false} TimesIsTally(kind: Kind, epoch: int, evs: seq<Event>, id: nat)
    requires Run(epoch, evs).Some?
    ensures Times(kind, epoch, evs, id)
         == if id < |Run(epoch, evs).value.slots| then Tally(kind, Run(epoch, evs).value.slots[id].log) else 0
  {
    if evs != [] {
      var init := evs[..|evs| - 1];
      TimesIsTally(kind, epoch, init, id);
      RunIsGood(epoch, init);
      LogStep(kind, Run(epoch, init).value, evs[|evs| - 1], id);
    }
  }

  /** A slot's log is zero exactly when such an event never happened to it. */
  lemma LogTellsEvents(kind: Kind, epoch: int, evs: seq<Event>, id: nat)
    requires Run(epoch, evs).Some? && id < |Run(epoch, evs).value.slots|
    ensures Tally(kind, Run(epoch, evs).value.slots[id].log) >= 0
    ensures Tally(kind, Run(epoch, evs).value.slots[id].log) == 0 <==> !Ever(kind, epoch, evs, id)
  {
    TimesIsTally(kind, epoch, evs, id);
    TimesIsEver(kind, epoch, evs, id);
  }

  // ----- What registering a task leaves behind ------------------------------

  /** The event that registers a task. */
  predicate Registers(evs: seq<Event>, k: nat, task: TaskHash) {
    k < |evs| && evs[k].NewTask? && evs[k].task == task
  }

  /** No task is lost; what was said when it was registered stays; none appears but by registration. */
  ghost predicate TasksKept(s: Sys, t: Sys) {
    && s.tasks.Keys == t.tasks.Keys
    && forall task :: task in s.tasks ==> t.tasks[task].total == s.tasks[task].total && t.tasks[task].isReliable == s.tasks[task].isReliable
  }

  /** What no handler of a slot touches: tasks but for their progress, the announcements, the scheduler's list. */
  ghost predicate RestKept(s: Sys, t: Sys) {
    && TasksKept(s, t) && t.voted == s.voted && (forall h :: t.queue[Won(h)] == s.queue[Won(h)])
    && t.unprocessed == s.unprocessed && t.epoch == s.epoch
  }

  lemma AdmitKeepsRest(s: Sys, id: nat, certified: bool)
    requires id < |s.slots|
    ensures RestKept(s, Admit(s, id, certified))
  {
  }

  lemma FinalizeKeepsRest(s: Sys, id: nat)
    requires id < |s.slots|
    ensures RestKept(s, Finalize(s, id))
  {
  }

  lemma AbortKeepsRest(s: Sys, id: nat)
    requires id < |s.slots|
    ensures RestKept(s, Abort(s, id))
  {
  }

  lemma WonKeepsRest(s: Sys, hash: Hash)
    requires hash in s.pending ==> s.pending[hash] < |s.slots|
    ensures RestKept(s, WonVote(s, hash)) && WonVote(s, hash).record == s.record
  {
  }

  lemma ProofKeepsRest(s: Sys, hash: Hash)
    requires hash in s.pending ==> s.pending[hash] < |s.slots|
    ensures RestKept(s, ReceiveProof(s, hash))
  {
  }

  lemma ExpiryKeepsRest(s: Sys, id: nat)
    requires id < |s.slots|
    ensures RestKept(s, ExpireSlot(s, id))
  {
  }

  /** A handled message is gone, and nothing else but the slot's own affairs moves. */
  lemma DispatchKeepsRest(s: Sys, m: Message, certified: bool)
    requires Linked(s) && m in s.queue
    ensures var t := Dispatch(s, m, certified);
            && RestKept(s.(queue := s.queue - multiset{m}, voted := if m.Won? then s.voted + {m.hash} else s.voted), t)
            && (m.Won? ==> t.record == s.record)
  {
    hide Admit, Finalize, Abort, WonVote, RestKept;
    var u := s.(queue := s.queue - multiset{m}, voted := if m.Won? then s.voted + {m.hash} else s.voted);
    match m
    case Won(hash) => WonKeepsRest(u, hash);
    case Item(id) =>
      match s.slots[id].state
      case UNDETERMINED => AdmitKeepsRest(u, id, certified);
      case JUSTIFIED => WonKeepsRest(u, s.slots[id].hash);
      case FINALIZE => FinalizeKeepsRest(u, id);
      case INVALID => AbortKeepsRest(u, id);
  }

  lemma TaskStep(s: Sys, ev: Event)
    requires Linked(s) && Possible(s, ev)
    ensures var t := Apply(s, ev);
            if ev.NewTask? then
              && t.tasks.Keys == s.tasks.Keys + {ev.task} && t.tasks[ev.task].total == ev.total && t.tasks[ev.task].isReliable == ev.reliable
              && forall task :: task in s.tasks ==> t.tasks[task] == s.tasks[task]
            else TasksKept(s, t)
  {
    hide Dispatch, ReceiveProof, ExpireSlot, WonVote;
    match ev
    case Handle(m, certified) => DispatchKeepsRest(s, m, certified);
    case Proof(hash) => ProofKeepsRest(s, hash);
    case SlotTimer(id) => ExpiryKeepsRest(s, id);
    case _ =>
  }

  ghost predicate Registered(evs: seq<Event>, task: TaskHash) {
    exists k: nat :: Registers(evs, k, task)
  }

  lemma RegistersNext(init: seq<Event>, ev: Event, task: TaskHash, k: nat)
    ensures Registers(init + [ev], k, task) <==> Registers(init, k, task) || (k == |init| && ev.NewTask? && ev.task == task)
    ensures Registers(init, k, task) ==> (init + [ev])[k] == init[k]
  {
  }

  lemma RegisteredNext(init: seq<Event>, ev: Event, task: TaskHash)
    ensures Registered(init + [ev], task) <==> Registered(init, task) || (ev.NewTask? && ev.task == task)
  {
    if Registered(init, task) {
      var k: nat :| Registers(init, k, task);
      RegistersNext(init, ev, task, k);
    }
    if ev.NewTask? && ev.task == task {
      RegistersNext(init, ev, task, |init|);
    }
    if Registered(init + [ev], task) {
      var k: nat :| Registers(init + [ev], k, task);
      RegistersNext(init, ev, task, k);
    }
  }

  /** The task has the total and the reliability the event gave it. */
  ghost predicate AsRegistered(s: Sys, evs: seq<Event>, task: TaskHash, k: nat)
    requires Registers(evs, k, task)
  {
    task in s.tasks && s.tasks[task].total == evs[k].total && s.tasks[task].isReliable == evs[k].reliable
  }

  /** A task is known exactly when an event of the run registered it, one event only, and it has the total and
      the reliability that event gave it. */
  lemma {:induction false} TasksAreRegistered(epoch: int, evs: seq<Event>, task: TaskHash)
    requires Run(epoch, evs).Some?
    ensures task in Run(epoch, evs).value.tasks <==> Registered(evs, task)
    ensures forall k: nat :: Registers(evs, k, task) ==> AsRegistered(Run(epoch, evs).value, evs, task, k)
    ensures forall k: nat, l: nat :: Registers(evs, k, task) && Registers(evs, l, task) ==> k == l
  {
    if evs != [] {
      var n: nat := |evs| - 1;
      var init, ev, s := evs[..n], evs[n], Run(epoch, evs[..n]).value;
      TasksAreRegistered(epoch, init, task);
      TaskStep(s, ev);
      assert Possible(s, ev) && evs == init + [ev];
      RegisteredNext(init, ev, task);
      assert ev.NewTask? && ev.task == task ==> !Registered(init, task);
      var t := Run(epoch, evs).value;
      assert t == Apply(s, ev);
      hide Apply, Linked, FreshHash, Possible, Run;
      forall k: nat | Registers(evs, k, task) ensures AsRegistered(t, evs, task, k) && (k < n ==> Registers(init, k, task)) {
        RegistersNext(init, ev, task, k);
        assert k < n ==> AsRegistered(s, init, task, k);
      }
    }
  }

  // ----- Which slots there are ----------------------------------------------

  datatype Submission = Submission(hash: Hash, task: TaskHash, process: int)

  /** The submissions of a run, in order. */
  function Submissions(evs: seq<Event>): seq<Submission> {
    if evs == [] then []
    else
      var ev := evs[|evs| - 1];
      Submissions(evs[..|evs| - 1]) + if ev.Commit? then [Submission(ev.hash, ev.task, ev.process)] else []
  }

  ghost predicate SubmittedAs(s: Sys, subs: seq<Submission>) {
    |s.slots| == |subs|
    && forall id :: 0 <= id < |subs| ==> Submission(s.slots[id].hash, s.slots[id].task, s.slots[id].process) == subs[id]
  }

  /** The slots are the submissions. */
  lemma {:induction false} SlotsAreSubmissions(epoch: int, evs: seq<Event>)
    requires Run(epoch, evs).Some?
    ensures SubmittedAs(Run(epoch, evs).value, Submissions(evs))
  {
    if evs != [] {
      var init, ev := evs[..|evs| - 1], evs[|evs| - 1];
      SlotsAreSubmissions(epoch, init);
      RunIsGood(epoch, init);
      hide Good, FreshHash, Possible, Linked, SubmittedAs;
      SubmissionStep(Run(epoch, init).value, ev, Submissions(init));
    }
  }

  lemma SubmissionStep(s: Sys, ev: Event, subs: seq<Submission>)
    requires Good(s) && Enabled(s, ev) && SubmittedAs(s, subs)
    ensures Linked(s)
    ensures SubmittedAs(Apply(s, ev), subs + if ev.Commit? then [Submission(ev.hash, ev.task, ev.process)] else [])
  {
    assert Linked(s) && subs + [] == subs;
    TasksStay(s, ev);
    var t := Apply(s, ev);
    forall id: nat | id < |s.slots| ensures SameSlot(s.slots[id], t.slots[id]) {
      LogStep(Admission, s, ev, id);
    }
    hide Good, Linked, Dispatch, ReceiveProof, ExpireSlot, CountVotes, Tick, InitTask, ExpireTask, FreshHash;
  }

  // ----- Where the proof flag and the vote come from -------------------------

  /** A slot keeps its hash, task and process. */
  lemma {:induction false} SlotStays(epoch: int, evs: seq<Event>, k: nat, id: nat)
    requires Run(epoch, evs).Some? && k <= |evs|
    ensures Run(epoch, evs[..k]).Some?
    ensures var s, t := Run(epoch, evs[..k]).value, Run(epoch, evs).value;
            id < |s.slots| ==> id < |t.slots| && SameSlot(s.slots[id], t.slots[id])
    decreases |evs|
  {
    RunsBefore(epoch, evs, k);
    if k < |evs| {
      var init := evs[..|evs| - 1];
      assert init[..k] == evs[..k];
      SlotStays(epoch, init, k, id);
      RunIsGood(epoch, init);
      LogStep(Admission, Run(epoch, init).value, evs[|evs| - 1], id);
      hide Apply, Good, Enabled, Linked;
    } else {
      assert evs[..k] == evs;
    }
  }

  /** The slot was admitted after its task had been registered as one that needs no proof. */
  ghost predicate ReliableBefore(epoch: int, evs: seq<Event>, id: nat, task: TaskHash) {
    exists i: nat, k: nat :: i < k && Registers(evs, i, task) && evs[i].reliable && HappensAt(Admission, epoch, evs, k, id)
  }

  ghost predicate RegisteredReliable(evs: seq<Event>, k: nat, task: TaskHash) {
    exists i: nat :: i < k && Registers(evs, i, task) && evs[i].reliable
  }

  lemma ReliableState(epoch: int, evs: seq<Event>, k: nat, task: TaskHash)
    requires Run(epoch, evs).Some? && k <= |evs|
    ensures Run(epoch, evs[..k]).Some?
    ensures var s := Run(epoch, evs[..k]).value; task in s.tasks && s.tasks[task].isReliable <==> RegisteredReliable(evs, k, task)
  {
    RunsBefore(epoch, evs, k);
    TasksAreRegistered(epoch, evs[..k], task);
    hide Run;
    var s := Run(epoch, evs[..k]).value;
    forall i: nat ensures Registers(evs[..k], i, task) <==> i < k && Registers(evs, i, task) {
    }
    if task in s.tasks && s.tasks[task].isReliable {
      var i: nat :| Registers(evs[..k], i, task);
      assert AsRegistered(s, evs[..k], task, i);
    }
    if RegisteredReliable(evs, k, task) {
      var i: nat :| i < k && Registers(evs, i, task) && evs[i].reliable;
      assert AsRegistered(s, evs[..k], task, i);
    }
  }

  lemma ReliableAt(epoch: int, evs: seq<Event>, k: nat, id: nat)
    requires Run(epoch, evs).Some? && id < |Run(epoch, evs).value.slots|
    ensures HappensAt(ReliableAdmission, epoch, evs, k, id)
       <==> HappensAt(Admission, epoch, evs, k, id) && RegisteredReliable(evs, k, Run(epoch, evs).value.slots[id].task)
  {
    if k < |evs| {
      SlotStays(epoch, evs, k, id);
      ReliableState(epoch, evs, k, Run(epoch, evs).value.slots[id].task);
      hide Run, RegisteredReliable;
    }
  }

  lemma ReliableIsRegistered(epoch: int, evs: seq<Event>, id: nat)
    requires Run(epoch, evs).Some? && id < |Run(epoch, evs).value.slots|
    ensures Ever(ReliableAdmission, epoch, evs, id) <==> ReliableBefore(epoch, evs, id, Run(epoch, evs).value.slots[id].task)
  {
    hide Run, HappensAt;
    var task := Run(epoch, evs).value.slots[id].task;
    if Ever(ReliableAdmission, epoch, evs, id) {
      var k :| HappensAt(ReliableAdmission, epoch, evs, k, id);
      ReliableAt(epoch, evs, k, id);
      var i: nat :| i < k && Registers(evs, i, task) && evs[i].reliable;
    }
    if ReliableBefore(epoch, evs, id, task) {
      var i: nat, k: nat :| i < k && Registers(evs, i, task) && evs[i].reliable && HappensAt(Admission, epoch, evs, k, id);
      ReliableAt(epoch, evs, k, id);
    }
  }

  /** A slot has its proof exactly when a proof event found it in the tracker, or its task had been registered
      as one that needs none before the slot was admitted. */
  lemma ProofFlag(epoch: int, evs: seq<Event>, id: nat)
    requires Run(epoch, evs).Some? && id < |Run(epoch, evs).value.slots|
    ensures var x := Run(epoch, evs).value.slots[id];
            x.hasProof <==> Ever(ProofSeen, epoch, evs, id) || ReliableBefore(epoch, evs, id, x.task)
  {
    RunIsGood(epoch, evs);
    assert SlotInOrder(Run(epoch, evs).value, id);
    LogTellsEvents(ProofSeen, epoch, evs, id);
    LogTellsEvents(ReliableAdmission, epoch, evs, id);
    ReliableIsRegistered(epoch, evs, id);
  }

  /** The hash passed when the votes of a heartbeat were counted. */
  ghost predicate Passed(evs: seq<Event>, hash: Hash) {
    exists k: nat :: k < |evs| && evs[k].Votes? && hash in evs[k].passing
  }

  lemma PassedNext(init: seq<Event>, ev: Event, hash: Hash)
    ensures Passed(init + [ev], hash) <==> Passed(init, hash) || (ev.Votes? && hash in ev.passing)
  {
    var evs := init + [ev];
    if Passed(init, hash) {
      var k: nat :| k < |init| && init[k].Votes? && hash in init[k].passing;
      assert evs[k].Votes? && hash in evs[k].passing;
    }
    if ev.Votes? && hash in ev.passing {
      assert evs[|init|].Votes? && hash in evs[|init|].passing;
    }
  }

  /** An announcement is made by counting votes, and spent by being handled. */
  ghost predicate Announced(s: Sys, hash: Hash) {
    hash in s.voted || Won(hash) in s.queue
  }

  lemma AnnouncedStep(s: Sys, ev: Event, hash: Hash)
    requires Linked(s) && Possible(s, ev)
    ensures Announced(Apply(s, ev), hash) <==> Announced(s, hash) || (ev.Votes? && hash in ev.passing)
  {
    hide Dispatch;
    if ev.Handle? {
      DispatchKeepsRest(s, ev.message, ev.certified);
    }
  }

  lemma {:induction false} PassedIsAnnounced(epoch: int, evs: seq<Event>, hash: Hash)
    requires Run(epoch, evs).Some?
    ensures Announced(Run(epoch, evs).value, hash) <==> Passed(evs, hash)
  {
    if evs != [] {
      var init, ev := evs[..|evs| - 1], evs[|evs| - 1];
      PassedIsAnnounced(epoch, init, hash);
      AnnouncedStep(Run(epoch, init).value, ev, hash);
      PassedNext(init, ev, hash);
      assert evs == init + [ev];
      hide Apply, Announced, Passed;
    }
  }

  /** A final message is sent only for a slot whose hash passed a vote, and that was proved by an event or
      needed no proof by the registration of its task. */
  lemma FinalNeedsVoteAndProof(epoch: int, evs: seq<Event>, id: nat)
    requires Run(epoch, evs).Some? && id < |Run(epoch, evs).value.slots|
    ensures var x := Run(epoch, evs).value.slots[id];
            x.log.finals > 0 ==> Passed(evs, x.hash) && (Ever(ProofSeen, epoch, evs, id) || ReliableBefore(epoch, evs, id, x.task))
  {
    var x := Run(epoch, evs).value.slots[id];
    RunIsGood(epoch, evs);
    assert SlotInOrder(Run(epoch, evs).value, id);
    ProofFlag(epoch, evs, id);
    PassedIsAnnounced(epoch, evs, x.hash);
  }

  /** A slot of a task that was registered as one that needs a proof, or of no registered task, has no final
      message without a proof event. */
  lemma UnreliableNeedsProof(epoch: int, evs: seq<Event>, id: nat)
    requires Run(epoch, evs).Some? && id < |Run(epoch, evs).value.slots|
    requires forall k: nat :: Registers(evs, k, Run(epoch, evs).value.slots[id].task) ==> !evs[k].reliable
    ensures Run(epoch, evs).value.slots[id].log.finals > 0 ==> Ever(ProofSeen, epoch, evs, id)
  {
    hide Run, Ever;
    FinalNeedsVoteAndProof(epoch, evs, id);
  }

  // ----- How every slot ends ----------------------------------------------

  /** How every slot of every run ends.  It is never both finalized and expired; final messages are
      only sent for a slot with its vote won and its proof there, exactly one unless a proof event found
      it complete; once its timer has fired it is resolved, and exactly once just when there was no such
      event; what was sent has been handled when the queue holds nothing of it. */
  lemma ExactlyOnce(epoch: int, evs: seq<Event>, id: nat)
    requires Run(epoch, evs).Some? && id < |Run(epoch, evs).value.slots|
    ensures var s, late := Run(epoch, evs).value, Ever(ProofLate, epoch, evs, id);
            var x := s.slots[id];
            && !(x.log.finals > 0 && x.log.invalids > 0)
            && x.log.finals == (if x.log.admitted && x.Complete() then 1 else 0) + Times(ProofLate, epoch, evs, id)
            && (x.log.finals > 0 ==> x.log.admitted && x.hasWon && x.hasProof && x.hash in s.voted)
            && (x.log.finals <= 1 <==> !late)
            && (x.log.expired ==> x.log.finals + x.log.invalids >= 1)
            && (x.log.expired ==> (x.log.finals + x.log.invalids == 1 <==> !late))
            && (Item(id) !in s.queue ==> x.log.finalsDone == x.log.finals && x.log.invalidsDone == x.log.invalids)
  {
    RunIsGood(epoch, evs);
    assert SlotInOrder(Run(epoch, evs).value, id);
    TimesIsTally(ProofLate, epoch, evs, id);
    LogTellsEvents(ProofLate, epoch, evs, id);
  }

  /** The proof events of a run that name a hash. */
  function ProofEvents(evs: seq<Event>, hash: Hash): nat {
    if evs == [] then 0
    else ProofEvents(evs[..|evs| - 1], hash) + if evs[|evs| - 1] == Proof(hash) then 1 else 0
  }

  lemma {:induction false} SeenIsAnEvent(epoch: int, evs: seq<Event>, id: nat, hash: Hash)
    requires Run(epoch, evs).Some?
    requires id < |Run(epoch, evs).value.slots| ==> Run(epoch, evs).value.slots[id].hash == hash
    ensures Times(ProofSeen, epoch, evs, id) <= ProofEvents(evs, hash)
  {
    if evs != [] {
      var init, ev := evs[..|evs| - 1], evs[|evs| - 1];
      RunIsGood(epoch, init);
      LogStep(ProofSeen, Run(epoch, init).value, ev, id);
      SeenIsAnEvent(epoch, init, id, hash);
    }
  }

  /** No proof event finds a slot complete when it needs a proof and its hash gets at most one event, or when
      it needs none and gets none. */
  lemma WhenNoProofIsLate(epoch: int, evs: seq<Event>, id: nat)
    requires Run(epoch, evs).Some? && id < |Run(epoch, evs).value.slots|
    requires var x := Run(epoch, evs).value.slots[id]; ProofEvents(evs, x.hash) <= if x.log.reliable then 0 else 1
    ensures !Ever(ProofLate, epoch, evs, id)
  {
    RunIsGood(epoch, evs);
    assert SlotInOrder(Run(epoch, evs).value, id);
    TimesIsTally(ProofSeen, epoch, evs, id);
    SeenIsAnEvent(epoch, evs, id, Run(epoch, evs).value.slots[id].hash);
    LogTellsEvents(ProofLate, epoch, evs, id);
  }

  // ----- Task accounting ---------------------------------------------------

  /** What the handled final messages of a task's slots stand for, each message by itself. */
  function HandledProcess(slots: seq<Slot>, task: TaskHash): int {
    if slots == [] then 0
    else
      var x := slots[|slots| - 1];
      HandledProcess(slots[..|slots| - 1], task) + if x.task == task then x.process * x.log.finalsDone else 0
  }

  /** A slot that is finalized and has no message waiting. */
  predicate Settled(s: Sys, id: nat)
    requires id < |s.slots|
  {
    s.slots[id].state == FINALIZE && Item(id) !in s.queue
  }

  /** The process of a task's settled slots, each slot once. */
  function SettledProcess(s: Sys, task: TaskHash, n: nat): int
    requires n <= |s.slots|
  {
    if n == 0 then 0
    else SettledProcess(s, task, n - 1) + if s.slots[n - 1].task == task && Settled(s, n - 1) then s.slots[n - 1].process else 0
  }

  lemma {:induction false} CreditedOrMissed(slots: seq<Slot>, task: TaskHash)
    requires forall id :: 0 <= id < |slots| ==> slots[id].process >= 0 && slots[id].log.counted <= slots[id].log.finalsDone
    ensures Credited(slots, task) <= HandledProcess(slots, task)
    ensures Credited(slots, task) == HandledProcess(slots, task)
       <==> forall id :: 0 <= id < |slots| && slots[id].task == task && slots[id].process > 0 ==> slots[id].log.counted == slots[id].log.finalsDone
  {
    if slots != [] {
      var n := |slots| - 1;
      var x, init := slots[n], slots[..n];
      CreditedOrMissed(init, task);
      Monotone(x.process, x.log.counted, x.log.finalsDone);
      assert slots == init + [x];
    }
  }

  lemma Monotone(p: int, a: nat, b: nat)
    requires p >= 0 && a <= b
    ensures p * a <= p * b && (p * a == p * b <==> p == 0 || a == b)
  {
    assert p * b - p * a == p * (b - a);
  }

  lemma {:induction false} SettledIsHandled(s: Sys, task: TaskHash, n: nat)
    requires n <= |s.slots|
    requires forall id :: 0 <= id < n && s.slots[id].task == task ==> s.slots[id].log.finalsDone == if Settled(s, id) then 1 else 0
    ensures HandledProcess(s.slots[..n], task) == SettledProcess(s, task, n)
  {
    if n > 0 {
      assert s.slots[..n][..n - 1] == s.slots[..n - 1];
      SettledIsHandled(s, task, n - 1);
    }
  }

  /** No final message of a slot of the task that processed something was handled before the task was registered. */
  ghost predicate NoneMissed(epoch: int, evs: seq<Event>, task: TaskHash)
    requires Run(epoch, evs).Some?
  {
    var s := Run(epoch, evs).value;
    forall id :: 0 <= id < |s.slots| && s.slots[id].task == task && s.slots[id].process > 0 ==> !Ever(FinalMissed, epoch, evs, id)
  }

  ghost predicate NoneLate(epoch: int, evs: seq<Event>, task: TaskHash)
    requires Run(epoch, evs).Some?
  {
    var s := Run(epoch, evs).value;
    forall id :: 0 <= id < |s.slots| && s.slots[id].task == task ==> !Ever(ProofLate, epoch, evs, id)
  }

  /** Task accounting over runs: the history accounts for every handled final message of the task's slots
      exactly when none was handled before the task was registered; the remaining size is the rest of the
      total, and an expiring task is scheduled again with exactly what is left. */
  lemma TaskAccounting(epoch: int, evs: seq<Event>, task: TaskHash)
    requires Run(epoch, evs).Some? && task in Run(epoch, evs).value.tasks
    ensures var s := Run(epoch, evs).value;
            var t := s.tasks[task];
            && t.history <= HandledProcess(s.slots, task)
            && (t.history == HandledProcess(s.slots, task) <==> NoneMissed(epoch, evs, task))
            && t.size == (if t.total - t.history > 0 then t.total - t.history else 0)
            && ExpireTask(s, task).unprocessed == s.unprocessed + if t.history < t.total then [(task, t.total - t.history)] else []
  {
    HistoryIsCredited(epoch, evs, task);
    CreditIsComplete(epoch, evs, task);
    hide Run, Ever, NoneMissed, HandledProcess, Credited, ExpireTask;
  }

  lemma HistoryIsCredited(epoch: int, evs: seq<Event>, task: TaskHash)
    requires Run(epoch, evs).Some? && task in Run(epoch, evs).value.tasks
    ensures var s := Run(epoch, evs).value;
            var t := s.tasks[task];
            && t.history == Credited(s.slots, task)
            && t.size == (if t.total - t.history > 0 then t.total - t.history else 0)
            && ExpireTask(s, task).unprocessed == s.unprocessed + if t.history < t.total then [(task, t.total - t.history)] else []
  {
    hide Run, Credited, ExpireTask;
    RunIsGood(epoch, evs);
    var s := Run(epoch, evs).value;
    assert TaskInOrder(s, task);
    ExpiryPutsUpTheRest(s, task);
  }

  lemma CreditIsComplete(epoch: int, evs: seq<Event>, task: TaskHash)
    requires Run(epoch, evs).Some?
    ensures var slots := Run(epoch, evs).value.slots;
            && Credited(slots, task) <= HandledProcess(slots, task)
            && (Credited(slots, task) == HandledProcess(slots, task) <==> NoneMissed(epoch, evs, task))
  {
    hide Run, Ever, Credited, HandledProcess;
    var slots := Run(epoch, evs).value.slots;
    forall id | 0 <= id < |slots|
      ensures slots[id].process >= 0 && slots[id].log.counted <= slots[id].log.finalsDone
      ensures slots[id].log.counted == slots[id].log.finalsDone <==> !Ever(FinalMissed, epoch, evs, id)
    {
      NonNegative(epoch, evs, id);
      LogTellsEvents(FinalMissed, epoch, evs, id);
    }
    CreditedOrMissed(slots, task);
  }

  /** What has been put up for scheduling, event by event: the total of a new task, and at each timer of a task
      what its total lacks. */
  ghost function PutUp(epoch: int, evs: seq<Event>): seq<(TaskHash, int)>
    requires Run(epoch, evs).Some?
  {
    if evs == [] then []
    else PutUp(epoch, evs[..|evs| - 1]) + PutUpBy(Run(epoch, evs[..|evs| - 1]).value, evs[|evs| - 1])
  }

  function PutUpBy(s: Sys, ev: Event): seq<(TaskHash, int)>
    requires Possible(s, ev)
  {
    match ev
    case NewTask(task, total, _) => [(task, total)]
    case TaskTimer(task) =>
      var left := s.tasks[task].total - s.tasks[task].history;
      if left > 0 then [(task, left)] else []
    case _ => []
  }

  lemma PutUpStep(s: Sys, ev: Event)
    requires Good(s) && Possible(s, ev)
    ensures Linked(s) && Apply(s, ev).unprocessed == s.unprocessed + PutUpBy(s, ev)
  {
    assert Linked(s) && s.unprocessed + [] == s.unprocessed;
    if ev.TaskTimer? {
      assert TaskInOrder(s, ev.task);
      ExpiryPutsUpTheRest(s, ev.task);
    }
    hide Good, Dispatch, ReceiveProof, ExpireSlot, WonVote, ExpireTask;
    match ev
    case Handle(m, certified) => DispatchKeepsRest(s, m, certified);
    case Proof(hash) => ProofKeepsRest(s, hash);
    case SlotTimer(id) => ExpiryKeepsRest(s, id);
    case _ =>
  }

  /** The scheduler is given nothing else. */
  lemma {:induction false} UnprocessedIsPutUp(epoch: int, evs: seq<Event>)
    requires Run(epoch, evs).Some?
    ensures Run(epoch, evs).value.unprocessed == PutUp(epoch, evs)
  {
    if evs != [] {
      var init, ev := evs[..|evs| - 1], evs[|evs| - 1];
      UnprocessedIsPutUp(epoch, init);
      RunIsGood(epoch, init);
      hide Good, Apply, PutUpBy, Possible, Linked, FreshHash;
      PutUpStep(Run(epoch, init).value, ev);
    }
  }

  lemma ExpiryPutsUpTheRest(s: Sys, task: TaskHash)
    requires task in s.tasks && TaskInOrder(s, task)
    ensures var t := s.tasks[task];
            ExpireTask(s, task).unprocessed == s.unprocessed + if t.history < t.total then [(task, t.total - t.history)] else []
  {
    assert s.unprocessed + [] == s.unprocessed;
  }

  lemma NonNegative(epoch: int, evs: seq<Event>, id: nat)
    requires Run(epoch, evs).Some? && id < |Run(epoch, evs).value.slots|
    ensures Run(epoch, evs).value.slots[id].process >= 0
  {
    RunIsGood(epoch, evs);
    assert SlotInOrder(Run(epoch, evs).value, id);
  }

  lemma SettledOnce(epoch: int, evs: seq<Event>, id: nat)
    requires Run(epoch, evs).Some? && id < |Run(epoch, evs).value.slots| && !Ever(ProofLate, epoch, evs, id)
    ensures var s := Run(epoch, evs).value; s.slots[id].log.finalsDone == if Settled(s, id) then 1 else 0
  {
    hide Ever;
    RunIsGood(epoch, evs);
    assert SlotInOrder(Run(epoch, evs).value, id);
    LogTellsEvents(ProofLate, epoch, evs, id);
  }

  /** With no late proof event either, the history is the process of the settled slots, each counted once. */
  lemma HistoryIsSettled(epoch: int, evs: seq<Event>, task: TaskHash)
    requires Run(epoch, evs).Some? && task in Run(epoch, evs).value.tasks
    requires NoneMissed(epoch, evs, task) && NoneLate(epoch, evs, task)
    ensures var s := Run(epoch, evs).value; s.tasks[task].history == SettledProcess(s, task, |s.slots|)
  {
    RunIsGood(epoch, evs);
    var s := Run(epoch, evs).value;
    hide Run, Ever, Good, Settled;
    forall id | 0 <= id < |s.slots| && s.slots[id].task == task
      ensures s.slots[id].log.finalsDone == if Settled(s, id) then 1 else 0
    {
      SettledOnce(epoch, evs, id);
    }
    TaskAccounting(epoch, evs, task);
    assert s.slots[..|s.slots|] == s.slots;
    SettledIsHandled(s, task, |s.slots|);
  }

  /** Every slot of the task was submitted after the task was registered. */
  ghost predicate RegisteredFirst(epoch: int, evs: seq<Event>, task: TaskHash) {
    forall k :: 0 <= k < |evs| && evs[k].Commit? && evs[k].task == task ==>
      Run(epoch, evs[..k]).Some? && task in Run(epoch, evs[..k]).value.tasks
  }

  ghost predicate Grown(s: Sys, t: Sys) {
    |s.slots| == |t.slots| && forall task :: task in s.tasks ==> task in t.tasks
  }

  lemma DispatchTasks(s: Sys, m: Message, certified: bool)
    requires Linked(s) && m in s.queue
    ensures Grown(s, Dispatch(s, m, certified))
  {
    var u := s.(queue := s.queue - multiset{m});
    assert Linked(u);
    match m
    case Won(hash) => WonTasks(u.(voted := u.voted + {hash}), hash);
    case Item(id) =>
      hide WonVote;
      if u.slots[id].state == JUSTIFIED {
        WonTasks(u, u.slots[id].hash);
      }
  }

  lemma WonTasks(s: Sys, hash: Hash)
    requires Linked(s)
    ensures Grown(s, WonVote(s, hash))
  {
  }

  lemma TasksStay(s: Sys, ev: Event)
    requires Linked(s) && Possible(s, ev)
    ensures var t := Apply(s, ev);
            if ev.Commit? then t.tasks == s.tasks && |t.slots| == |s.slots| + 1 && t.slots[|s.slots|].task == ev.task
            else Grown(s, t)
  {
    if ev.Handle? {
      hide Dispatch;
      DispatchTasks(s, ev.message, ev.certified);
    }
  }

  lemma RegisteredFirstBefore(epoch: int, evs: seq<Event>, task: TaskHash)
    requires evs != [] && RegisteredFirst(epoch, evs, task)
    ensures RegisteredFirst(epoch, evs[..|evs| - 1], task)
  {
    hide Run;
    var init := evs[..|evs| - 1];
    forall k | 0 <= k < |init| && init[k].Commit? && init[k].task == task
      ensures Run(epoch, init[..k]).Some? && task in Run(epoch, init[..k]).value.tasks
    {
      assert init[..k] == evs[..k] && init[k] == evs[k];
    }
  }

  ghost predicate HasItsTask(s: Sys, task: TaskHash, id: nat) {
    id < |s.slots| && s.slots[id].task == task ==> task in s.tasks && Tally(FinalMissed, s.slots[id].log) == 0
  }

  lemma StepKeepsTask(s: Sys, ev: Event, task: TaskHash, id: nat)
    requires Good(s) && Enabled(s, ev) && HasItsTask(s, task, id) && (ev.Commit? && ev.task == task ==> task in s.tasks)
    ensures HasItsTask(Apply(s, ev), task, id)
  {
    LogStep(FinalMissed, s, ev, id);
    assert Linked(s);
    hide Good, Linked, Apply, Possible, Tally;
    TasksStay(s, ev);
  }

  lemma {:induction false} SlotsHaveTheirTask(epoch: int, evs: seq<Event>, task: TaskHash, id: nat)
    requires Run(epoch, evs).Some? && RegisteredFirst(epoch, evs, task)
    ensures HasItsTask(Run(epoch, evs).value, task, id)
  {
    if evs != [] {
      var n := |evs| - 1;
      RunIsGood(epoch, evs[..n]);
      RegisteredFirstBefore(epoch, evs, task);
      SlotsHaveTheirTask(epoch, evs[..n], task, id);
      assert evs[n].Commit? && evs[n].task == task ==> task in Run(epoch, evs[..n]).value.tasks;
      hide HasItsTask, Good, Linked, Possible, FreshHash, Apply;
      StepKeepsTask(Run(epoch, evs[..n]).value, evs[n], task, id);
    }
  }

  /** So it is when slots are only submitted for registered tasks. */
  lemma RegisteredFirstMissesNone(epoch: int, evs: seq<Event>, task: TaskHash)
    requires Run(epoch, evs).Some? && RegisteredFirst(epoch, evs, task)
    ensures NoneMissed(epoch, evs, task)
  {
    var s := Run(epoch, evs).value;
    forall id: nat | id < |s.slots| && s.slots[id].task == task ensures !Ever(FinalMissed, epoch, evs, id) {
      SlotsHaveTheirTask(epoch, evs, task, id);
      LogTellsEvents(FinalMissed, epoch, evs, id);
    }
  }

  // ----- Accounting in 32 bits ----------------------------------------------

  const INT32_MAX: int := 0x7FFF_FFFF

  /** Go's int32 arithmetic. */
  function Wrap32(x: int): (w: int)
    ensures -INT32_MAX - 1 <= w <= INT32_MAX
    ensures -INT32_MAX - 1 <= x <= INT32_MAX ==> w == x
  {
    var r := x % 0x1_0000_0000;
    if r > INT32_MAX then r - 0x1_0000_0000 else r
  }

  lemma WrapSum(x: int, y: int)
    ensures Wrap32(Wrap32(x) + y) == Wrap32(x + y)
  {
    var q := x / 0x1_0000_0000;
    var w := Wrap32(x);
    assert exists k :: x == w + 0x1_0000_0000 * k by {
      assert x == w + 0x1_0000_0000 * q || x == w + 0x1_0000_0000 * (q + 1);
    }
    var k :| x == w + 0x1_0000_0000 * k;
    WrapPeriod(w + y, k);
  }

  lemma WrapPeriod(x: int, k: int)
    ensures Wrap32(x + 0x1_0000_0000 * k) == Wrap32(x)
  {
    var m := 0x1_0000_0000;
    assert (x + m * k) % m == x % m by {
      var q := x / m;
      assert x + m * k == m * (q + k) + x % m;
      Remainder(x + m * k, q + k, x % m);
    }
  }

  lemma Remainder(x: int, q: int, r: int)
    requires x == 0x1_0000_0000 * q + r && 0 <= r < 0x1_0000_0000
    ensures x % 0x1_0000_0000 == r
  {
    var m := 0x1_0000_0000;
    assert x == m * (x / m) + x % m;
    assert m * (x / m - q) == r - x % m;
  }

  /** A task and the processes that go into it one by one, as integers and as the source's int32 fields. */
  function After(total: int, ps: seq<int>): (int, int) {
    if ps == [] then (total, 0)
    else
      var (size, history) := After(total, ps[..|ps| - 1]);
      (Shrink(size, ps[|ps| - 1]), history + ps[|ps| - 1])
  }

  function After32(total: int, ps: seq<int>): (int, int) {
    if ps == [] then (total, 0)
    else
      var (size, history) := After32(total, ps[..|ps| - 1]);
      var rest := Wrap32(size - ps[|ps| - 1]);
      (if rest < 0 then 0 else rest, Wrap32(history + ps[|ps| - 1]))
  }

  predicate Processes(ps: seq<int>) {
    forall i :: 0 <= i < |ps| ==> 0 <= ps[i] <= INT32_MAX
  }

  /** In 32 bits the remaining size is always right; the history is right exactly while it fits. */
  lemma {:induction false} AccountingIn32Bits(total: int, ps: seq<int>)
    requires 0 <= total <= INT32_MAX && Processes(ps)
    ensures After32(total, ps).0 == After(total, ps).0 && 0 <= After(total, ps).0 <= total
    ensures After32(total, ps).1 == Wrap32(After(total, ps).1) && After(total, ps).1 >= 0
    ensures After32(total, ps) == After(total, ps) <==> After(total, ps).1 <= INT32_MAX
  {
    if ps != [] {
      var init, p := ps[..|ps| - 1], ps[|ps| - 1];
      AccountingIn32Bits(total, init);
      WrapSum(After(total, init).1, p);
    }
  }

  // ----- The record of an epoch ---------------------------------------------

  function Ticks(evs: seq<Event>): nat {
    if evs == [] then 0 else Ticks(evs[..|evs| - 1]) + if evs[|evs| - 1] == NextEpoch then 1 else 0
  }

  /** What one event adds to the record of the epoch: an admitted slot, a refused one, a final message of a slot
      whose task is known with its process, an expiry message. */
  ghost function Noted(r: Record, s: Sys, ev: Event): Record
    requires Linked(s) && Possible(s, ev)
  {
    match ev
    case NextEpoch => Record(r.id + 1, {}, {}, map[], 0)
    case Handle(Item(id), certified) =>
      var x := s.slots[id];
      if x.state == UNDETERMINED && certified then r.(commits := r.commits + {x.hash})
      else if x.state == UNDETERMINED then r.(invalids := r.invalids[x.hash := VERIFIED_FAILED])
      else if x.state == INVALID then r.(invalids := r.invalids[x.hash := EXPIRE_SLOT])
      else if x.task in s.tasks then r.(finalizes := r.finalizes + {x.hash}, process := r.process + x.process)
      else r
    case _ => r
  }

  ghost function RecordOf(epoch: int, evs: seq<Event>): Record
    requires Run(epoch, evs).Some?
  {
    if evs == [] then Record(epoch + 1, {}, {}, map[], 0)
    else Noted(RecordOf(epoch, evs[..|evs| - 1]), Run(epoch, evs[..|evs| - 1]).value, evs[|evs| - 1])
  }

  lemma NotedId(r: Record, s: Sys, ev: Event)
    requires Linked(s) && Possible(s, ev)
    ensures Noted(r, s, ev).id == r.id + if ev == NextEpoch then 1 else 0
  {
  }

  lemma RecordStep(s: Sys, ev: Event)
    requires Good(s) && Enabled(s, ev)
    ensures Apply(s, ev).record == Noted(s.record, s, ev) && Apply(s, ev).epoch == s.epoch + if ev == NextEpoch then 1 else 0
  {
    assert Linked(s);
    if ev.Handle? && ev.message.Item? {
      ItemNotes(s, ev.message.id, ev.certified);
    }
    hide Dispatch, Good;
    if ev.Handle? {
      DispatchKeepsRest(s, ev.message, ev.certified);
    }
  }

  lemma ItemNotes(s: Sys, id: nat, certified: bool)
    requires Good(s) && Item(id) in s.queue
    ensures Dispatch(s, Item(id), certified).record == Noted(s.record, s, Handle(Item(id), certified))
  {
    assert SlotInOrder(s, id);
    hide Good, SlotInOrder;
  }

  /** At every time the record is what the events since the last tick noted; epoch and record count the ticks. */
  lemma {:induction false} RecordIsNoted(epoch: int, evs: seq<Event>)
    requires Run(epoch, evs).Some?
    ensures var s := Run(epoch, evs).value;
            s.record == RecordOf(epoch, evs) && s.epoch == epoch + Ticks(evs) && s.record.id == s.epoch + 1
  {
    if evs != [] {
      var init, ev := evs[..|evs| - 1], evs[|evs| - 1];
      RecordIsNoted(epoch, init);
      RunIsGood(epoch, init);
      hide Good, Apply, FreshHash, Possible, Linked, Noted;
      RecordStep(Run(epoch, init).value, ev);
      NotedId(RecordOf(epoch, init), Run(epoch, init).value, ev);
    }
  }

  // ----- What goes wrong without the conditions ----------------------------

  lemma RunStep(epoch: int, evs: seq<Event>, ev: Event)
    requires Run(epoch, evs).Some? && Enabled(Run(epoch, evs).value, ev)
    ensures Run(epoch, evs).Some? && Good(Run(epoch, evs).value)
    ensures Run(epoch, evs + [ev]) == Some(Apply(Run(epoch, evs).value, ev))
  {
    RunIsGood(epoch, evs);
    assert (evs + [ev])[..|evs|] == evs;
  }

  /** A slot of a task that needs no proof is submitted and admitted. */
  function AdmittedEvents(hash: Hash, task: TaskHash, process: int): seq<Event> {
    [NewTask(task, 2 * process, true)] + [Commit(hash, task, process)] + [Handle(Item(0), true)]
  }

  function AdmittedState(hash: Hash, task: TaskHash, process: int): Sys {
    var x := Slot(hash, task, process, UNDETERMINED, NONE, 0, true, false, false, Log(true, true, 0, false, 0, 0, 0, 0, 0, 0));
    Sys([x], multiset{}, map[hash := 0], {0}, map[task := TaskTrack(2 * process, 2 * process, 0, true)], [(task, 2 * process)], 0,
        Record(1, {hash}, {}, map[], 0), map[], {})
  }

  function SubmittedState(hash: Hash, task: TaskHash, process: int): Sys {
    Submit(InitTask(Initial(0), task, 2 * process, true), hash, task, process)
  }

  lemma AdmissionStep(hash: Hash, task: TaskHash, process: nat)
    ensures var s := SubmittedState(hash, task, process);
            Linked(s) && Item(0) in s.queue && Dispatch(s, Item(0), true) == AdmittedState(hash, task, process)
  {
    var s := SubmittedState(hash, task, process);
    assert s.queue == multiset{Item(0)};
    var t, u := Dispatch(s, Item(0), true), AdmittedState(hash, task, process);
    assert t.slots == u.slots;
    assert t.tasks == u.tasks && t.pending == u.pending && t.timers == u.timers && t.unprocessed == u.unprocessed;
    assert t.queue == u.queue && t.record == u.record;
  }

  lemma AdmittedRuns(hash: Hash, task: TaskHash, process: nat)
    ensures Run(0, AdmittedEvents(hash, task, process)) == Some(AdmittedState(hash, task, process))
  {
    var e1, e2 := [NewTask(task, 2 * process, true)], [Commit(hash, task, process)];
    assert Run(0, []) == Some(Initial(0));
    hide Good, Dispatch, AdmittedState;
    RunStep(0, [], NewTask(task, 2 * process, true));
    assert [] + e1 == e1;
    RunStep(0, e1, Commit(hash, task, process));
    AdmissionStep(hash, task, process);
    RunStep(0, e1 + e2, Handle(Item(0), true));
  }

  /** Its vote is counted and won: one final message is out. */
  function VoteWon(hash: Hash, task: TaskHash, process: int): seq<Event> {
    AdmittedEvents(hash, task, process) + [NextEpoch] + [Votes(1, {hash})] + [Handle(Won(hash), true)]
  }

  lemma VoteWonRuns(hash: Hash, task: TaskHash, process: nat)
    ensures Run(0, VoteWon(hash, task, process)).Some?
    ensures var s := Run(0, VoteWon(hash, task, process)).value;
            && |s.slots| == 1 && s.slots[0].hash == hash && s.slots[0].task == task && s.slots[0].process == process
            && s.slots[0].Complete() && s.slots[0].state == FINALIZE && !s.slots[0].isFinalized && s.slots[0].log.finals == 1
            && s.slots[0].log.finalsDone == s.slots[0].log.counted == 0
            && s.queue[Item(0)] == 1 && s.pending == map[hash := 0] && task in s.tasks && s.tasks[task].history == 0
  {
    var e := AdmittedEvents(hash, task, process);
    AdmittedRuns(hash, task, process);
    hide AdmittedEvents, Good;
    RunStep(0, e, NextEpoch);
    RunStep(0, e + [NextEpoch], Votes(1, {hash}));
    var s := Run(0, e + [NextEpoch] + [Votes(1, {hash})]).value;
    assert s.queue[Won(hash)] == 1;
    assert s.queue[Item(0)] == 0;
    RunStep(0, e + [NextEpoch] + [Votes(1, {hash})], Handle(Won(hash), true));
  }

  /** The finalized flag is raised on a copy, so nothing stops a proof event that comes after the vote
      of a slot that needed no proof: it is finalized twice and its process counted twice. */
  lemma LateProofFinalizesTwice(hash: Hash, task: TaskHash, process: nat)
    ensures var w := VoteWon(hash, task, process);
            var evs := w + [Proof(hash)] + [Handle(Item(0), true)] + [Handle(Item(0), true)];
            && Run(0, evs).Some? && HappensAt(ProofLate, 0, evs, |w|, 0)
            && var s := Run(0, evs).value;
               |s.slots| == 1 && s.slots[0].log.finalsDone == 2 && task in s.tasks && s.tasks[task].history == 2 * process
  {
    var w := VoteWon(hash, task, process);
    VoteWonRuns(hash, task, process);
    hide VoteWon, Good;
    LateHappens(w, [Handle(Item(0), true)] + [Handle(Item(0), true)], hash);
    assert w + [Proof(hash)] + ([Handle(Item(0), true)] + [Handle(Item(0), true)])
        == w + [Proof(hash)] + [Handle(Item(0), true)] + [Handle(Item(0), true)];
    RunStep(0, w, Proof(hash));
    hide Run, HappensAt;
    var s1 := Run(0, w + [Proof(hash)]).value;
    assert s1.queue[Item(0)] == 2;
    RunStep(0, w + [Proof(hash)], Handle(Item(0), true));
    var s2 := Run(0, w + [Proof(hash)] + [Handle(Item(0), true)]).value;
    assert s2.queue[Item(0)] == 1;
    RunStep(0, w + [Proof(hash)] + [Handle(Item(0), true)], Handle(Item(0), true));
  }

  lemma LateHappens(w: seq<Event>, rest: seq<Event>, hash: Hash)
    requires Run(0, w).Some?
    requires var s := Run(0, w).value; |s.slots| == 1 && s.slots[0].hash == hash && Tracked(s, 0) && s.slots[0].Complete()
    ensures HappensAt(ProofLate, 0, w + [Proof(hash)] + rest, |w|, 0)
  {
    hide Run;
    var evs := w + [Proof(hash)] + rest;
    assert evs[..|w|] == w && evs[|w|] == Proof(hash);
  }

  /** A slot of a task that is not registered yet goes through vote and proof. */
  function EarlyEvents(hash: Hash, task: TaskHash, process: int): seq<Event> {
    [Commit(hash, task, process)] + [Handle(Item(0), true)] + [NextEpoch] + [Votes(1, {hash})] + [Handle(Won(hash), true)] + [Proof(hash)]
  }

  lemma EarlyAdmitted(hash: Hash, task: TaskHash, process: nat)
    ensures var r := Run(0, [Commit(hash, task, process)] + [Handle(Item(0), true)] + [NextEpoch]);
            && r.Some? && |r.value.slots| == 1
            && r.value.slots[0] == Slot(hash, task, process, UNDETERMINED, NONE, 0, false, false, false, Log(true, false, 0, false, 0, 0, 0, 0, 0, 0))
            && r.value.queue == multiset{} && r.value.pending == map[hash := 0] && r.value.tasks == map[]
            && 1 in r.value.heartbeats && r.value.heartbeats[1] == {hash}
  {
    var c, e0 := Commit(hash, task, process), [Commit(hash, task, process)];
    assert Run(0, []) == Some(Initial(0));
    hide Good, Run, Dispatch;
    RunStep(0, [], c);
    assert [] + e0 == e0;
    var s := Run(0, e0).value;
    assert s.queue == multiset{Item(0)} && Linked(s);
    AdmitsItem(s, 0);
    RunStep(0, e0, Handle(Item(0), true));
    RunStep(0, e0 + [Handle(Item(0), true)], NextEpoch);
  }

  /** The votes on the only heartbeat are counted and the vote is won; the proof is missing. */
  lemma WonWithoutProof(s: Sys, hash: Hash)
    requires |s.slots| == 1 && s.queue == multiset{} && s.pending == map[hash := 0] && 1 in s.heartbeats && s.heartbeats[1] == {hash}
    requires !s.slots[0].hasProof && !s.slots[0].isFinalized
    ensures var t := CountVotes(s, 1, {hash});
            && t.queue[Won(hash)] == 1 && t.queue[Item(0)] == 0
            && WonVote(t.(queue := t.queue - multiset{Won(hash)}, voted := t.voted + {hash}), hash).slots == [s.slots[0].(hasWon := true)]
            && WonVote(t.(queue := t.queue - multiset{Won(hash)}, voted := t.voted + {hash}), hash).queue[Item(0)] == 0
  {
  }

  lemma EarlyWon(hash: Hash, task: TaskHash, process: nat)
    ensures var r := Run(0, [Commit(hash, task, process)] + [Handle(Item(0), true)] + [NextEpoch] + [Votes(1, {hash})] + [Handle(Won(hash), true)]);
            && r.Some? && r.value.queue[Item(0)] == 0 && r.value.pending == map[hash := 0] && r.value.tasks == map[]
            && r.value.slots == [Slot(hash, task, process, UNDETERMINED, NONE, 0, false, true, false, Log(true, false, 0, false, 0, 0, 0, 0, 0, 0))]
  {
    var e := [Commit(hash, task, process)] + [Handle(Item(0), true)] + [NextEpoch];
    hide Good, Run, WonVote, FreshHash;
    EarlyAdmitted(hash, task, process);
    var s := Run(0, e).value;
    WonWithoutProof(s, hash);
    WonKeepsPending(CountVotes(s, 1, {hash}), hash);
    RunStep(0, e, Votes(1, {hash}));
    RunStep(0, e + [Votes(1, {hash})], Handle(Won(hash), true));
  }

  /** The proof arrives last: the slot is finalized and its message is out. */
  lemma ProofCompletes(s: Sys, hash: Hash)
    requires |s.slots| == 1 && s.pending == map[hash := 0] && s.queue[Item(0)] == 0
    requires s.slots[0].hasWon && !s.slots[0].hasProof && !s.slots[0].isFinalized
    ensures var t, x := ReceiveProof(s, hash), s.slots[0];
            && t.queue[Item(0)] == 1 && t.tasks == s.tasks
            && t.slots == [x.(hasProof := true, state := FINALIZE, reason := NONE,
                              log := x.log.(proofs := x.log.proofs + 1, finals := x.log.finals + 1))]
  {
  }

  lemma EarlyRuns(hash: Hash, task: TaskHash, process: nat)
    ensures var r := Run(0, EarlyEvents(hash, task, process));
            && r.Some? && |r.value.slots| == 1 && r.value.queue[Item(0)] == 1 && r.value.tasks == map[]
            && r.value.slots[0].hash == hash && r.value.slots[0].task == task && r.value.slots[0].process == process
            && r.value.slots[0].state == FINALIZE && r.value.slots[0].log == Log(true, false, 1, false, 1, 0, 0, 0, 0, 0)
  {
    var e := [Commit(hash, task, process)] + [Handle(Item(0), true)] + [NextEpoch] + [Votes(1, {hash})] + [Handle(Won(hash), true)];
    EarlyWon(hash, task, process);
    hide Good, Run, ReceiveProof;
    ProofCompletes(Run(0, e).value, hash);
    RunStep(0, e, Proof(hash));
  }

  lemma WonKeepsPending(s: Sys, hash: Hash)
    requires hash in s.pending ==> s.pending[hash] < |s.slots|
    ensures var t := WonVote(s.(queue := s.queue - multiset{Won(hash)}, voted := s.voted + {hash}), hash);
            t.pending == s.pending && t.tasks == s.tasks
  {
  }

  /** A final message that is handled before its task is registered is lost to the task: the slot stays
      finalized, handled once and without late proof, and the task starts from nothing. */
  lemma EarlyFinalIsNotCounted(hash: Hash, task: TaskHash, process: nat, total: nat)
    ensures var e := EarlyEvents(hash, task, process);
            var evs := e + [Handle(Item(0), true)] + [NewTask(task, total, false)];
            && Run(0, evs).Some? && HappensAt(FinalMissed, 0, evs, |e|, 0) && !Ever(ProofLate, 0, evs, 0)
            && var s := Run(0, evs).value;
               && |s.slots| == 1 && s.slots[0].task == task && s.slots[0].process == process && s.slots[0].state == FINALIZE
               && s.slots[0].log.finalsDone == 1
               && task in s.tasks && s.tasks[task].history == 0 && s.tasks[task].size == total
  {
    var e := EarlyEvents(hash, task, process);
    EarlyRuns(hash, task, process);
    hide Good, EarlyEvents;
    var evs := e + [Handle(Item(0), true)] + [NewTask(task, total, false)];
    assert evs[..|e|] == e && evs[|e|] == Handle(Item(0), true);
    RunStep(0, e, Handle(Item(0), true));
    RunStep(0, e + [Handle(Item(0), true)], NewTask(task, total, false));
    LogTellsEvents(ProofLate, 0, evs, 0);
  }

  // ----- Without the condition on hashes ------------------------------------

  /** Runs in which a hash may be submitted again. */
  ghost function FreeRun(epoch: int, evs: seq<Event>): Option<Sys> {
    if evs == [] then Some(Initial(epoch))
    else
      match FreeRun(epoch, evs[..|evs| - 1])
      case None => None
      case Some(s) =>
        var ev := evs[|evs| - 1];
        if Linked(s) && Possible(s, ev) then Some(Apply(s, ev)) else None
  }

  lemma FreeStep(epoch: int, evs: seq<Event>, ev: Event)
    requires FreeRun(epoch, evs).Some? && Linked(FreeRun(epoch, evs).value) && Possible(FreeRun(epoch, evs).value, ev)
    ensures FreeRun(epoch, evs + [ev]) == Some(Apply(FreeRun(epoch, evs).value, ev))
  {
    assert (evs + [ev])[..|evs|] == evs;
  }

  lemma {:induction false} RunIsFree(epoch: int, evs: seq<Event>)
    requires Run(epoch, evs).Some?
    ensures FreeRun(epoch, evs) == Run(epoch, evs)
  {
    if evs != [] {
      RunIsFree(epoch, evs[..|evs| - 1]);
    }
  }

  predicate Committed(x: Slot, hash: Hash, task: TaskHash) {
    && x.hash == hash && x.task == task && x.state == UNDETERMINED
    && x.log == Log(false, false, 0, false, 0, 0, 0, 0, 0, 0)
  }

  predicate Proved(x: Slot, hash: Hash) {
    && x.hash == hash && x.hasProof && !x.hasWon && !x.isFinalized
    && x.log == Log(true, true, 0, false, 0, 0, 0, 0, 0, 0)
  }

  /** Two slots under one hash. */
  function SubmittedTwice(hash: Hash, task: TaskHash, process: nat): (s: Sys)
    ensures |s.slots| == 2 && Linked(s) && s.queue == multiset{Item(0), Item(1)} && s.record.commits == {} && IsReliable(s, task)
    ensures Committed(s.slots[0], hash, task) && Committed(s.slots[1], hash, task)
  {
    Submit(Submit(InitTask(Initial(0), task, process, true), hash, task, process), hash, task, process)
  }

  lemma AdmitsItem(s: Sys, id: nat)
    requires Linked(s) && Item(id) in s.queue && s.slots[id].state == UNDETERMINED
    ensures var t, x := Dispatch(s, Item(id), true), s.slots[id];
            && t.slots == s.slots[id := x.(hasProof := IsReliable(s, x.task), hasWon := false, isFinalized := false,
                 log := x.log.(admitted := true, reliable := IsReliable(s, x.task)))]
            && t.queue == s.queue - multiset{Item(id)} && t.pending == s.pending[x.hash := id] && t.timers == s.timers + {id}
            && t.tasks == s.tasks && t.record.commits == s.record.commits + {x.hash} && Linked(t)
  {
  }

  /** Both are admitted. */
  function AdmittedTwice(hash: Hash, task: TaskHash, process: nat): (s: Sys)
    ensures |s.slots| == 2 && Linked(s) && s.queue == multiset{} && hash in s.pending && s.pending[hash] == 1
    ensures s.timers == {0, 1} && s.record.commits == {hash} && s.epoch == 0 && s.heartbeats == map[] && s.voted == {}
    ensures Proved(s.slots[0], hash) && Proved(s.slots[1], hash)
  {
    hide SubmittedTwice, Dispatch, Linked;
    var s2 := SubmittedTwice(hash, task, process);
    AdmitsItem(s2, 0);
    AdmitsItem(Dispatch(s2, Item(0), true), 1);
    var s3 := Dispatch(s2, Item(0), true);
    OneThenOther(Item(0), Item(1));
    Dispatch(s3, Item(1), true)
  }

  lemma OneThenOther(a: Message, b: Message)
    ensures multiset{a, b} - multiset{a} == multiset{b} && multiset{b} - multiset{b} == multiset{}
  {
  }

  /** Both slots are submitted and admitted. */
  function TwiceEvents(hash: Hash, task: TaskHash, process: int): seq<Event> {
    [NewTask(task, process, true)] + [Commit(hash, task, process)] + [Commit(hash, task, process)]
    + [Handle(Item(0), true)] + [Handle(Item(1), true)]
  }

  lemma TwiceRuns(hash: Hash, task: TaskHash, process: nat)
    ensures FreeRun(0, TwiceEvents(hash, task, process)) == Some(AdmittedTwice(hash, task, process))
  {
    var c, e1 := Commit(hash, task, process), [NewTask(task, process, true)];
    assert FreeRun(0, []) == Some(Initial(0)) && [] + e1 == e1;
    hide FreeRun, Dispatch;
    FreeStep(0, [], NewTask(task, process, true));
    FreeStep(0, e1, c);
    FreeStep(0, e1 + [c], c);
    AdmitsItem(SubmittedTwice(hash, task, process), 0);
    FreeStep(0, e1 + [c] + [c], Handle(Item(0), true));
    FreeStep(0, e1 + [c] + [c] + [Handle(Item(0), true)], Handle(Item(1), true));
  }

  /** A hash submitted twice: the tracker follows the second slot only, so the first expires although
      the hash has won its vote and been finalized. */
  lemma ResubmissionResolvesTwice(hash: Hash, task: TaskHash, process: nat)
    ensures var evs := TwiceEvents(hash, task, process) + [NextEpoch] + [Votes(1, {hash})] + [Handle(Won(hash), true)] + [SlotTimer(0)];
            && FreeRun(0, evs).Some?
            && var s := FreeRun(0, evs).value;
               && |s.slots| == 2 && s.slots[0].hash == s.slots[1].hash == hash
               && s.slots[0].log.invalids == 1 && s.slots[0].log.finals == 0 && s.slots[1].log.finals == 1 && hash in s.voted
  {
    var e := TwiceEvents(hash, task, process);
    TwiceRuns(hash, task, process);
    hide FreeRun, AdmittedTwice, TwiceEvents;
    FreeStep(0, e, NextEpoch);
    FreeStep(0, e + [NextEpoch], Votes(1, {hash}));
    var s := FreeRun(0, e + [NextEpoch] + [Votes(1, {hash})]).value;
    assert s.queue[Won(hash)] == 1;
    assert Linked(s);
    FreeStep(0, e + [NextEpoch] + [Votes(1, {hash})], Handle(Won(hash), true));
    FreeStep(0, e + [NextEpoch] + [Votes(1, {hash})] + [Handle(Won(hash), true)], SlotTimer(0));
  }
}
