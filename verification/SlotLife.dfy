/** The life of a slot as a protocol: commit, heartbeat, vote, proof, expiry.  Every handler body is
    one atomic step; messages wait in one bag from which any may be taken next. */
module SlotLife {
  type Hash = string
  type TaskHash = string

  datatype CommitState = INVALID | UNDETERMINED | JUSTIFIED | FINALIZE

  datatype Reason = INVALID_SLOT | EXPIRE_SLOT | INVALID_COMMITMENT | VERIFIED_FAILED | DOWN_FAILED | UNKNOWN | NONE

  /** What has happened to a slot; the source does not keep it. */
  datatype Log = Log(
    admitted: bool,     // UpdateSlot took it
    reliable: bool,     // its task needed no proof when UpdateSlot took it
    proofs: nat,        // proof events that found it in the tracker
    expired: bool,      // its timer fired
    finals: nat,        // final messages sent
    invalids: nat,      // expiry messages sent
    lateProofs: nat,    // proof events that found the slot complete already
    finalsDone: nat,    // final messages handled
    invalidsDone: nat,  // expiry messages handled
    counted: nat)       // times its process went into the task

  /** A submitted slot.  The source shares it by pointer between queue, tracker and timer; here a
      pointer is an index into the list of all slots. */
  datatype Slot = Slot(
    hash: Hash,
    task: TaskHash,
    process: int,
    state: CommitState,
    reason: Reason,
    epoch: int,
    hasProof: bool,
    hasWon: bool,
    isFinalized: bool,
    log: Log)
  {
    /** PendingCommitSlotTrack.Check. */
    predicate Complete() {
      hasProof && hasWon
    }
  }

  /** A slot, or the stand-in a won vote is announced with. */
  datatype Message = Item(id: nat) | Won(hash: Hash)

  datatype TaskTrack = TaskTrack(total: int, size: int, history: int, isReliable: bool)

  datatype Record = Record(id: int, commits: set<Hash>, finalizes: set<Hash>, invalids: map<Hash, Reason>, process: int)

  datatype Sys = Sys(
    slots: seq<Slot>,
    queue: multiset<Message>,
    pending: map<Hash, nat>,
    timers: set<nat>,
    tasks: map<TaskHash, TaskTrack>,
    unprocessed: seq<(TaskHash, int)>,
    epoch: int,
    record: Record,
    heartbeats: map<int, set<Hash>>,
    voted: set<Hash>)

  function Initial(epoch: int): Sys {
    Sys([], multiset{}, map[], {}, map[], [], epoch, Record(epoch + 1, {}, {}, map[], 0), map[], {})
  }

  // ----- The tracker -----------------------------------------------------

  function IsReliable(s: Sys, task: TaskHash): bool {
    task in s.tasks && s.tasks[task].isReliable
  }

  function UpdateSlot(s: Sys, id: nat): Sys
    requires id < |s.slots|
  {
    var x := s.slots[id];
    var x' := x.(hasProof := IsReliable(s, x.task), hasWon := false, isFinalized := false,
                 log := x.log.(admitted := true, reliable := IsReliable(s, x.task)));
    s.(slots := s.slots[id := x'], pending := s.pending[x.hash := id], timers := s.timers + {id})
  }

  /** CheckFinalized works on a copy of the track: the flag it raises is lost, the state of the shared
      item is not. */
  function CheckFinalized(s: Sys, id: nat): Sys
    requires id < |s.slots|
  {
    var x := s.slots[id];
    if x.Complete() then
      var x' := x.(state := FINALIZE, reason := NONE, log := x.log.(finals := x.log.finals + 1));
      s.(slots := s.slots[id := x'], queue := s.queue + multiset{Item(id)})
    else s
  }

  function WonVote(s: Sys, hash: Hash): Sys
    requires hash in s.pending ==> s.pending[hash] < |s.slots|
  {
    if hash !in s.pending || s.slots[s.pending[hash]].isFinalized then s
    else
      var id := s.pending[hash];
      CheckFinalized(s.(slots := s.slots[id := s.slots[id].(hasWon := true)]), id)
  }

  function ReceiveProof(s: Sys, hash: Hash): Sys
    requires hash in s.pending ==> s.pending[hash] < |s.slots|
  {
    if hash !in s.pending || s.slots[s.pending[hash]].isFinalized then s
    else
      var id := s.pending[hash];
      var x := s.slots[id];
      var late := if x.Complete() then 1 else 0;
      var x' := x.(hasProof := true, log := x.log.(proofs := x.log.proofs + 1, lateProofs := x.log.lateProofs + late));
      CheckFinalized(s.(slots := s.slots[id := x']), id)
  }

  /** CollectExpire for a slot's timer. */
  function ExpireSlot(s: Sys, id: nat): Sys
    requires id < |s.slots|
  {
    var x := s.slots[id];
    var t := s.(timers := s.timers - {id}, pending := s.pending - {x.hash});
    if x.Complete() then t.(slots := s.slots[id := x.(log := x.log.(expired := true))])
    else
      var x' := x.(state := INVALID, reason := EXPIRE_SLOT, log := x.log.(expired := true, invalids := x.log.invalids + 1));
      t.(slots := s.slots[id := x'], queue := s.queue + multiset{Item(id)})
  }

  /** UnprocessedTask.Process. */
  function Shrink(size: int, process: int): int {
    if size - process < 0 then 0 else size - process
  }

  function InitTask(s: Sys, task: TaskHash, total: int, reliable: bool): Sys {
    s.(tasks := s.tasks[task := TaskTrack(total, total, 0, reliable)], unprocessed := s.unprocessed + [(task, total)])
  }

  /** CollectExpire for a task's timer: an unfinished task is scheduled again with what is left. */
  function ExpireTask(s: Sys, task: TaskHash): Sys
    requires task in s.tasks
  {
    if s.tasks[task].size <= 0 then s
    else s.(unprocessed := s.unprocessed + [(task, s.tasks[task].size)])
  }

  // ----- The epoch manager -----------------------------------------------

  function Submit(s: Sys, hash: Hash, task: TaskHash, process: int): Sys {
    var x := Slot(hash, task, process, UNDETERMINED, NONE, 0, false, false, false, Log(false, false, 0, false, 0, 0, 0, 0, 0, 0));
    s.(slots := s.slots + [x], queue := s.queue + multiset{Item(|s.slots|)})
  }

  /** A newly committed slot: admitted when the certificate of its node is good, dropped otherwise. */
  function Admit(s: Sys, id: nat, certified: bool): Sys
    requires id < |s.slots|
  {
    var x := s.slots[id];
    if certified then
      var t := UpdateSlot(s, id);
      t.(record := t.record.(commits := t.record.commits + {x.hash}))
    else
      s.(slots := s.slots[id := x.(state := INVALID, reason := VERIFIED_FAILED)],
         record := s.record.(invalids := s.record.invalids[x.hash := VERIFIED_FAILED]))
  }

  /** A final message: the task moves on and the epoch record takes the slot in; a slot of an unknown
      task is skipped. */
  function Finalize(s: Sys, id: nat): Sys
    requires id < |s.slots|
  {
    var x := s.slots[id];
    var x' := x.(epoch := s.epoch, state := FINALIZE, reason := NONE, log := x.log.(finalsDone := x.log.finalsDone + 1));
    if x.task !in s.tasks then s.(slots := s.slots[id := x'])
    else
      var t := s.tasks[x.task];
      s.(slots := s.slots[id := x'.(log := x'.log.(counted := x.log.counted + 1))],
         tasks := s.tasks[x.task := t.(size := Shrink(t.size, x.process), history := t.history + x.process)],
         record := s.record.(finalizes := s.record.finalizes + {x.hash}, process := s.record.process + x.process))
  }

  function Abort(s: Sys, id: nat): Sys
    requires id < |s.slots|
  {
    var x := s.slots[id];
    s.(slots := s.slots[id := x.(log := x.log.(invalidsDone := x.log.invalidsDone + 1))],
       record := s.record.(invalids := s.record.invalids[x.hash := x.reason]))
  }

  ghost predicate Linked(s: Sys) {
    && (forall h :: h in s.pending ==> s.pending[h] < |s.slots|)
    && (forall id: nat :: Item(id) in s.queue ==> id < |s.slots|)
    && (forall id :: id in s.timers ==> id < |s.slots|)
  }

  /** One turn of the dispatch loop: the state of the item decides what the message means. */
  function Dispatch(s: Sys, m: Message, certified: bool): Sys
    requires Linked(s) && m in s.queue
  {
    var t := s.(queue := s.queue - multiset{m});
    match m
    case Won(hash) => WonVote(t.(voted := t.voted + {hash}), hash)
    case Item(id) =>
      match t.slots[id].state
      case UNDETERMINED => Admit(t, id, certified)
      case JUSTIFIED => WonVote(t, t.slots[id].hash)
      case FINALIZE => Finalize(t, id)
      case INVALID => Abort(t, id)
  }

  /** UpdateEpoch: the heartbeat takes the record's commits along, and a new record begins. */
  function Tick(s: Sys): Sys {
    s.(epoch := s.epoch + 1,
       heartbeats := s.heartbeats[s.epoch + 1 := s.record.commits],
       record := Record(s.record.id + 1, {}, {}, map[], 0))
  }

  function Winners(passing: set<Hash>): (r: multiset<Message>)
    ensures forall id :: r[Item(id)] == 0
    ensures forall h :: r[Won(h)] == if h in passing then 1 else 0
  {
    multiset(set h | h in passing :: Won(h))
  }

  /** The votes on one heartbeat are counted: one message per hash that passes. */
  function CountVotes(s: Sys, e: int, passing: set<Hash>): Sys {
    s.(heartbeats := s.heartbeats - {e}, queue := s.queue + Winners(passing))
  }

  // ----- Events ----------------------------------------------------------

  datatype Event =
    | NewTask(task: TaskHash, total: int, reliable: bool)
    | TaskTimer(task: TaskHash)
    | Commit(hash: Hash, task: TaskHash, process: int)
    | Handle(message: Message, certified: bool)
    | NextEpoch
    | Votes(epoch: int, passing: set<Hash>)
    | Proof(hash: Hash)
    | SlotTimer(id: nat)

  predicate FreshHash(s: Sys, hash: Hash) {
    forall id :: 0 <= id < |s.slots| ==> s.slots[id].hash != hash
  }

  /** What can happen next: messages and timers that exist, each task registered once, nothing processed
      in the negative. */
  predicate Possible(s: Sys, ev: Event) {
    match ev
    case NewTask(task, total, _) => task !in s.tasks && total >= 0
    case TaskTimer(task) => task in s.tasks
    case Commit(_, _, process) => process >= 0
    case Handle(m, _) => m in s.queue
    case NextEpoch => true
    case Votes(e, passing) => e in s.heartbeats && passing <= s.heartbeats[e]
    case Proof(_) => true
    case SlotTimer(id) => id in s.timers
  }

  /** Moreover each slot hash is submitted once. */
  predicate Enabled(s: Sys, ev: Event) {
    Possible(s, ev) && (ev.Commit? ==> FreshHash(s, ev.hash))
  }

  function Apply(s: Sys, ev: Event): Sys
    requires Linked(s) && Possible(s, ev)
  {
    match ev
    case NewTask(task, total, reliable) => InitTask(s, task, total, reliable)
    case TaskTimer(task) => ExpireTask(s, task)
    case Commit(hash, task, process) => Submit(s, hash, task, process)
    case Handle(m, certified) => Dispatch(s, m, certified)
    case NextEpoch => Tick(s)
    case Votes(e, passing) => CountVotes(s, e, passing)
    case Proof(hash) => ReceiveProof(s, hash)
    case SlotTimer(id) => ExpireSlot(s, id)
  }

  // ----- What every reachable state keeps ---------------------------------

  /** A slot in the hands of the tracker. */
  ghost predicate Tracked(s: Sys, id: nat)
    requires id < |s.slots|
  {
    s.slots[id].hash in s.pending && s.pending[s.slots[id].hash] == id
  }

  /** Submitted, waiting in the queue for the first time. */
  ghost predicate Waiting(s: Sys, id: nat)
    requires id < |s.slots|
  {
    var x := s.slots[id];
    && x.state == UNDETERMINED && x.log == Log(false, false, 0, false, 0, 0, 0, 0, 0, 0) && !x.hasProof && !x.hasWon
    && s.queue[Item(id)] == 1 && id !in s.timers && !Tracked(s, id)
  }

  /** Admitted and not complete: the timer runs. */
  ghost predicate InFlight(s: Sys, id: nat)
    requires id < |s.slots|
  {
    var x := s.slots[id];
    && x.state == UNDETERMINED && x.log == Log(true, x.log.reliable, x.log.proofs, false, 0, 0, 0, 0, 0, 0) && !x.Complete()
    && s.queue[Item(id)] == 0 && id in s.timers && Tracked(s, id)
  }

  /** Won its vote and has its proof: one final message, and one more for every late proof. */
  ghost predicate Completed(s: Sys, id: nat)
    requires id < |s.slots|
  {
    var x := s.slots[id];
    && x.state == FINALIZE && x.Complete() && x.log.admitted && x.log.invalids == x.log.invalidsDone == 0
    && x.log.finals == 1 + x.log.lateProofs && s.queue[Item(id)] + x.log.finalsDone == x.log.finals
    && x.log.counted <= x.log.finalsDone
    && (x.log.expired <==> id !in s.timers) && (id in s.timers <==> Tracked(s, id))
  }

  /** The timer fired first: one expiry message. */
  ghost predicate Expired(s: Sys, id: nat)
    requires id < |s.slots|
  {
    var x := s.slots[id];
    && x.state == INVALID && x.reason == EXPIRE_SLOT && !x.Complete() && x.log.admitted && x.log.expired
    && x.log.finals == x.log.finalsDone == x.log.counted == x.log.lateProofs == 0
    && x.log.invalids == 1 && s.queue[Item(id)] + x.log.invalidsDone == 1
    && id !in s.timers && !Tracked(s, id)
  }

  /** Not admitted: its node had no valid certificate. */
  ghost predicate Rejected(s: Sys, id: nat)
    requires id < |s.slots|
  {
    var x := s.slots[id];
    && x.state == INVALID && x.reason == VERIFIED_FAILED && x.log == Log(false, false, 0, false, 0, 0, 0, 0, 0, 0) && !x.hasProof && !x.hasWon
    && s.queue[Item(id)] == 0 && id !in s.timers && !Tracked(s, id)
  }

  /** The proof flag is up from the start or since the first proof event; only later events are late. */
  ghost predicate ProofsInOrder(x: Slot) {
    && (x.hasProof <==> x.log.reliable || x.log.proofs > 0)
    && x.log.lateProofs <= x.log.proofs
    && (!x.log.reliable && x.log.proofs > 0 ==> x.log.lateProofs < x.log.proofs)
  }

  ghost predicate SlotInOrder(s: Sys, id: nat)
    requires id < |s.slots|
  {
    && !s.slots[id].isFinalized && s.slots[id].process >= 0
    && (s.slots[id].hasWon ==> s.slots[id].hash in s.voted) && ProofsInOrder(s.slots[id])
    && (Waiting(s, id) || InFlight(s, id) || Completed(s, id) || Expired(s, id) || Rejected(s, id))
  }

  ghost predicate Known(s: Sys, h: Hash) {
    exists id :: 0 <= id < |s.slots| && s.slots[id].hash == h && s.slots[id].log.admitted
  }

  /** Each admitted hash goes through the vote at most once: it is in the record, or in one heartbeat,
      or announced, or spent. */
  ghost predicate OneVote(s: Sys) {
    && (forall h :: h in s.record.commits ==> Known(s, h) && Won(h) !in s.queue && h !in s.voted)
    && (forall e, h :: e in s.heartbeats && h in s.heartbeats[e] ==>
          Known(s, h) && Won(h) !in s.queue && h !in s.voted && h !in s.record.commits)
    && (forall e, f, h :: e in s.heartbeats && f in s.heartbeats && e != f && h in s.heartbeats[e] ==> h !in s.heartbeats[f])
    && (forall e :: e in s.heartbeats ==> e <= s.epoch)
    && (forall h :: Won(h) in s.queue ==> s.queue[Won(h)] == 1 && Known(s, h) && h !in s.voted)
    && (forall h :: h in s.voted ==> Known(s, h))
  }

  ghost predicate DistinctHashes(s: Sys) {
    forall i, j :: 0 <= i < j < |s.slots| ==> s.slots[i].hash != s.slots[j].hash
  }

  ghost predicate PendingMatches(s: Sys) {
    forall h :: h in s.pending ==> s.pending[h] < |s.slots| && s.slots[s.pending[h]].hash == h
  }

  /** The process a task has been credited with. */
  function Credited(slots: seq<Slot>, task: TaskHash): int {
    if slots == [] then 0
    else
      var x := slots[|slots| - 1];
      Credited(slots[..|slots| - 1], task) + if x.task == task then x.process * x.log.counted else 0
  }

  ghost predicate TaskInOrder(s: Sys, task: TaskHash)
    requires task in s.tasks
  {
    var t := s.tasks[task];
    && t.total >= 0 && t.history == Credited(s.slots, task)
    && t.size == if t.total - t.history > 0 then t.total - t.history else 0
  }

  /** A task nobody registered has been credited with nothing. */
  ghost predicate Accounts(s: Sys) {
    && (forall task :: task in s.tasks ==> TaskInOrder(s, task))
    && (forall id :: 0 <= id < |s.slots| && s.slots[id].task !in s.tasks ==> s.slots[id].log.counted == 0)
  }

  ghost predicate AllSlots(s: Sys) {
    forall id :: 0 <= id < |s.slots| ==> SlotInOrder(s, id)
  }

  ghost predicate Good(s: Sys) {
    Linked(s) && DistinctHashes(s) && PendingMatches(s) && AllSlots(s) && OneVote(s) && Accounts(s)
  }

  // ----- Steps -----------------------------------------------------------

  /** Only slot `id` changed, and only the queue's messages about it and the tracker's entry for its hash. */
  ghost predicate OnlySlot(s: Sys, t: Sys, id: nat) {
    && id < |s.slots| == |t.slots| && t.slots[id].hash == s.slots[id].hash
    && t.slots == s.slots[id := t.slots[id]]
    && (forall j: nat :: j != id ==> t.queue[Item(j)] == s.queue[Item(j)] && (j in t.timers <==> j in s.timers))
    && (forall h :: h != s.slots[id].hash ==> (h in t.pending <==> h in s.pending) && (h in s.pending ==> t.pending[h] == s.pending[h]))
    && s.voted <= t.voted
  }

  lemma OthersStayInOrder(s: Sys, t: Sys, id: nat)
    requires DistinctHashes(s) && AllSlots(s) && OnlySlot(s, t, id) && SlotInOrder(t, id)
    ensures AllSlots(t) && DistinctHashes(t)
  {
    forall j | 0 <= j < |t.slots| ensures SlotInOrder(t, j) {
      if j != id {
        assert t.slots[j] == s.slots[j] && SlotInOrder(s, j);
        assert s.slots[j].hash != s.slots[id].hash;
      }
    }
  }

  lemma StillKnown(s: Sys, t: Sys, id: nat, h: Hash)
    requires OnlySlot(s, t, id) && (s.slots[id].log.admitted ==> t.slots[id].log.admitted) && Known(s, h)
    ensures Known(t, h)
  {
    var j :| 0 <= j < |s.slots| && s.slots[j].hash == h && s.slots[j].log.admitted;
    assert t.slots[j].hash == h && t.slots[j].log.admitted;
  }

  /** The vote is not touched. */
  lemma VoteUntouched(s: Sys, t: Sys, id: nat)
    requires OneVote(s) && OnlySlot(s, t, id) && (s.slots[id].log.admitted ==> t.slots[id].log.admitted)
    requires t.record.commits == s.record.commits && t.heartbeats == s.heartbeats && t.voted == s.voted && t.epoch == s.epoch
    requires forall h :: t.queue[Won(h)] == s.queue[Won(h)]
    ensures OneVote(t)
  {
    forall h | Known(s, h) ensures Known(t, h) {
      StillKnown(s, t, id, h);
    }
  }

  /** Credit depends on tasks, process and counted only. */
  lemma {:induction false} CreditUpdate(slots: seq<Slot>, id: nat, x: Slot, task: TaskHash)
    requires id < |slots| && x.task == slots[id].task && x.process == slots[id].process
    ensures Credited(slots[id := x], task)
         == Credited(slots, task) + if x.task == task then x.process * (x.log.counted - slots[id].log.counted) else 0
  {
    var n := |slots| - 1;
    if id < n {
      assert slots[id := x][..n] == slots[..n][id := x];
      CreditUpdate(slots[..n], id, x, task);
    } else {
      assert slots[id := x][..n] == slots[..n];
      assert x.process * (x.log.counted - slots[id].log.counted) == x.process * x.log.counted - x.process * slots[id].log.counted;
    }
  }

  lemma AccountsUntouched(s: Sys, t: Sys, id: nat)
    requires Accounts(s) && OnlySlot(s, t, id) && t.tasks == s.tasks
    requires t.slots[id].task == s.slots[id].task && t.slots[id].process == s.slots[id].process
    requires t.slots[id].log.counted == s.slots[id].log.counted
    ensures Accounts(t)
  {
    forall task | task in t.tasks ensures TaskInOrder(t, task) {
      assert TaskInOrder(s, task);
      CreditUpdate(s.slots, id, t.slots[id], task);
    }
  }

  lemma SubmitIsGood(s: Sys, hash: Hash, task: TaskHash, process: int)
    requires Good(s) && FreshHash(s, hash) && process >= 0
    ensures Good(Submit(s, hash, task, process))
  {
    var t, n := Submit(s, hash, task, process), |s.slots|;
    SubmittedSlots(s, hash, task, process);
    SubmittedVote(s, hash, task, process);
    hide OneVote, SlotInOrder;
    assert t.slots[..n] == s.slots;
    forall a | a in t.tasks ensures TaskInOrder(t, a) {
      assert TaskInOrder(s, a);
    }
  }

  lemma SubmittedSlots(s: Sys, hash: Hash, task: TaskHash, process: int)
    requires Linked(s) && PendingMatches(s) && AllSlots(s) && FreshHash(s, hash) && process >= 0
    ensures AllSlots(Submit(s, hash, task, process))
  {
    var t, n := Submit(s, hash, task, process), |s.slots|;
    forall j | 0 <= j < |t.slots| ensures SlotInOrder(t, j) {
      if j < n {
        assert SlotInOrder(s, j) && t.slots[j] == s.slots[j];
      } else {
        assert s.queue[Item(n)] == 0;
        assert Waiting(t, n);
      }
    }
  }

  lemma SubmittedVote(s: Sys, hash: Hash, task: TaskHash, process: int)
    requires OneVote(s)
    ensures OneVote(Submit(s, hash, task, process))
  {
    var t := Submit(s, hash, task, process);
    forall h | Known(s, h) ensures Known(t, h) {
      var j :| 0 <= j < |s.slots| && s.slots[j].hash == h && s.slots[j].log.admitted;
      assert t.slots[j].hash == h && t.slots[j].log.admitted;
    }
    assert forall h :: t.queue[Won(h)] == s.queue[Won(h)];
  }

  lemma {:induction false} NoCredit(slots: seq<Slot>, task: TaskHash)
    requires forall id :: 0 <= id < |slots| && slots[id].task == task ==> slots[id].log.counted == 0
    ensures Credited(slots, task) == 0
  {
    if slots != [] {
      NoCredit(slots[..|slots| - 1], task);
    }
  }

  lemma InitTaskIsGood(s: Sys, task: TaskHash, total: int, reliable: bool)
    requires Good(s) && task !in s.tasks && total >= 0
    ensures Good(InitTask(s, task, total, reliable))
  {
    var t := InitTask(s, task, total, reliable);
    InitTaskAccounts(s, task, total, reliable);
    hide Accounts;
    forall j | 0 <= j < |t.slots| ensures SlotInOrder(t, j) {
      assert SlotInOrder(s, j);
    }
    UntouchedKnown(s, t);
    hide Known, SlotInOrder;
  }

  lemma InitTaskAccounts(s: Sys, task: TaskHash, total: int, reliable: bool)
    requires Accounts(s) && task !in s.tasks && total >= 0
    ensures Accounts(InitTask(s, task, total, reliable))
  {
    var t := InitTask(s, task, total, reliable);
    NoCredit(s.slots, task);
    forall a | a in t.tasks ensures TaskInOrder(t, a) {
      if a != task {
        assert TaskInOrder(s, a);
      }
    }
  }

  lemma ExpireTaskIsGood(s: Sys, task: TaskHash)
    requires Good(s) && task in s.tasks
    ensures Good(ExpireTask(s, task))
  {
    var t := ExpireTask(s, task);
    SameForAll(s, t);
  }

  /** Slots, timers, tracker and tasks are as they were, and so are the messages about slots. */
  ghost predicate SlotsUntouched(s: Sys, t: Sys) {
    && t.slots == s.slots && t.pending == s.pending && t.timers == s.timers && t.tasks == s.tasks && s.voted <= t.voted
    && forall id: nat :: t.queue[Item(id)] == s.queue[Item(id)]
  }

  lemma UntouchedIsGood(s: Sys, t: Sys)
    requires Good(s) && SlotsUntouched(s, t) && OneVote(t)
    ensures Good(t)
  {
    hide OneVote;
    forall j | 0 <= j < |t.slots| ensures SlotInOrder(t, j) {
      assert SlotInOrder(s, j);
    }
    forall a | a in t.tasks ensures TaskInOrder(t, a) {
      assert TaskInOrder(s, a);
    }
    forall id: nat | Item(id) in t.queue ensures id < |t.slots| {
      assert Item(id) in s.queue;
    }
  }

  lemma UntouchedKnown(s: Sys, t: Sys)
    requires t.slots == s.slots
    ensures forall h :: Known(s, h) <==> Known(t, h)
  {
  }

  /** Nothing the invariant looks at changed. */
  lemma SameForAll(s: Sys, t: Sys)
    requires Good(s) && t.slots == s.slots && t.queue == s.queue && t.pending == s.pending && t.timers == s.timers
    requires t.tasks == s.tasks && t.epoch == s.epoch && t.heartbeats == s.heartbeats && t.voted == s.voted && t.record.commits == s.record.commits
    ensures Good(t)
  {
    UntouchedKnown(s, t);
    hide Known;
    UntouchedIsGood(s, t);
  }

  /** A new heartbeat takes over the record's commits. */
  lemma TickIsGood(s: Sys)
    requires Good(s)
    ensures Good(Tick(s))
  {
    TickVote(s);
    hide SlotInOrder, Accounts, OneVote, DistinctHashes, AllSlots;
    UntouchedIsGood(s, Tick(s));
  }

  lemma TickVote(s: Sys)
    requires OneVote(s)
    ensures OneVote(Tick(s))
  {
    UntouchedKnown(s, Tick(s));
    hide Known;
    assert s.epoch + 1 !in s.heartbeats;
  }

  lemma CountVotesIsGood(s: Sys, e: int, passing: set<Hash>)
    requires Good(s) && e in s.heartbeats && passing <= s.heartbeats[e]
    ensures Good(CountVotes(s, e, passing))
  {
    CountedVote(s, e, passing);
    hide SlotInOrder, Accounts, OneVote, DistinctHashes, AllSlots;
    UntouchedIsGood(s, CountVotes(s, e, passing));
  }

  lemma CountedVote(s: Sys, e: int, passing: set<Hash>)
    requires OneVote(s) && e in s.heartbeats && passing <= s.heartbeats[e]
    ensures OneVote(CountVotes(s, e, passing))
  {
    var t := CountVotes(s, e, passing);
    UntouchedKnown(s, t);
    hide Known;
    assert forall h :: t.queue[Won(h)] == s.queue[Won(h)] + if h in passing then 1 else 0;
  }

  // ----- Proof, expiry and vote ------------------------------------------

  /** Marking a tracked slot and checking it: the outcome in one piece. */
  function Marked(s: Sys, id: nat, x: Slot): Sys
    requires id < |s.slots|
  {
    CheckFinalized(s.(slots := s.slots[id := x]), id)
  }

  /** A tracked slot that gets its proof or its vote stays in order. */
  lemma MarkedIsInOrder(s: Sys, id: nat, x: Slot)
    requires Good(s) && id < |s.slots| && Tracked(s, id)
    requires var y := s.slots[id];
      x == y.(hasWon := x.hasWon, hasProof := x.hasProof, log := y.log.(proofs := x.log.proofs, lateProofs := x.log.lateProofs))
    requires (s.slots[id].hasWon ==> x.hasWon) && (s.slots[id].hasProof ==> x.hasProof) && (x.hasWon ==> x.hash in s.voted)
    requires ProofsInOrder(x)
    requires x.log.lateProofs == s.slots[id].log.lateProofs + if s.slots[id].Complete() then 1 else 0
    ensures var t := Marked(s, id, x);
            && OnlySlot(s, t, id) && SlotInOrder(t, id)
            && (forall h :: t.queue[Won(h)] == s.queue[Won(h)]) && t.slots[id].log.counted == s.slots[id].log.counted
  {
    assert SlotInOrder(s, id);
    assert InFlight(s, id) || Completed(s, id);
    var t := Marked(s, id, x);
    if x.Complete() {
      assert Completed(t, id);
    } else {
      assert InFlight(t, id);
    }
  }

  lemma GoodFromParts(s: Sys, t: Sys, id: nat)
    requires Good(s) && OnlySlot(s, t, id) && SlotInOrder(t, id) && OneVote(t) && Accounts(t)
    requires forall h :: h in t.pending ==> t.pending[h] < |t.slots| && t.slots[t.pending[h]].hash == h
    ensures Good(t)
  {
    OthersStayInOrder(s, t, id);
    forall j: nat | Item(j) in t.queue ensures j < |t.slots| {
      assert j == id || Item(j) in s.queue;
    }
    forall j | j in t.timers ensures j < |t.slots| {
      assert j == id || j in s.timers;
    }
  }

  /** The slot after a proof event, before it is checked. */
  function WithProof(y: Slot): Slot {
    y.(hasProof := true, log := y.log.(proofs := y.log.proofs + 1, lateProofs := y.log.lateProofs + if y.Complete() then 1 else 0))
  }

  lemma ProofMarks(s: Sys, hash: Hash)
    requires Good(s) && hash in s.pending
    ensures var id := s.pending[hash];
            && id < |s.slots| && Tracked(s, id) && ReceiveProof(s, hash) == Marked(s, id, WithProof(s.slots[id]))
            && ProofsInOrder(WithProof(s.slots[id])) && (s.slots[id].hasWon ==> s.slots[id].hash in s.voted)
  {
    assert SlotInOrder(s, s.pending[hash]);
  }

  lemma ReceiveProofIsGood(s: Sys, hash: Hash)
    requires Good(s)
    ensures Good(ReceiveProof(s, hash))
  {
    if hash in s.pending {
      ProofMarks(s, hash);
      var id := s.pending[hash];
      var x := WithProof(s.slots[id]);
      MarkedKeepsRest(s, id, x);
      MarkedIsInOrder(s, id, x);
      MarkedIsGood(s, id, x);
    }
  }

  lemma MarkedIsGood(s: Sys, id: nat, x: Slot)
    requires Good(s) && id < |s.slots| && x.hash == s.slots[id].hash && x.task == s.slots[id].task && x.process == s.slots[id].process
    requires x.log.admitted == s.slots[id].log.admitted
    requires var t := Marked(s, id, x);
      && OnlySlot(s, t, id) && SlotInOrder(t, id)
      && (forall h :: t.queue[Won(h)] == s.queue[Won(h)]) && t.slots[id].log.counted == s.slots[id].log.counted
    ensures Good(Marked(s, id, x))
  {
    hide SlotInOrder, Marked, OneVote, Accounts, CheckFinalized, AllSlots;
    var t := Marked(s, id, x);
    MarkedKeepsRest(s, id, x);
    VoteUntouched(s, t, id);
    AccountsUntouched(s, t, id);
    GoodFromParts(s, t, id);
  }

  lemma MarkedKeepsRest(s: Sys, id: nat, x: Slot)
    requires id < |s.slots|
    ensures var t := Marked(s, id, x);
            && t == s.(slots := t.slots, queue := t.queue) && |t.slots| == |s.slots|
            && t.slots[id].hash == x.hash && t.slots[id].task == x.task && t.slots[id].process == x.process
            && t.slots[id].log.admitted == x.log.admitted
  {
  }

  lemma ExpireSlotIsGood(s: Sys, id: nat)
    requires Good(s) && id in s.timers
    ensures Good(ExpireSlot(s, id))
  {
    hide OneVote, Accounts, DistinctHashes;
    var t := ExpireSlot(s, id);
    assert SlotInOrder(s, id);
    assert InFlight(s, id) || Completed(s, id);
    assert OnlySlot(s, t, id);
    assert Expired(t, id) || Completed(t, id);
    assert forall h :: t.queue[Won(h)] == s.queue[Won(h)];
    VoteUntouched(s, t, id);
    AccountsUntouched(s, t, id);
    GoodFromParts(s, t, id);
  }

  lemma WonMarks(u: Sys, hash: Hash)
    requires Good(u) && hash in u.pending && hash in u.voted && u.pending[hash] < |u.slots| && !u.slots[u.pending[hash]].hasWon
    ensures var id := u.pending[hash];
            && Tracked(u, id) && WonVote(u, hash) == Marked(u, id, u.slots[id].(hasWon := true))
            && u.slots[id].hash == hash && ProofsInOrder(u.slots[id].(hasWon := true))
  {
    assert SlotInOrder(u, u.pending[hash]);
  }

  /** The announcement of a won vote is spent whether or not the slot is still there. */
  lemma WonIsGood(s: Sys, hash: Hash, certified: bool)
    requires Good(s) && Won(hash) in s.queue
    ensures Good(Dispatch(s, Won(hash), certified))
  {
    var u := s.(queue := s.queue - multiset{Won(hash)}, voted := s.voted + {hash});
    SpentIsGood(s, hash);
    if hash in s.pending {
      var id := s.pending[hash];
      assert !s.slots[id].hasWon by {
        assert SlotInOrder(s, id);
      }
      WonMarks(u, hash);
      var x := u.slots[id].(hasWon := true);
      MarkedKeepsRest(u, id, x);
      MarkedIsInOrder(u, id, x);
      MarkedIsGood(u, id, x);
    }
  }

  lemma SpentIsGood(s: Sys, hash: Hash)
    requires Good(s) && Won(hash) in s.queue
    ensures Good(s.(queue := s.queue - multiset{Won(hash)}, voted := s.voted + {hash}))
  {
    var t := s.(queue := s.queue - multiset{Won(hash)}, voted := s.voted + {hash});
    SpentVote(s, hash);
    hide SlotInOrder, Accounts, AllSlots, DistinctHashes, OneVote;
    UntouchedIsGood(s, t);
  }

  lemma SpentVote(s: Sys, hash: Hash)
    requires Good(s) && Won(hash) in s.queue
    ensures OneVote(s.(queue := s.queue - multiset{Won(hash)}, voted := s.voted + {hash}))
  {
    var t := s.(queue := s.queue - multiset{Won(hash)}, voted := s.voted + {hash});
    UntouchedKnown(s, t);
    VoteMoved(s, t, hash);
  }

  /** A hash whose message is taken from the queue has voted from now on. */
  lemma VoteMoved(s: Sys, t: Sys, hash: Hash)
    requires OneVote(s) && s.queue[Won(hash)] == 1
    requires t.heartbeats == s.heartbeats && t.record == s.record && t.epoch == s.epoch
    requires forall h :: Known(t, h) <==> Known(s, h)
    requires forall h :: t.queue[Won(h)] == if h == hash then 0 else s.queue[Won(h)]
    requires forall h :: h in t.voted <==> h in s.voted || h == hash
    ensures OneVote(t)
  {
    hide Known;
  }

  // ----- Items -----------------------------------------------------------

  /** A slot that waits for admission has not been near a vote. */
  lemma NotVotedYet(s: Sys, id: nat)
    requires Good(s) && id < |s.slots| && Waiting(s, id)
    ensures var h := s.slots[id].hash;
            && !Known(s, h) && h !in s.record.commits && Won(h) !in s.queue && h !in s.voted
            && forall e :: e in s.heartbeats ==> h !in s.heartbeats[e]
  {
    var h := s.slots[id].hash;
    forall j | 0 <= j < |s.slots| && s.slots[j].hash == h ensures !s.slots[j].log.admitted {
      assert j == id;
    }
  }

  lemma AdmitIsGood(s: Sys, id: nat, certified: bool)
    requires Good(s) && Item(id) in s.queue && s.slots[id].state == UNDETERMINED
    ensures Good(Dispatch(s, Item(id), certified))
  {
    hide Dispatch, OneVote, Accounts, SlotInOrder, DistinctHashes, AllSlots;
    var t := Dispatch(s, Item(id), certified);
    AdmitMarks(s, id, certified);
    NotVotedYet(s, id);
    AccountsUntouched(s, t, id);
    if certified {
      AdmittedVote(s, t, id);
    } else {
      VoteUntouched(s, t, id);
    }
    GoodFromParts(s, t, id);
  }

  /** What admission, or its refusal, changes. */
  lemma AdmitMarks(s: Sys, id: nat, certified: bool)
    requires Good(s) && Item(id) in s.queue && s.slots[id].state == UNDETERMINED
    ensures Waiting(s, id)
    ensures var t := Dispatch(s, Item(id), certified);
            && OnlySlot(s, t, id) && SlotInOrder(t, id) && (forall h :: t.queue[Won(h)] == s.queue[Won(h)])
            && !s.slots[id].log.admitted && t.slots[id].log.admitted == certified
            && t.slots[id].task == s.slots[id].task && t.slots[id].process == s.slots[id].process
            && t.slots[id].log.counted == s.slots[id].log.counted
            && t.tasks == s.tasks && t.heartbeats == s.heartbeats && t.voted == s.voted && t.epoch == s.epoch
            && t.record.commits == (if certified then s.record.commits + {s.slots[id].hash} else s.record.commits)
            && forall h :: h in t.pending ==> t.pending[h] < |t.slots| && t.slots[t.pending[h]].hash == h
  {
    hide OneVote, Accounts;
    var t := Dispatch(s, Item(id), certified);
    assert SlotInOrder(s, id);
    assert InFlight(t, id) || Rejected(t, id);
  }

  lemma AdmittedVote(s: Sys, t: Sys, id: nat)
    requires OneVote(s) && OnlySlot(s, t, id) && t.slots[id].log.admitted
    requires var h := s.slots[id].hash;
      && h !in s.record.commits && Won(h) !in s.queue && h !in s.voted && (forall e :: e in s.heartbeats ==> h !in s.heartbeats[e])
      && t.record.commits == s.record.commits + {h}
    requires t.heartbeats == s.heartbeats && t.voted == s.voted && t.epoch == s.epoch
    requires forall h :: t.queue[Won(h)] == s.queue[Won(h)]
    ensures OneVote(t)
  {
    forall h | Known(s, h) ensures Known(t, h) {
      StillKnown(s, t, id, h);
    }
    assert Known(t, s.slots[id].hash);
  }

  lemma FinalizeIsGood(s: Sys, id: nat, certified: bool)
    requires Good(s) && Item(id) in s.queue && s.slots[id].state == FINALIZE
    ensures Good(Dispatch(s, Item(id), certified))
  {
    hide OneVote, Accounts, DistinctHashes;
    var t := Dispatch(s, Item(id), certified);
    assert SlotInOrder(s, id);
    assert Completed(s, id);
    assert OnlySlot(s, t, id);
    assert Completed(t, id);
    assert forall h :: t.queue[Won(h)] == s.queue[Won(h)];
    VoteUntouched(s, t, id);
    FinalizeAccounts(s, t, id);
    GoodFromParts(s, t, id);
  }

  lemma FinalizeAccounts(s: Sys, t: Sys, id: nat)
    requires Accounts(s) && OnlySlot(s, t, id) && s.slots[id].process >= 0
    requires t.slots[id].task == s.slots[id].task && t.slots[id].process == s.slots[id].process
    requires var x := s.slots[id];
      if x.task in s.tasks then
        && t.tasks == s.tasks[x.task := s.tasks[x.task].(size := Shrink(s.tasks[x.task].size, x.process),
                                                         history := s.tasks[x.task].history + x.process)]
        && t.slots[id].log.counted == x.log.counted + 1
      else t.tasks == s.tasks && t.slots[id].log.counted == x.log.counted
    ensures Accounts(t)
  {
    var x := s.slots[id];
    forall task | task in t.tasks ensures TaskInOrder(t, task) {
      assert TaskInOrder(s, task);
      CreditUpdate(s.slots, id, t.slots[id], task);
    }
    forall j | 0 <= j < |t.slots| && t.slots[j].task !in t.tasks ensures t.slots[j].log.counted == 0 {
      assert s.slots[j].task !in s.tasks;
    }
  }

  lemma AbortIsGood(s: Sys, id: nat, certified: bool)
    requires Good(s) && Item(id) in s.queue && s.slots[id].state == INVALID
    ensures Good(Dispatch(s, Item(id), certified))
  {
    hide OneVote, Accounts, DistinctHashes;
    var t := Dispatch(s, Item(id), certified);
    assert SlotInOrder(s, id);
    assert Expired(s, id);
    assert OnlySlot(s, t, id);
    assert Expired(t, id);
    assert forall h :: t.queue[Won(h)] == s.queue[Won(h)];
    VoteUntouched(s, t, id);
    AccountsUntouched(s, t, id);
    GoodFromParts(s, t, id);
  }

  /** Every step keeps the invariant. */
  lemma StepIsGood(s: Sys, ev: Event)
    requires Good(s) && Enabled(s, ev)
    ensures Good(Apply(s, ev))
  {
    hide Good, Dispatch, ReceiveProof, ExpireSlot, CountVotes, Tick, Submit, ExpireTask, InitTask, SlotInOrder;
    match ev
    case NewTask(task, total, reliable) => InitTaskIsGood(s, task, total, reliable);
    case TaskTimer(task) => ExpireTaskIsGood(s, task);
    case Commit(hash, task, process) => SubmitIsGood(s, hash, task, process);
    case Handle(m, certified) => HandleIsGood(s, m, certified);
    case NextEpoch => TickIsGood(s);
    case Votes(e, passing) => CountVotesIsGood(s, e, passing);
    case Proof(hash) => ReceiveProofIsGood(s, hash);
    case SlotTimer(id) => ExpireSlotIsGood(s, id);
  }

  lemma HandleIsGood(s: Sys, m: Message, certified: bool)
    requires Good(s) && m in s.queue
    ensures Good(Dispatch(s, m, certified))
  {
    match m
    case Won(hash) => WonIsGood(s, hash, certified);
    case Item(id) =>
      assert SlotInOrder(s, id);
      hide Dispatch, OneVote, Accounts;
      match s.slots[id].state
      case UNDETERMINED => AdmitIsGood(s, id, certified);
      case JUSTIFIED =>
      case FINALIZE => FinalizeIsGood(s, id, certified);
      case INVALID => AbortIsGood(s, id, certified);
  }
}
