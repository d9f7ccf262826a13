/** Tracker, epoch manager and vote handler as objects whose handlers update their fields step by step. */
module Tracking {
  import opened SlotLife
  import opened SlotRuns

  // ----- Votes -----------------------------------------------------------

  datatype Vote = Vote(hash: Hash, node: int, accept: bool, description: string)

  class SlotVote {
    const hash: Hash
    var total: nat
    var vote: nat
    var message: map<int, string>

    constructor (hash: Hash)
      ensures this.hash == hash && total == 0 && vote == 0 && message == map[]
    {
      this.hash := hash;
      total, vote, message := 0, 0, map[];
    }

    method Accept(id: int)
      modifies this
      ensures vote == old(vote) + 1 && total == old(total) + 1 && message == old(message)[id := "OK"]
    {
      vote := vote + 1;
      total := total + 1;
      message := message[id := "OK"];
    }

    method Reject(id: int, description: string)
      modifies this
      ensures vote == old(vote) && total == old(total) + 1 && message == old(message)[id := description]
    {
      total := total + 1;
      message := message[id := description];
    }

    predicate Check()
      reads this
    {
      2 * vote >= total
    }
  }

  /** Votes on a hash, and those in favour. */
  function Cast(votes: seq<Vote>, hash: Hash): nat {
    if votes == [] then 0
    else Cast(votes[..|votes| - 1], hash) + if votes[|votes| - 1].hash == hash then 1 else 0
  }

  function InFavour(votes: seq<Vote>, hash: Hash): nat {
    if votes == [] then 0
    else InFavour(votes[..|votes| - 1], hash) + if votes[|votes| - 1].hash == hash && votes[|votes| - 1].accept then 1 else 0
  }

  /** At least half of the votes are in favour; no votes at all are enough. */
  predicate Passes(votes: seq<Vote>, hash: Hash) {
    2 * InFavour(votes, hash) >= Cast(votes, hash)
  }

  function AllVotes(responses: seq<seq<Vote>>): seq<Vote> {
    if responses == [] then [] else AllVotes(responses[..|responses| - 1]) + responses[|responses| - 1]
  }

  lemma {:induction false} VotesConcat(a: seq<Vote>, b: seq<Vote>, hash: Hash)
    ensures Cast(a + b, hash) == Cast(a, hash) + Cast(b, hash)
    ensures InFavour(a + b, hash) == InFavour(a, hash) + InFavour(b, hash)
    decreases |b|
  {
    if b == [] {
      assert a + b == a;
    } else {
      VotesConcat(a, b[..|b| - 1], hash);
      assert (a + b)[..|a + b| - 1] == a + b[..|b| - 1];
    }
  }

  /** The votes for and against a hash, each counted by itself. */
  ghost function Ballots(votes: seq<Vote>, hash: Hash, accept: bool): set<nat> {
    set i: nat | i < |votes| && votes[i].hash == hash && votes[i].accept == accept
  }

  lemma {:induction false} VotesAreCounted(votes: seq<Vote>, hash: Hash)
    ensures InFavour(votes, hash) == |Ballots(votes, hash, true)|
    ensures Cast(votes, hash) == |Ballots(votes, hash, true)| + |Ballots(votes, hash, false)|
  {
    if votes != [] {
      var n := |votes| - 1;
      VotesAreCounted(votes[..n], hash);
      OneMoreVote(votes, hash, true);
      OneMoreVote(votes, hash, false);
    }
  }

  lemma OneMoreVote(votes: seq<Vote>, hash: Hash, accept: bool)
    requires votes != []
    ensures var n := |votes| - 1;
            |Ballots(votes, hash, accept)| == |Ballots(votes[..n], hash, accept)| + if votes[n].hash == hash && votes[n].accept == accept then 1 else 0
  {
    var n: nat := |votes| - 1;
    var before, after := Ballots(votes[..n], hash, accept), Ballots(votes, hash, accept);
    var here := votes[n].hash == hash && votes[n].accept == accept;
    forall i: nat ensures i in after <==> i in before || (here && i == n) {
      assert i < n ==> votes[..n][i] == votes[i];
    }
    assert n !in before;
    hide Ballots;
    assert after == if here then before + {n} else before;
  }

  /** A hash passes exactly when no more votes reject it than accept it. */
  lemma PassesUnlessRejected(votes: seq<Vote>, hash: Hash)
    ensures Passes(votes, hash) <==> |Ballots(votes, hash, false)| <= |Ballots(votes, hash, true)|
  {
    VotesAreCounted(votes, hash);
  }

  /** The order in which nodes answer does not matter. */
  lemma {:induction false} OrderDoesNotMatter(responses: seq<seq<Vote>>, i: nat, hash: Hash)
    requires i + 1 < |responses|
    ensures Passes(AllVotes(responses), hash)
       <==> Passes(AllVotes(responses[i := responses[i + 1]][i + 1 := responses[i]]), hash)
    decreases |responses|
  {
    var swapped := responses[i := responses[i + 1]][i + 1 := responses[i]];
    CountOfSwapped(responses, i, hash);
    assert Cast(AllVotes(responses), hash) == Cast(AllVotes(swapped), hash);
  }

  lemma {:induction false} CountOfSwapped(responses: seq<seq<Vote>>, i: nat, hash: Hash)
    requires i + 1 < |responses|
    ensures var swapped := responses[i := responses[i + 1]][i + 1 := responses[i]];
            && Cast(AllVotes(responses), hash) == Cast(AllVotes(swapped), hash)
            && InFavour(AllVotes(responses), hash) == InFavour(AllVotes(swapped), hash)
    decreases |responses|
  {
    var n := |responses| - 1;
    var swapped := responses[i := responses[i + 1]][i + 1 := responses[i]];
    VotesConcat(AllVotes(responses[..n]), responses[n], hash);
    VotesConcat(AllVotes(swapped[..n]), swapped[n], hash);
    if i + 1 < n {
      assert swapped[..n] == responses[..n][i := responses[i + 1]][i + 1 := responses[i]];
      CountOfSwapped(responses[..n], i, hash);
    } else {
      var first := responses[..i];
      assert responses[..n][..i] == first && swapped[..n][..i] == first;
      VotesConcat(AllVotes(first), responses[i], hash);
      VotesConcat(AllVotes(first), responses[n], hash);
      assert |responses[..n]| == i + 1 == |swapped[..n]|;
    }
  }

  class VoteHandler {
    var voteInstance: map<Hash, SlotVote>

    ghost predicate Valid()
      reads this, voteInstance.Values
    {
      forall h :: h in voteInstance ==> voteInstance[h].hash == h
    }

    /** The instances have counted exactly these votes. */
    ghost predicate Counted(votes: seq<Vote>)
      reads this, voteInstance.Values
    {
      Valid() && forall h :: h in voteInstance ==>
        voteInstance[h].total == Cast(votes, h) && voteInstance[h].vote == InFavour(votes, h)
    }

    /** NewVoteHandler: one instance per hash of the heartbeat. */
    constructor (commits: set<Hash>)
      ensures Counted([]) && voteInstance.Keys == commits && fresh(voteInstance.Values)
    {
      voteInstance := map[];
      new;
      var todo := commits;
      while todo != {}
        invariant todo <= commits && voteInstance.Keys == commits - todo
        invariant Counted([]) && forall h :: h in voteInstance ==> fresh(voteInstance[h])
      {
        var h :| h in todo;
        todo := todo - {h};
        var instance := new SlotVote(h);
        voteInstance := voteInstance[h := instance];
      }
    }

    /** One vote. */
    method Take(v: Vote, ghost before: seq<Vote>)
      requires Counted(before)
      modifies voteInstance.Values
      ensures voteInstance == old(voteInstance) && Counted(before + [v])
    {
      assert (before + [v])[..|before|] == before;
      if v.hash in voteInstance {
        var instance := voteInstance[v.hash];
        if v.accept {
          instance.Accept(v.node);
        } else {
          instance.Reject(v.node, v.description);
        }
      }
    }

    /** Process: counts all answers, then announces each hash of the heartbeat that passes, once. */
    method Process(responses: seq<seq<Vote>>) returns (accepts: seq<Hash>)
      requires Counted([])
      modifies voteInstance.Values
      ensures voteInstance == old(voteInstance)
      ensures forall i, j :: 0 <= i < j < |accepts| ==> accepts[i] != accepts[j]
      ensures forall h :: h in accepts <==> h in voteInstance && Passes(AllVotes(responses), h)
    {
      var r := 0;
      while r < |responses|
        invariant 0 <= r <= |responses| && voteInstance == old(voteInstance)
        invariant Counted(AllVotes(responses[..r]))
      {
        ghost var before := AllVotes(responses[..r]);
        var votes := responses[r];
        var i := 0;
        assert before + votes[..0] == before;
        while i < |votes|
          invariant 0 <= i <= |votes| && voteInstance == old(voteInstance)
          invariant Counted(before + votes[..i])
        {
          Take(votes[i], before + votes[..i]);
          assert before + votes[..i] + [votes[i]] == before + votes[..i + 1];
          i := i + 1;
        }
        assert votes[..i] == votes && responses[..r + 1][..r] == responses[..r];
        r := r + 1;
      }
      assert responses[..r] == responses;
      accepts := [];
      var todo := voteInstance.Keys;
      while todo != {}
        invariant todo <= voteInstance.Keys
        invariant forall i, j :: 0 <= i < j < |accepts| ==> accepts[i] != accepts[j]
        invariant forall h :: h in accepts <==> h in voteInstance && h !in todo && Passes(AllVotes(responses), h)
      {
        var h :| h in todo;
        todo := todo - {h};
        if voteInstance[h].Check() {
          accepts := accepts + [h];
        }
      }
    }
  }

  // ----- Tracker ---------------------------------------------------------

  class Tracker {
    /** The slots the source passes around by pointer. */
    var slots: seq<Slot>
    var taskTracks: map<TaskHash, TaskTrack>
    var pendingCommitSlot: map<Hash, nat>
    /** Slots handed to the eliminators and not yet back. */
    var timers: set<nat>
    /** Channels to the epoch manager and the scheduler. */
    var commitSlots: multiset<Message>
    var unprocessedTasks: seq<(TaskHash, int)>

    ghost predicate Matches(s: Sys)
      reads this
    {
      && slots == s.slots && taskTracks == s.tasks && pendingCommitSlot == s.pending
      && timers == s.timers && commitSlots == s.queue && unprocessedTasks == s.unprocessed
    }

    constructor ()
      ensures forall epoch :: Matches(Initial(epoch))
    {
      slots, taskTracks, pendingCommitSlot, timers := [], map[], map[], {};
      commitSlots, unprocessedTasks := multiset{}, [];
    }

    method InitTask(task: TaskHash, total: int, isReliable: bool, ghost s: Sys)
      requires Matches(s)
      modifies this
      ensures Matches(SlotLife.InitTask(s, task, total, isReliable))
    {
      var track := TaskTrack(total, total, 0, isReliable);
      taskTracks := taskTracks[task := track];
      unprocessedTasks := unprocessedTasks + [(task, track.size)];
    }

    method CheckIsReliable(task: TaskHash, ghost s: Sys) returns (reliable: bool)
      requires Matches(s)
      ensures reliable == IsReliable(s, task)
    {
      if task !in taskTracks {
        return false;
      }
      return taskTracks[task].isReliable;
    }

    method UpdateSlot(id: nat, ghost s: Sys)
      requires Matches(s) && id < |slots|
      modifies this
      ensures Matches(SlotLife.UpdateSlot(s, id))
    {
      var reliable := CheckIsReliable(slots[id].task, s);
      var track := slots[id].(hasProof := reliable, hasWon := false, isFinalized := false);
      slots := slots[id := track.(log := track.log.(admitted := true, reliable := reliable))];
      pendingCommitSlot := pendingCommitSlot[track.hash := id];
      timers := timers + {id};
    }

    /** Works on a copy of the track: the item behind it is shared, the flag is not. */
    method CheckFinalized(slot: Slot, ghost s: Sys)
      requires Matches(s) && slot.hash in pendingCommitSlot && pendingCommitSlot[slot.hash] < |slots|
      modifies this
      ensures Matches(SlotLife.CheckFinalized(s, s.pending[slot.hash]))
    {
      var id := pendingCommitSlot[slot.hash];
      if slots[id].Complete() {
        var item := slots[id].(state := UNDETERMINED, reason := NONE);
        item := item.(state := FINALIZE);
        var copy := slot.(isFinalized := true);
        slots := slots[id := item.(log := item.log.(finals := item.log.finals + 1))];
        commitSlots := commitSlots + multiset{Item(id)};
      }
    }

    method WonVote(hash: Hash, ghost s: Sys)
      requires Matches(s) && (hash in s.pending ==> s.pending[hash] < |s.slots| && s.slots[s.pending[hash]].hash == hash)
      modifies this
      ensures Matches(SlotLife.WonVote(s, hash))
    {
      if hash in pendingCommitSlot {
        var id := pendingCommitSlot[hash];
        if slots[id].isFinalized {
          return;
        }
        slots := slots[id := slots[id].(hasWon := true)];
        CheckFinalized(slots[id], s.(slots := slots));
      }
    }

    method ReceiveProof(hash: Hash, ghost s: Sys)
      requires Matches(s) && (hash in s.pending ==> s.pending[hash] < |s.slots| && s.slots[s.pending[hash]].hash == hash)
      modifies this
      ensures Matches(SlotLife.ReceiveProof(s, hash))
    {
      if hash in pendingCommitSlot {
        var id := pendingCommitSlot[hash];
        if slots[id].isFinalized {
          return;
        }
        var late := if slots[id].Complete() then 1 else 0;
        var log := slots[id].log.(proofs := slots[id].log.proofs + 1, lateProofs := slots[id].log.lateProofs + late);
        slots := slots[id := slots[id].(hasProof := true, log := log)];
        CheckFinalized(slots[id], s.(slots := slots));
      }
    }

    /** One item of CollectExpire: a slot. */
    method CollectExpiredSlot(id: nat, ghost s: Sys)
      requires Matches(s) && id < |slots|
      modifies this
      ensures Matches(ExpireSlot(s, id))
    {
      timers := timers - {id};
      var item := slots[id].(log := slots[id].log.(expired := true));
      if !item.Complete() {
        item := item.(state := INVALID, reason := EXPIRE_SLOT);
        item := item.(log := item.log.(invalids := item.log.invalids + 1));
        commitSlots := commitSlots + multiset{Item(id)};
      }
      slots := slots[id := item];
      pendingCommitSlot := pendingCommitSlot - {item.hash};
    }

    /** One item of CollectExpire: a task. */
    method CollectExpiredTask(task: TaskHash, ghost s: Sys)
      requires Matches(s) && task in taskTracks
      modifies this
      ensures Matches(ExpireTask(s, task))
    {
      if taskTracks[task].size <= 0 {
        return;
      }
      unprocessedTasks := unprocessedTasks + [(task, taskTracks[task].size)];
    }

    /** Commit of a finalized slot; an error for a task that is not known. */
    method Commit(slot: Slot) returns (err: bool)
      requires slot.state == FINALIZE
      modifies `taskTracks
      ensures err <==> slot.task !in old(taskTracks)
      ensures err ==> taskTracks == old(taskTracks)
      ensures !err ==> var t := old(taskTracks)[slot.task];
        taskTracks == old(taskTracks)[slot.task := t.(size := Shrink(t.size, slot.process), history := t.history + slot.process)]
    {
      if slot.task !in taskTracks {
        return true;
      }
      var track := taskTracks[slot.task];
      track := track.(size := track.size - slot.process);
      if track.size < 0 {
        track := track.(size := 0);
      }
      track := track.(history := track.history + slot.process);
      taskTracks := taskTracks[slot.task := track];
      return false;
    }
  }

  // ----- Epoch manager ---------------------------------------------------

  class EpochManager {
    const tracker: Tracker
    var currentEpoch: int
    var epochRecord: Record
    /** Heartbeats whose votes are not counted yet. */
    var heartbeats: map<int, set<Hash>>
    ghost var voted: set<Hash>

    ghost function State(): Sys
      reads this, tracker
    {
      Sys(tracker.slots, tracker.commitSlots, tracker.pendingCommitSlot, tracker.timers, tracker.taskTracks,
          tracker.unprocessedTasks, currentEpoch, epochRecord, heartbeats, voted)
    }

    constructor (epoch: int)
      ensures State() == Initial(epoch) && fresh(tracker)
    {
      tracker := new Tracker();
      currentEpoch := epoch;
      epochRecord := Record(epoch + 1, {}, {}, map[], 0);
      heartbeats, voted := map[], {};
    }

    /** A node's commit arrives. */
    method ReceiveCommit(hash: Hash, task: TaskHash, process: int)
      modifies tracker
      ensures State() == Submit(old(State()), hash, task, process)
      ensures old(Good(State()) && FreshHash(State(), hash)) && process >= 0 ==> Good(State())
    {
      var slot := Slot(hash, task, process, UNDETERMINED, NONE, 0, false, false, false, Log(false, false, 0, false, 0, 0, 0, 0, 0, 0));
      tracker.commitSlots := tracker.commitSlots + multiset{Item(|tracker.slots|)};
      tracker.slots := tracker.slots + [slot];
      if old(Good(State()) && FreshHash(State(), hash)) && process >= 0 {
        SubmitIsGood(old(State()), hash, task, process);
      }
    }

    /** One message of the dispatch loop. */
    method Handle(m: Message, certified: bool)
      requires Good(State()) && m in tracker.commitSlots
      modifies this, tracker
      ensures State() == Dispatch(old(State()), m, certified) && Good(State())
    {
      HandleIsGood(State(), m, certified);
      GoodLinks(State());
      hide Good;
      match m {
        case Won(hash) =>
          tracker.commitSlots := tracker.commitSlots - multiset{m};
          voted := voted + {hash};
          tracker.WonVote(hash, State());
        case Item(id) => HandleItem(id, certified);
      }
    }

    /** What the state of an item says to do with it. */
    method HandleItem(id: nat, certified: bool)
      requires Linked(State()) && PendingMatches(State()) && Item(id) in tracker.commitSlots
      modifies this, tracker
      ensures State() == Dispatch(old(State()), Item(id), certified)
    {
      hide Admit, Finalize, Abort;
      tracker.commitSlots := tracker.commitSlots - multiset{Item(id)};
      match tracker.slots[id].state {
        case UNDETERMINED => HandleCommit(id, certified);
        case JUSTIFIED => tracker.WonVote(tracker.slots[id].hash, State());
        case FINALIZE => HandleFinal(id);
        case INVALID => HandleInvalid(id);
      }
    }

    method HandleCommit(id: nat, certified: bool)
      requires id < |tracker.slots|
      modifies this, tracker
      ensures State() == Admit(old(State()), id, certified)
    {
      var slot := tracker.slots[id];
      if certified {
        tracker.UpdateSlot(id, State());
        epochRecord := epochRecord.(commits := epochRecord.commits + {slot.hash});
      } else {
        tracker.slots := tracker.slots[id := slot.(state := INVALID, reason := VERIFIED_FAILED)];
        epochRecord := epochRecord.(invalids := epochRecord.invalids[slot.hash := VERIFIED_FAILED]);
      }
    }

    method HandleFinal(id: nat)
      requires id < |tracker.slots|
      modifies this, tracker
      ensures State() == Finalize(old(State()), id)
    {
      var slot := tracker.slots[id].(epoch := currentEpoch, state := FINALIZE, reason := NONE);
      slot := slot.(log := slot.log.(finalsDone := slot.log.finalsDone + 1));
      tracker.slots := tracker.slots[id := slot];
      var err := tracker.Commit(slot);
      if err {
        return;
      }
      tracker.slots := tracker.slots[id := slot.(log := slot.log.(counted := slot.log.counted + 1))];
      epochRecord := epochRecord.(finalizes := epochRecord.finalizes + {slot.hash}, process := epochRecord.process + slot.process);
    }

    method HandleInvalid(id: nat)
      requires id < |tracker.slots|
      modifies this, tracker
      ensures State() == Abort(old(State()), id)
    {
      var slot := tracker.slots[id];
      epochRecord := epochRecord.(invalids := epochRecord.invalids[slot.hash := slot.reason]);
      tracker.slots := tracker.slots[id := slot.(log := slot.log.(invalidsDone := slot.log.invalidsDone + 1))];
    }

    /** UpdateEpoch: heartbeat, then a fresh record. */
    method UpdateEpoch()
      modifies this
      ensures State() == Tick(old(State())) && (old(Good(State())) ==> Good(State()))
    {
      if Good(State()) {
        TickIsGood(State());
      }
      currentEpoch := currentEpoch + 1;
      heartbeats := heartbeats[currentEpoch := epochRecord.commits];
      epochRecord := Record(epochRecord.id + 1, {}, {}, map[], 0);
    }

    /** The answers to one heartbeat are in: its votes are counted and the winners announced. */
    method CollectVotes(e: int, responses: seq<seq<Vote>>)
      requires e in heartbeats && Good(State())
      modifies this, tracker
      ensures Good(State())
      ensures var passing := set h | h in old(heartbeats)[e] && Passes(AllVotes(responses), h);
        State() == CountVotes(old(State()), e, passing)
    {
      ghost var s := State();
      ghost var passing := set h | h in heartbeats[e] && Passes(AllVotes(responses), h);
      CountVotesIsGood(s, e, passing);
      hide Good;
      var handler := new VoteHandler(heartbeats[e]);
      var accepts := handler.Process(responses);
      heartbeats := heartbeats - {e};
      Announce(accepts);
      assert Elements(accepts) == passing;
    }

    /** Whatever happens next; `responses` are the answers when votes are counted. */
    method Step(ev: Event, responses: seq<seq<Vote>>)
      requires Good(State()) && Enabled(State(), ev) && VotesFit(State(), ev, responses)
      modifies this, tracker
      ensures Linked(old(State())) && State() == Apply(old(State()), ev) && Good(State())
    {
      StepIsGood(State(), ev);
      GoodLinks(State());
      hide Good, Linked, PendingMatches, Dispatch, SlotLife.ReceiveProof, ExpireSlot, CountVotes, Tick, Submit, ExpireTask, SlotLife.InitTask, FreshHash;
      match ev {
        case Commit(hash, task, process) => ReceiveCommit(hash, task, process);
        case Handle(m, certified) => Handle(m, certified);
        case NextEpoch => UpdateEpoch();
        case Votes(e, _) => CollectVotes(e, responses);
        case _ => TrackerStep(ev);
      }
    }

    /** The events the tracker takes by itself. */
    method TrackerStep(ev: Event)
      requires ev.NewTask? || ev.TaskTimer? || ev.Proof? || ev.SlotTimer?
      requires Linked(State()) && PendingMatches(State()) && Possible(State(), ev)
      modifies tracker
      ensures State() == Apply(old(State()), ev)
    {
      match ev {
        case NewTask(task, total, reliable) => tracker.InitTask(task, total, reliable, State());
        case TaskTimer(task) => tracker.CollectExpiredTask(task, State());
        case Proof(hash) => tracker.ReceiveProof(hash, State());
        case SlotTimer(id) => tracker.CollectExpiredSlot(id, State());
      }
    }

    /** Any run of events, handled by these objects, ends in the state the protocol gives. */
    method Execute(evs: seq<Event>, responses: seq<seq<seq<Vote>>>, ghost epoch: int)
      requires State() == Initial(epoch) && Run(epoch, evs).Some? && |responses| == |evs|
      requires forall k :: 0 <= k < |evs| && Run(epoch, evs[..k]).Some? ==> VotesFit(Run(epoch, evs[..k]).value, evs[k], responses[k])
      modifies this, tracker
      ensures Run(epoch, evs) == Some(State()) && Good(State())
    {
      RunsBefore(epoch, evs, 0);
      RunIsGood(epoch, evs[..0]);
      hide Good, Apply, VotesFit, Enabled;
      var i := 0;
      while i < |evs|
        invariant 0 <= i <= |evs| && Run(epoch, evs[..i]) == Some(State()) && Good(State())
      {
        RunNext(epoch, evs, i);
        Step(evs[i], responses[i]);
        i := i + 1;
      }
      assert evs[..i] == evs;
    }

    /** One message per hash that passed. */
    method Announce(accepts: seq<Hash>)
      requires forall i, j :: 0 <= i < j < |accepts| ==> accepts[i] != accepts[j]
      modifies tracker`commitSlots
      ensures tracker.commitSlots == old(tracker.commitSlots) + Winners(Elements(accepts))
    {
      var i := 0;
      while i < |accepts|
        invariant 0 <= i <= |accepts|
        invariant tracker.commitSlots == old(tracker.commitSlots) + Winners(Elements(accepts[..i]))
      {
        assert accepts[..i + 1] == accepts[..i] + [accepts[i]];
        WinnersGrow(Elements(accepts[..i]), accepts[i]);
        assert Elements(accepts[..i + 1]) == Elements(accepts[..i]) + {accepts[i]};
        tracker.commitSlots := tracker.commitSlots + multiset{Won(accepts[i])};
        i := i + 1;
      }
      assert accepts[..i] == accepts;
    }
  }

  /** What the answers to a heartbeat are worth. */
  ghost predicate VotesFit(s: Sys, ev: Event, responses: seq<seq<Vote>>) {
    ev.Votes? && ev.epoch in s.heartbeats ==> ev.passing == set h | h in s.heartbeats[ev.epoch] && Passes(AllVotes(responses), h)
  }

  ghost function Elements(s: seq<Hash>): (r: set<Hash>)
    ensures forall h :: h in r <==> h in s
  {
    set h | h in s
  }

  lemma GoodLinks(s: Sys)
    requires Good(s)
    ensures Linked(s) && PendingMatches(s)
  {
  }

  lemma WinnersGrow(a: set<Hash>, h: Hash)
    requires h !in a
    ensures Winners(a + {h}) == Winners(a) + multiset{Won(h)}
  {
    assert (set x | x in a + {h} :: Won(x)) == (set x | x in a :: Won(x)) + {Won(h)};
  }
}
