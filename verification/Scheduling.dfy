/** How a task is cut into slots: the monitor's advice, the rounds until nothing is left, and the
    names of the slots. */
module Scheduling {
  type TaskHash = string

  // ----- Advice ----------------------------------------------------------

  /** The size every node is given, before the remainder goes to the first. */
  function Share(size: nat, nodes: nat, slotSize: nat): (share: nat)
    requires nodes > 0 && slotSize > 0
    ensures 1 <= share <= slotSize
  {
    var even := size / nodes;
    if even > slotSize then slotSize else if even == 0 then 1 else even
  }

  function Sum(s: seq<nat>): nat {
    if s == [] then 0 else Sum(s[..|s| - 1]) + s[|s| - 1]
  }

  lemma {:induction false} SumOfEqual(s: seq<nat>, x: nat)
    requires forall i :: 0 <= i < |s| ==> s[i] == x
    ensures Sum(s) == |s| * x
  {
    if s != [] {
      var n := |s| - 1;
      SumOfEqual(s[..n], x);
      assert |s| * x == n * x + x;
    }
  }

  lemma {:induction false} SumUpdate(s: seq<nat>, i: nat, x: nat)
    requires i < |s|
    ensures Sum(s[i := x]) == Sum(s) - s[i] + x
  {
    var n := |s| - 1;
    if i < n {
      assert s[i := x][..n] == s[..n][i := x];
      SumUpdate(s[..n], i, x);
    } else {
      assert s[i := x][..n] == s[..n];
    }
  }

  /** What one schedule hands out in all. */
  function Total(size: nat, nodes: nat, slotSize: nat): (total: nat)
    requires nodes > 0 && slotSize > 0
  {
    nodes * Share(size, nodes, slotSize) + size % nodes
  }

  lemma SumWithRest(even: seq<nat>, share: nat, rest: nat)
    requires even != [] && forall i :: 0 <= i < |even| ==> even[i] == share
    ensures Sum(even[0 := even[0] + rest]) == |even| * share + rest
  {
    SumOfEqual(even, share);
    SumUpdate(even, 0, even[0] + rest);
  }

  /** advice: one size per node. */
  method Advice(size: nat, slotSize: nat, nodes: nat) returns (nodeIDs: seq<nat>, scheduleSize: seq<nat>)
    requires nodes > 0 && slotSize > 0
    ensures |nodeIDs| == |scheduleSize| == nodes && forall i :: 0 <= i < nodes ==> nodeIDs[i] == i
    ensures Sum(scheduleSize) == Total(size, nodes, slotSize)
    ensures forall i :: 0 < i < nodes ==> 1 <= scheduleSize[i] <= slotSize
    ensures scheduleSize[0] == Share(size, nodes, slotSize) + size % nodes
    ensures forall i :: 0 < i < nodes ==> scheduleSize[i] == Share(size, nodes, slotSize)
  {
    hide Sum;
    ghost var share := Share(size, nodes, slotSize);
    var ids := new nat[nodes](_ => 0);
    var sizes := new nat[nodes](_ => 0);
    var i := 0;
    while i < nodes
      invariant 0 <= i <= nodes
      invariant forall j :: 0 <= j < i ==> ids[j] == j && sizes[j] == share
    {
      ids[i] := i;
      var adviceSize := size / nodes;
      if adviceSize > slotSize {
        adviceSize := slotSize;
      }
      if adviceSize == 0 {
        adviceSize := 1;
      }
      assert adviceSize == share;
      sizes[i] := adviceSize;
      i := i + 1;
    }
    hide Share;
    ghost var even := sizes[..];
    SumWithRest(even, share, size % nodes);
    sizes[0] := sizes[0] + size % nodes;
    assert sizes[..] == even[0 := even[0] + size % nodes];
    nodeIDs, scheduleSize := ids[..], sizes[..];
  }

  // ----- Rounds ----------------------------------------------------------

  /** The totals scheduled round by round when every slot is finalized with its full size. */
  function Rounds(size: nat, nodes: nat, slotSize: nat): (rounds: seq<nat>)
    requires nodes > 0 && slotSize > 0
    decreases size
  {
    if size == 0 then []
    else
      var total := Total(size, nodes, slotSize);
      TotalIsPositive(size, nodes, slotSize);
      [total] + Rounds(if total >= size then 0 else size - total, nodes, slotSize)
  }

  lemma TotalIsPositive(size: nat, nodes: nat, slotSize: nat)
    requires nodes > 0 && slotSize > 0
    ensures Total(size, nodes, slotSize) > 0
  {
    var share := Share(size, nodes, slotSize);
    assert nodes * share >= 1 * share by {
      MulMonotone(1, nodes, share);
    }
  }

  lemma MulMonotone(a: nat, b: nat, c: nat)
    requires a <= b
    ensures a * c <= b * c
  {
  }

  /** Rounding up. */
  function CeilDiv(a: nat, b: nat): (c: nat)
    requires b > 0
    ensures (c == 0 <==> a == 0) && (c > 0 ==> (c - 1) * b < a) && a <= c * b
  {
    if a == 0 then 0 else (a - 1) / b + 1
  }

  lemma CeilDivIsLeast(a: nat, b: nat, c: nat)
    requires b > 0 && a <= c * b
    ensures CeilDiv(a, b) <= c
  {
    var d := CeilDiv(a, b);
    if d > c {
      MulMonotone(c, d - 1, b);
    }
  }

  lemma CeilDivStep(a: nat, b: nat)
    requires b > 0 && a > b
    ensures CeilDiv(a, b) == 1 + CeilDiv(a - b, b)
  {
    var c, d := CeilDiv(a - b, b), CeilDiv(a, b);
    assert (c + 1) * b == c * b + b;
    CeilDivIsLeast(a, b, c + 1);
    assert (d - 1) * b == d * b - b;
    CeilDivIsLeast(a - b, b, d - 1);
  }

  /** The rest after a full round is a multiple of the number of nodes. */
  lemma FullRound(size: nat, nodes: nat, slotSize: nat)
    requires nodes > 0 && slotSize > 0 && size / nodes > slotSize
    ensures var total := Total(size, nodes, slotSize);
            total < size && (size - total) / nodes == size / nodes - slotSize && (size - total) % nodes == 0 && size - total >= nodes
  {
    var q := size / nodes;
    assert size == nodes * q + size % nodes;
    assert nodes * q - nodes * slotSize == nodes * (q - slotSize);
    DivOfMultiple(q - slotSize, nodes);
    MulMonotone(1, q - slotSize, nodes);
  }

  lemma MulGrows(n: int, d: int)
    requires n > 0
    ensures (d >= 1 ==> n * d >= n) && (d <= -1 ==> n * d <= -n)
  {
  }

  lemma DivOfMultiple(k: nat, n: nat)
    requires n > 0
    ensures (n * k) / n == k && (n * k) % n == 0
  {
    var q, r := (n * k) / n, (n * k) % n;
    assert n * k == n * q + r;
    assert n * (k - q) == n * k - n * q == r;
    MulGrows(n, k - q);
  }

  /** The last round takes all that is left. */
  lemma LastRound(size: nat, nodes: nat, slotSize: nat)
    requires nodes > 0 && slotSize > 0 && size >= nodes && size / nodes <= slotSize
    ensures Rounds(size, nodes, slotSize) == [size] && CeilDiv(size / nodes, slotSize) == 1 && size / nodes > 0
  {
    assert size == nodes * (size / nodes) + size % nodes;
    assert Total(size, nodes, slotSize) == size;
    CeilDivIsLeast(size / nodes, slotSize, 1);
    assert Rounds(0, nodes, slotSize) == [];
  }

  lemma SumOfOne(x: nat)
    ensures Sum([x]) == x
  {
    assert [x][..0] == [];
  }

  /** A task with at least one unit per node is scheduled for exactly its size, in as many rounds as
      the even share takes slots. */
  lemma {:induction false} RoundsAreExact(size: nat, nodes: nat, slotSize: nat)
    requires nodes > 0 && slotSize > 0 && size >= nodes
    ensures Sum(Rounds(size, nodes, slotSize)) == size
    ensures |Rounds(size, nodes, slotSize)| == CeilDiv(size / nodes, slotSize)
    decreases size
  {
    hide CeilDiv, Total, Sum;
    var total := Total(size, nodes, slotSize);
    TotalIsPositive(size, nodes, slotSize);
    SumOfOne(size);
    SumOfOne(total);
    if size / nodes <= slotSize {
      LastRound(size, nodes, slotSize);
    } else {
      FullRound(size, nodes, slotSize);
      RoundsAreExact(size - total, nodes, slotSize);
      CeilDivStep(size / nodes, slotSize);
      SumConcat([total], Rounds(size - total, nodes, slotSize));
    }
  }

  lemma {:induction false} SumConcat(a: seq<nat>, b: seq<nat>)
    ensures Sum(a + b) == Sum(a) + Sum(b)
    decreases |b|
  {
    if b == [] {
      assert a + b == a;
    } else {
      SumConcat(a, b[..|b| - 1]);
      assert (a + b)[..|a + b| - 1] == a + b[..|b| - 1];
    }
  }

  /** That is no more rounds than slots of full size would need. */
  lemma RoundsAreBounded(size: nat, nodes: nat, slotSize: nat)
    requires nodes > 0 && slotSize > 0 && size >= nodes
    ensures nodes * slotSize > 0
    ensures |Rounds(size, nodes, slotSize)| <= CeilDiv(size, nodes * slotSize)
  {
    hide Rounds;
    RoundsAreExact(size, nodes, slotSize);
    MulMonotone(1, nodes, slotSize);
    var c := CeilDiv(size, nodes * slotSize);
    Reassociate(c, nodes, slotSize);
    DivBound(size, nodes, c * slotSize);
    CeilDivIsLeast(size / nodes, slotSize, c);
  }

  lemma Reassociate(a: nat, b: nat, c: nat)
    ensures a * (b * c) == b * (a * c)
  {
  }

  lemma DivBound(size: nat, n: nat, x: nat)
    requires n > 0 && size <= n * x
    ensures size / n <= x
  {
    var q := size / n;
    assert size == n * q + size % n;
    assert q >= x + 1 ==> n * q >= n * (x + 1) == n * x + n;
  }

  /** A smaller task takes one round, and each node is given one unit too many. */
  lemma SmallTask(size: nat, nodes: nat, slotSize: nat)
    requires slotSize > 0 && 0 < size < nodes
    ensures Rounds(size, nodes, slotSize) == [size + nodes]
  {
    assert size / nodes == 0 && size % nodes == size;
    assert Rounds(0, nodes, slotSize) == [];
  }

  // ----- Slot names ------------------------------------------------------

  predicate NoUnderscore(s: string) {
    forall i :: 0 <= i < |s| ==> s[i] != '_'
  }

  function Digit(d: nat): (c: char)
    requires d < 10
    ensures c != '_'
  {
    "0123456789"[d]
  }

  lemma DigitsDiffer(d: nat, e: nat)
    requires d < 10 && e < 10 && Digit(d) == Digit(e)
    ensures d == e
  {
  }

  /** The verb %d for a number that is not negative. */
  function Decimal(n: nat): (s: string)
    ensures s != [] && NoUnderscore(s)
  {
    if n < 10 then [Digit(n)] else Decimal(n / 10) + [Digit(n % 10)]
  }

  lemma {:induction false} DecimalInjective(a: nat, b: nat)
    requires Decimal(a) == Decimal(b)
    ensures a == b
  {
    var x, y := Decimal(a), Decimal(b);
    assert x[|x| - 1] == Digit(a % 10) && y[|y| - 1] == Digit(b % 10);
    DigitsDiffer(a % 10, b % 10);
    if a >= 10 && b >= 10 {
      assert Decimal(a / 10) == x[..|x| - 1] == y[..|y| - 1] == Decimal(b / 10);
      DecimalInjective(a / 10, b / 10);
    } else {
      assert a >= 10 ==> |x| > 1;
      assert b >= 10 ==> |y| > 1;
    }
  }

  /** The format "%s_%d_%d". */
  function SlotId(task: TaskHash, schedule: nat, node: nat): string {
    task + "_" + Decimal(schedule) + "_" + Decimal(node)
  }

  /** The number a decimal string writes. */
  function Number(s: string): nat {
    if s == [] then 0 else 10 * Number(s[..|s| - 1]) + DigitValue(s[|s| - 1])
  }

  function DigitValue(c: char): nat {
    if '0' <= c <= '9' then c as nat - '0' as nat else 0
  }

  lemma DigitReads(d: nat)
    requires d < 10
    ensures DigitValue(Digit(d)) == d && '0' <= Digit(d) <= '9'
  {
    assert "0123456789"[d] as nat == '0' as nat + d;
  }

  lemma {:induction false} DecimalReads(n: nat)
    ensures Number(Decimal(n)) == n && forall i :: 0 <= i < |Decimal(n)| ==> '0' <= Decimal(n)[i] <= '9'
    ensures Decimal(n)[0] == '0' ==> n == 0 && Decimal(n) == "0"
  {
    DigitReads(n % 10);
    if n < 10 {
      assert [Digit(n)][..0] == [] && Number([]) == 0;
    } else {
      DecimalReads(n / 10);
      assert Decimal(n)[..|Decimal(n)| - 1] == Decimal(n / 10);
    }
  }

  /** The name of a slot, read from left to right: the task, an underscore, the number of the schedule, an
      underscore, the number of the node. */
  lemma SlotIdReads(task: TaskHash, schedule: nat, node: nat)
    ensures var id, s, n := SlotId(task, schedule, node), Decimal(schedule), Decimal(node);
            && |id| == |task| + |s| + |n| + 2 && id[..|task|] == task && id[|task|] == '_'
            && Number(id[|task| + 1..|task| + 1 + |s|]) == schedule && id[|task| + 1 + |s|] == '_'
            && Number(id[|task| + |s| + 2..]) == node
  {
    DecimalReads(schedule);
    DecimalReads(node);
    Parts(task, Decimal(schedule), Decimal(node));
    hide Number, Decimal;
  }

  lemma Parts(a: string, b: string, c: string)
    ensures var s := a + "_" + b + "_" + c;
            && |s| == |a| + |b| + |c| + 2 && s[..|a|] == a && s[|a|] == '_'
            && s[|a| + 1..|a| + 1 + |b|] == b && s[|a| + 1 + |b|] == '_' && s[|a| + |b| + 2..] == c
  {
    var front := a + "_" + b;
    assert (front + "_" + c)[..|front|] == front && (front + "_" + c)[|front| + 1..] == c;
    assert front[|a| + 1..] == b;
  }

  lemma UnderscoreIsLast(a: string, b: string, i: nat)
    requires NoUnderscore(b) && i < |a + "_" + b|
    ensures i > |a| ==> (a + "_" + b)[i] != '_'
  {
    if i > |a| {
      assert (a + "_" + b)[i] == b[i - |a| - 1];
    }
  }

  lemma LastUnderscore(a: string, b: string, c: string, d: string)
    requires a + "_" + b == c + "_" + d && NoUnderscore(b) && NoUnderscore(d)
    ensures a == c && b == d
  {
    var s, t := a + "_" + b, c + "_" + d;
    assert s[|a|] == '_' && t[|c|] == '_';
    UnderscoreIsLast(a, b, |c|);
    UnderscoreIsLast(c, d, |a|);
    assert a == s[..|a|] && c == t[..|c|] && b == s[|a| + 1..] && d == t[|c| + 1..];
  }

  /** Names of different slots differ, whatever the task names look like. */
  lemma SlotIdInjective(t1: TaskHash, s1: nat, n1: nat, t2: TaskHash, s2: nat, n2: nat)
    requires SlotId(t1, s1, n1) == SlotId(t2, s2, n2)
    ensures t1 == t2 && s1 == s2 && n1 == n2
  {
    LastUnderscore(t1 + "_" + Decimal(s1), Decimal(n1), t2 + "_" + Decimal(s2), Decimal(n2));
    LastUnderscore(t1, Decimal(s1), t2, Decimal(s2));
    DecimalInjective(n1, n2);
    DecimalInjective(s1, s2);
  }

  datatype Slot = Slot(slotID: string, taskID: TaskHash, scheduleID: int, scheduleSize: nat)

  datatype Schedule = Schedule(taskID: TaskHash, scheduleID: int, slots: seq<Slot>, nodeIDMap: map<nat, nat>)

  class Scheduler {
    /** The number of the last schedule of each task. */
    var schedules: map<TaskHash, int>
    ghost var issued: set<string>

    ghost predicate Named(id: string)
      reads this
    {
      NamedBy(schedules, id)
    }

    ghost predicate Valid()
      reads this
    {
      (forall task :: task in schedules ==> schedules[task] >= 0) && forall id :: id in issued ==> Named(id)
    }

    constructor ()
      ensures Valid() && schedules == map[] && issued == {}
    {
      schedules, issued := map[], {};
    }

    /** generateSynthSchedule: the slots are named with the new number, the schedule with the one
        before (0 for the first). */
    method GenerateSynthSchedule(task: TaskHash, nIDs: seq<nat>, size: seq<nat>) returns (schedule: Schedule)
      requires Valid() && |nIDs| == |size| && forall i, j :: 0 <= i < j < |nIDs| ==> nIDs[i] != nIDs[j]
      modifies this
      ensures Valid()
      ensures var number := if task in old(schedules) then old(schedules)[task] + 1 else 0;
        && schedules == old(schedules)[task := number]
        && schedule.taskID == task && schedule.scheduleID == (if number == 0 then 0 else number - 1)
        && |schedule.slots| == |nIDs|
        && (forall i :: 0 <= i < |nIDs| ==>
              schedule.slots[i] == Slot(SlotId(task, number, nIDs[i]), task, schedule.scheduleID, size[i])
              && nIDs[i] in schedule.nodeIDMap && schedule.nodeIDMap[nIDs[i]] == i)
      ensures forall i :: 0 <= i < |nIDs| ==> schedule.slots[i].slotID !in old(issued)
      ensures forall i, j :: 0 <= i < j < |nIDs| ==> schedule.slots[i].slotID != schedule.slots[j].slotID
      ensures issued == old(issued) + set s | s in schedule.slots :: s.slotID
    {
      var scheduleIndex := if task in schedules then schedules[task] else 0;
      if task !in schedules {
        schedules := schedules[task := -1];
      }
      schedules := schedules[task := schedules[task] + 1];
      var number: nat := schedules[task];
      var slots, nodeIDMap := BuildSlots(task, scheduleIndex, number, nIDs, size);
      schedule := Schedule(task, scheduleIndex, slots, nodeIDMap);
      hide SlotId, NamedBy;
      NewNamesAreFresh(old(schedules), old(issued), task, number);
      NamesDiffer(task, number, nIDs);
      issued := issued + set s | s in slots :: s.slotID;
      NamesStayKnown(old(schedules), schedules, old(issued), task, number);
      NewNamesAreKnown(schedules, slots, task, number, nIDs);
    }
  }

  lemma NewNamesAreKnown(schedules: map<TaskHash, int>, slots: seq<Slot>, task: TaskHash, number: nat, nIDs: seq<nat>)
    requires task in schedules && schedules[task] == number && |slots| == |nIDs|
    requires forall i :: 0 <= i < |slots| ==> slots[i].slotID == SlotId(task, number, nIDs[i])
    ensures forall s :: s in slots ==> NamedBy(schedules, s.slotID)
  {
    hide SlotId;
    forall s | s in slots ensures NamedBy(schedules, s.slotID) {
      var i :| 0 <= i < |slots| && slots[i] == s;
      assert slots[i].slotID == SlotId(task, number, nIDs[i]);
    }
  }

  method BuildSlots(task: TaskHash, scheduleIndex: int, number: nat, nIDs: seq<nat>, size: seq<nat>)
    returns (slots: seq<Slot>, nodeIDMap: map<nat, nat>)
    requires |nIDs| == |size| && forall i, j :: 0 <= i < j < |nIDs| ==> nIDs[i] != nIDs[j]
    ensures |slots| == |nIDs|
    ensures forall i :: 0 <= i < |nIDs| ==> slots[i] == Slot(SlotId(task, number, nIDs[i]), task, scheduleIndex, size[i])
    ensures forall i :: 0 <= i < |nIDs| ==> nIDs[i] in nodeIDMap && nodeIDMap[nIDs[i]] == i
  {
    hide SlotId;
    slots, nodeIDMap := [], map[];
    var i := 0;
    while i < |nIDs|
      invariant 0 <= i <= |nIDs| && |slots| == i
      invariant forall j :: 0 <= j < i ==> slots[j] == Slot(SlotId(task, number, nIDs[j]), task, scheduleIndex, size[j])
      invariant forall j :: 0 <= j < i ==> nIDs[j] in nodeIDMap && nodeIDMap[nIDs[j]] == j
    {
      nodeIDMap := nodeIDMap[nIDs[i] := i];
      slots := slots + [Slot(SlotId(task, number, nIDs[i]), task, scheduleIndex, size[i])];
      i := i + 1;
    }
  }

  lemma NamesDiffer(task: TaskHash, number: nat, nIDs: seq<nat>)
    requires forall i, j :: 0 <= i < j < |nIDs| ==> nIDs[i] != nIDs[j]
    ensures forall i, j :: 0 <= i < j < |nIDs| ==> SlotId(task, number, nIDs[i]) != SlotId(task, number, nIDs[j])
  {
    hide SlotId;
    forall i, j | 0 <= i < j < |nIDs| ensures SlotId(task, number, nIDs[i]) != SlotId(task, number, nIDs[j]) {
      if SlotId(task, number, nIDs[i]) == SlotId(task, number, nIDs[j]) {
        SlotIdInjective(task, number, nIDs[i], task, number, nIDs[j]);
      }
    }
  }

  ghost predicate NamedBy(schedules: map<TaskHash, int>, id: string) {
    exists task, k: nat, n: nat :: task in schedules && k <= schedules[task] && id == SlotId(task, k, n)
  }

  lemma NamesStayKnown(before: map<TaskHash, int>, after: map<TaskHash, int>, issued: set<string>, task: TaskHash, number: nat)
    requires after == before[task := number] && (task in before ==> number > before[task])
    requires forall id :: id in issued ==> NamedBy(before, id)
    ensures forall id :: id in issued ==> NamedBy(after, id)
  {
    hide SlotId;
    forall id | id in issued ensures NamedBy(after, id) {
      var t, k: nat, n: nat :| t in before && k <= before[t] && id == SlotId(t, k, n);
      assert t in after && k <= after[t];
    }
  }

  /** Earlier names carry smaller numbers or other tasks. */
  lemma NewNamesAreFresh(schedules: map<TaskHash, int>, issued: set<string>, task: TaskHash, number: nat)
    requires task in schedules ==> number > schedules[task]
    requires forall id :: id in issued ==> NamedBy(schedules, id)
    ensures forall n: nat :: SlotId(task, number, n) !in issued
  {
    hide SlotId;
    forall n: nat ensures SlotId(task, number, n) !in issued {
      var id := SlotId(task, number, n);
      if id in issued {
        var t, k: nat, m: nat :| t in schedules && k <= schedules[t] && id == SlotId(t, k, m);
        SlotIdInjective(task, number, n, t, k, m);
      }
    }
  }

  /** The first two schedules of a task carry the same number; only the slots tell them apart. */
  method FirstTwoSchedulesShareNumber(task: TaskHash, nIDs: seq<nat>, size: seq<nat>) returns (first: Schedule, second: Schedule)
    requires |nIDs| == |size| > 0 && forall i, j :: 0 <= i < j < |nIDs| ==> nIDs[i] != nIDs[j]
    ensures first.scheduleID == second.scheduleID == 0 && |first.slots| == |second.slots| > 0
    ensures forall i, j :: 0 <= i < |first.slots| && 0 <= j < |second.slots| ==> first.slots[i].slotID != second.slots[j].slotID
  {
    var s := new Scheduler();
    first := s.GenerateSynthSchedule(task, nIDs, size);
    second := s.GenerateSynthSchedule(task, nIDs, size);
    assert forall i :: 0 <= i < |first.slots| ==> first.slots[i] in first.slots;
  }
}
