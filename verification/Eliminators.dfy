/** The loop that holds timers until they are due: one out, one in, per turn. */
module Eliminators {
  datatype ExpireItem = ExpireItem(id: nat, time: int)

  datatype Option<T> = None | Some(value: T)

  /** One turn of the loop: the clock, and what the input channel has ready. */
  datatype Turn = Turn(now: int, arrival: Option<ExpireItem>)

  predicate Due(item: ExpireItem, now: int) {
    item.time <= now
  }

  function AtMostOne(item: Option<ExpireItem>): multiset<ExpireItem> {
    if item.Some? then multiset{item.value} else multiset{}
  }

  /** What left, turn by turn. */
  function Released(outs: seq<Option<ExpireItem>>): multiset<ExpireItem> {
    if outs == [] then multiset{} else Released(outs[..|outs| - 1]) + AtMostOne(outs[|outs| - 1])
  }

  function Arrived(turns: seq<Turn>): multiset<ExpireItem> {
    if turns == [] then multiset{} else Arrived(turns[..|turns| - 1]) + AtMostOne(turns[|turns| - 1].arrival)
  }

  /** What the heap holds when turn `i` begins: what it held at first and what arrived before that turn,
      less what left before it. */
  function Held(first: multiset<ExpireItem>, turns: seq<Turn>, outs: seq<Option<ExpireItem>>, i: nat): multiset<ExpireItem>
    requires i <= |turns| && i <= |outs|
  {
    first + Arrived(turns[..i]) - Released(outs[..i])
  }

  /** Something leaves in a turn exactly when something held is due by the clock of that turn; what leaves
      was held, is due, and nothing held has an earlier time. */
  ghost predicate RightRelease(held: multiset<ExpireItem>, now: int, out: Option<ExpireItem>) {
    && (out.Some? <==> exists x :: x in held && x.time <= now)
    && (out.Some? ==> out.value in held && out.value.time <= now && forall x :: x in held ==> out.value.time <= x.time)
  }

  ghost predicate RightRun(first: multiset<ExpireItem>, turns: seq<Turn>, outs: seq<Option<ExpireItem>>) {
    |outs| <= |turns| && forall i :: 0 <= i < |outs| ==> RightRelease(Held(first, turns, outs, i), turns[i].now, outs[i])
  }

  class Eliminator {
    /** The heap of the source, of which only "Pop takes an item with the least time" matters. */
    var expireHeap: multiset<ExpireItem>

    constructor ()
      ensures expireHeap == multiset{}
    {
      expireHeap := multiset{};
    }

    method Pop() returns (item: ExpireItem)
      requires expireHeap != multiset{}
      modifies this
      ensures item in old(expireHeap) && expireHeap == old(expireHeap) - multiset{item}
      ensures forall x :: x in old(expireHeap) ==> item.time <= x.time
    {
      item :| item in expireHeap;
      var seen := multiset{item};
      while seen != expireHeap
        invariant item in expireHeap && seen <= expireHeap
        invariant forall x :: x in seen ==> item.time <= x.time
        decreases |expireHeap| - |seen|
      {
        assert expireHeap - seen != multiset{} by {
          assert expireHeap == seen + (expireHeap - seen);
        }
        var x :| x in expireHeap - seen;
        assert expireHeap == seen + (expireHeap - seen);
        if x.time < item.time {
          item := x;
        }
        seen := seen + multiset{x};
      }
      expireHeap := expireHeap - multiset{item};
    }

    /** One turn: an item leaves exactly when one is due, and it is due. */
    method Step(turn: Turn) returns (out: Option<ExpireItem>)
      modifies this
      ensures RightRelease(old(expireHeap), turn.now, out)
      ensures expireHeap + AtMostOne(out) == old(expireHeap) + AtMostOne(turn.arrival)
    {
      out := None;
      ghost var before := expireHeap;
      if expireHeap != multiset{} {
        var item := Pop();
        assert before == expireHeap + multiset{item};
        if Due(item, turn.now) {
          out := Some(item);
        } else {
          expireHeap := expireHeap + multiset{item};
        }
      }
      if turn.arrival.Some? {
        expireHeap := expireHeap + multiset{turn.arrival.value};
      }
    }

    /** Any number of turns: what came in is what went out and what is still there, each item once; every
        turn releases what is due by its own clock, out of what was held when it began. */
    method Start(turns: seq<Turn>) returns (outs: seq<Option<ExpireItem>>)
      modifies this
      ensures |outs| == |turns| && RightRun(old(expireHeap), turns, outs)
      ensures Released(outs) + expireHeap == old(expireHeap) + Arrived(turns)
    {
      hide Released, Arrived, AtMostOne, RightRelease, RightRun;
      outs := [];
      Nothing(expireHeap, turns);
      assert turns[..0] == [];
      var i := 0;
      while i < |turns|
        invariant 0 <= i <= |turns| && |outs| == i
        invariant Released(outs) + expireHeap == old(expireHeap) + Arrived(turns[..i])
        invariant RightRun(old(expireHeap), turns, outs)
      {
        ghost var released, held := Released(outs), expireHeap;
        var out := Step(turns[i]);
        RunGrows(old(expireHeap), turns, outs, held, out);
        ReleasedNext(outs, out);
        outs := outs + [out];
        Balance(released, held, AtMostOne(out), expireHeap, AtMostOne(turns[i].arrival), old(expireHeap) + Arrived(turns[..i]));
        ArrivedNext(turns, i);
        Associate(old(expireHeap), Arrived(turns[..i]), AtMostOne(turns[i].arrival));
        i := i + 1;
      }
      assert turns[..i] == turns;
    }
  }

  // ----- Runs ------------------------------------------------------------

  lemma ArrivedNext(turns: seq<Turn>, i: nat)
    requires i < |turns|
    ensures Arrived(turns[..i + 1]) == Arrived(turns[..i]) + AtMostOne(turns[i].arrival)
  {
    assert turns[..i + 1][..i] == turns[..i];
  }

  lemma ReleasedNext(outs: seq<Option<ExpireItem>>, out: Option<ExpireItem>)
    ensures Released(outs + [out]) == Released(outs) + AtMostOne(out)
  {
    assert (outs + [out])[..|outs|] == outs;
  }

  lemma RunGrows(first: multiset<ExpireItem>, turns: seq<Turn>, outs: seq<Option<ExpireItem>>, held: multiset<ExpireItem>, out: Option<ExpireItem>)
    requires RightRun(first, turns, outs) && |outs| < |turns| && RightRelease(held, turns[|outs|].now, out)
    requires Released(outs) + held == first + Arrived(turns[..|outs|])
    ensures RightRun(first, turns, outs + [out])
  {
    hide RightRelease, Released, Arrived;
    var n, all := |outs|, outs + [out];
    forall i | 0 <= i <= n ensures Held(first, turns, all, i) == if i < n then Held(first, turns, outs, i) else held {
      assert all[..i] == outs[..i];
      if i == n {
        assert outs[..n] == outs;
        Difference(first + Arrived(turns[..n]), Released(outs), held);
      }
    }
  }

  lemma Difference(total: multiset<ExpireItem>, gone: multiset<ExpireItem>, held: multiset<ExpireItem>)
    requires gone + held == total
    ensures total - gone == held
  {
  }

  lemma Nothing(heap: multiset<ExpireItem>, turns: seq<Turn>)
    ensures Released([]) + heap == heap + Arrived([]) && RightRun(heap, turns, [])
  {
  }

  lemma Associate(a: multiset<ExpireItem>, b: multiset<ExpireItem>, c: multiset<ExpireItem>)
    ensures (a + b) + c == a + (b + c)
  {
  }

  lemma Balance(released: multiset<ExpireItem>, heap: multiset<ExpireItem>, out: multiset<ExpireItem>, heap': multiset<ExpireItem>,
      arrived: multiset<ExpireItem>, total: multiset<ExpireItem>)
    requires released + heap == total && heap' + out == heap + arrived
    ensures (released + out) + heap' == total + arrived
  {
    assert (released + out) + heap' == released + (heap' + out);
    assert released + (heap + arrived) == (released + heap) + arrived;
  }

  /** An item that came in once is out at most once, whatever the number of turns. */
  lemma AtMostOnce(first: multiset<ExpireItem>, turns: seq<Turn>, outs: seq<Option<ExpireItem>>, heap: multiset<ExpireItem>, item: ExpireItem)
    requires Released(outs) + heap == first + Arrived(turns)
    requires first[item] + Arrived(turns)[item] == 1
    ensures Released(outs)[item] <= 1 && (Released(outs)[item] == 1 <==> item !in heap)
    ensures forall i, j :: 0 <= i < j < |outs| && outs[i] == Some(item) ==> outs[j] != Some(item)
  {
    assert (Released(outs) + heap)[item] == 1;
    forall i, j | 0 <= i < j < |outs| && outs[i] == Some(item) ensures outs[j] != Some(item) {
      CountedTwice(outs, i, j, item);
    }
  }

  lemma LastCounts(outs: seq<Option<ExpireItem>>, item: ExpireItem)
    requires outs != []
    ensures Released(outs)[item] == Released(outs[..|outs| - 1])[item] + if outs[|outs| - 1] == Some(item) then 1 else 0
  {
  }

  lemma {:induction false} CountedTwice(outs: seq<Option<ExpireItem>>, i: nat, j: nat, item: ExpireItem)
    requires i < j < |outs|
    ensures outs[i] == outs[j] == Some(item) ==> Released(outs)[item] >= 2
  {
    hide Released;
    var n := |outs| - 1;
    LastCounts(outs, item);
    if j < n {
      CountedTwice(outs[..n], i, j, item);
    } else {
      CountedOnce(outs[..n], i, item);
    }
  }

  lemma {:induction false} CountedOnce(outs: seq<Option<ExpireItem>>, i: nat, item: ExpireItem)
    requires i < |outs|
    ensures outs[i] == Some(item) ==> Released(outs)[item] >= 1
  {
    hide Released;
    LastCounts(outs, item);
    if i < |outs| - 1 {
      CountedOnce(outs[..|outs| - 1], i, item);
    }
  }

  /** A timer that arrives in turn `a` leaves in a later turn only, and not before its time: an item the run
      releases in turn `i` was held at first or arrived in an earlier turn. */
  lemma LeavesAfterArrival(first: multiset<ExpireItem>, turns: seq<Turn>, outs: seq<Option<ExpireItem>>, i: nat)
    requires RightRun(first, turns, outs) && i < |outs| && outs[i].Some?
    ensures outs[i].value.time <= turns[i].now
    ensures outs[i].value in first || exists a :: 0 <= a < i && turns[a].arrival == outs[i]
  {
    var item := outs[i].value;
    assert item in Held(first, turns, outs, i);
    hide RightRun, Released;
    assert item in first + Arrived(turns[..i]);
    if item !in first {
      ArrivedSomewhere(turns[..i], item);
      var a :| 0 <= a < i && turns[..i][a].arrival == Some(item);
      assert turns[a].arrival == outs[i];
    }
  }

  lemma {:induction false} ArrivedSomewhere(turns: seq<Turn>, item: ExpireItem)
    requires item in Arrived(turns)
    ensures exists a :: 0 <= a < |turns| && turns[a].arrival == Some(item)
  {
    var n := |turns| - 1;
    if turns[n].arrival != Some(item) {
      ArrivedSomewhere(turns[..n], item);
      var a :| 0 <= a < n && turns[..n][a].arrival == Some(item);
      assert turns[a].arrival == Some(item);
    }
  }
}
