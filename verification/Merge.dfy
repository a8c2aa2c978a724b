/**
 * Merging two change sets: the cancellation of structural inverses in a flat stream, and the
 * conflict check that runs over an index of conflict signatures.
 */
module Merge {
  import opened Prelude
  import opened Operations

  // ---------------------------------------------------------------- structural inverses

  /** What a structural operation acts on: an element that is there or not, or a wrapper. */
  datatype Slot = Element(runtimeId: string) | Wrapper(runtimeId: string)

  datatype Side = Adds | Removes {
    function Other(): Side {
      if Adds? then Removes else Adds
    }
  }

  predicate StructuralInversePair(a: Payload, b: Payload) {
    match (a, b)
    case (InsertElement(_, e1, _, _, _, _), RemoveElement(_, e2, _, _, _, _)) => e1.runtimeId == e2.runtimeId
    case (RemoveElement(_, e1, _, _, _, _), InsertElement(_, e2, _, _, _, _)) => e1.runtimeId == e2.runtimeId
    case (DuplicateElement(_, _, d, _, _, _), RemoveElement(_, e, _, _, _, _)) => d.runtimeId == e.runtimeId
    case (RemoveElement(_, e, _, _, _, _), DuplicateElement(_, _, d, _, _, _)) => e.runtimeId == d.runtimeId
    case (WrapElements(_, _, w1, _, _), UnwrapElement(_, w2, _, _, _)) => w1.runtimeId == w2.runtimeId
    case (UnwrapElement(_, w1, _, _, _), WrapElements(_, _, w2, _, _)) => w1.runtimeId == w2.runtimeId
    case _ => false
  }

  function EffectOf(p: Payload): Option<(Slot, Side)> {
    match p
    case InsertElement(_, e, _, _, _, _) => Some((Element(e.runtimeId), Adds))
    case DuplicateElement(_, _, d, _, _, _) => Some((Element(d.runtimeId), Adds))
    case RemoveElement(_, e, _, _, _, _) => Some((Element(e.runtimeId), Removes))
    case WrapElements(_, _, w, _, _) => Some((Wrapper(w.runtimeId), Adds))
    case UnwrapElement(_, w, _, _, _) => Some((Wrapper(w.runtimeId), Removes))
    case _ => None
  }

  predicate Opposite(x: Option<(Slot, Side)>, y: Option<(Slot, Side)>) {
    x.Some? && y.Some? && x.value.0 == y.value.0 && x.value.1 == y.value.1.Other()
  }

  /** Two operations are structural inverses when they do opposite things to the same slot. */
  lemma InverseMeansOpposite(a: Payload, b: Payload)
    ensures StructuralInversePair(a, b) <==> Opposite(EffectOf(a), EffectOf(b))
  {
  }

  function Effect(op: Operation): Option<(Slot, Side)> {
    EffectOf(op.payload)
  }

  // ---------------------------------------------------------------- the net effect, without any pairing

  /** How many of the operations do `side` to `slot`. */
  function Count(ops: seq<Operation>, slot: Slot, side: Side): nat {
    if ops == [] then 0
    else (if Effect(ops[0]) == Some((slot, side)) then 1 else 0) + Count(ops[1..], slot, side)
  }

  /**
   * Does the first operation of `rest`, a suffix of `whole`, outlive the cancellation? It
   * does if it is not structural, or if it is among the last so many of its own side as
   * that side is ahead of the other.
   */
  predicate HeadSurvives(rest: seq<Operation>, whole: seq<Operation>)
    requires rest != []
  {
    match Effect(rest[0])
    case None => true
    case Some((slot, side)) =>
      Count(rest, slot, side) + Count(whole, slot, side.Other()) <= Count(whole, slot, side)
  }

  function Survivors(rest: seq<Operation>, whole: seq<Operation>): seq<Operation> {
    if rest == [] then []
    else (if HeadSurvives(rest, whole) then [rest[0]] else []) + Survivors(rest[1..], whole)
  }

  function NetEffect(ops: seq<Operation>): seq<Operation> {
    Survivors(ops, ops)
  }

  function Min(a: int, b: int): int {
    if a <= b then a else b
  }

  function Surplus(ops: seq<Operation>, slot: Slot, side: Side): nat {
    var d := Count(ops, slot, side) - Count(ops, slot, side.Other());
    if d > 0 then d else 0
  }

  lemma {:induction false} SurvivorCount(rest: seq<Operation>, whole: seq<Operation>, slot: Slot, side: Side)
    ensures Count(Survivors(rest, whole), slot, side) == Min(Count(rest, slot, side), Surplus(whole, slot, side))
  {
    hide Effect;
    if rest != [] {
      SurvivorCount(rest[1..], whole, slot, side);
      var tail := Survivors(rest[1..], whole);
      if HeadSurvives(rest, whole) {
        assert ([rest[0]] + tail)[1..] == tail;
      } else {
        assert [] + tail == tail;
      }
    }
  }

  lemma {:induction false} CountIsBounded(ops: seq<Operation>, i: nat, slot: Slot, side: Side)
    requires i <= |ops|
    ensures Count(ops[i..], slot, side) <= Count(ops, slot, side)
  {
    if i == 0 {
      assert ops[0..] == ops;
    } else {
      assert ops[1..][i - 1..] == ops[i..];
      CountIsBounded(ops[1..], i - 1, slot, side);
    }
  }

  /** Conservation: for every slot exactly the surplus of one side over the other is left, and nothing of the other side. */
  lemma NetEffectIsConserved(ops: seq<Operation>, slot: Slot)
    ensures var net := NetEffect(ops);
            && Count(net, slot, Adds) - Count(net, slot, Removes) == Count(ops, slot, Adds) - Count(ops, slot, Removes)
            && (Count(net, slot, Adds) == 0 || Count(net, slot, Removes) == 0)
  {
    SurvivorCount(ops, ops, slot, Adds);
    SurvivorCount(ops, ops, slot, Removes);
  }

  lemma {:induction false} PresentIsCounted(ops: seq<Operation>, op: Operation, slot: Slot, side: Side)
    requires op in ops && Effect(op) == Some((slot, side))
    ensures Count(ops, slot, side) > 0
  {
    hide Effect;
    if ops[0] != op {
      PresentIsCounted(ops[1..], op, slot, side);
    }
  }

  /** No two operations of the net effect are structural inverses, in whatever order they stand. */
  lemma NetEffectHasNoInverses(ops: seq<Operation>, a: Operation, b: Operation)
    requires a in NetEffect(ops) && b in NetEffect(ops)
    ensures !StructuralInversePair(a.payload, b.payload)
  {
    InverseMeansOpposite(a.payload, b.payload);
    if Opposite(Effect(a), Effect(b)) {
      var (slot, side) := Effect(a).value;
      PresentIsCounted(NetEffect(ops), a, slot, side);
      PresentIsCounted(NetEffect(ops), b, slot, side.Other());
      NetEffectIsConserved(ops, slot);
    }
  }

  lemma {:induction false} AllSurvive(rest: seq<Operation>, whole: seq<Operation>, i: nat)
    requires i <= |whole| && rest == whole[i..]
    requires forall slot :: Count(whole, slot, Adds) == 0 || Count(whole, slot, Removes) == 0
    ensures Survivors(rest, whole) == rest
    decreases |rest|
  {
    hide Effect;
    if rest != [] {
      match Effect(rest[0]) {
        case None =>
        case Some((slot, side)) =>
          assert rest[0] in whole;
          PresentIsCounted(whole, rest[0], slot, side);
          CountIsBounded(whole, i, slot, side);
      }
      AllSurvive(rest[1..], whole, i + 1);
      assert [rest[0]] + rest[1..] == rest;
    }
  }

  /** Cancelling the net effect again changes nothing. */
  lemma NetEffectIsIdempotent(ops: seq<Operation>)
    ensures NetEffect(NetEffect(ops)) == NetEffect(ops)
  {
    hide Survivors;
    var net := NetEffect(ops);
    forall slot
      ensures Count(net, slot, Adds) == 0 || Count(net, slot, Removes) == 0
    {
      NetEffectIsConserved(ops, slot);
    }
    assert net[0..] == net;
    AllSurvive(net, net, 0);
  }

  function Others(ops: seq<Operation>): seq<Operation> {
    if ops == [] then []
    else (if Effect(ops[0]).None? then [ops[0]] else []) + Others(ops[1..])
  }

  lemma {:induction false} OthersOfSurvivors(rest: seq<Operation>, whole: seq<Operation>)
    ensures Others(Survivors(rest, whole)) == Others(rest)
  {
    hide Effect;
    if rest != [] {
      OthersOfSurvivors(rest[1..], whole);
      var tail := Survivors(rest[1..], whole);
      if HeadSurvives(rest, whole) {
        assert ([rest[0]] + tail)[1..] == tail;
      } else {
        assert [] + tail == tail;
      }
    }
  }

  /** Operations that are not structural all stay, in their order. */
  lemma NetEffectKeepsOthers(ops: seq<Operation>)
    ensures Others(NetEffect(ops)) == Others(ops)
  {
    OthersOfSurvivors(ops, ops);
  }

  // ---------------------------------------------------------------- the greedy cancellation

  ghost predicate Inverses(ops: seq<Operation>, x: nat, y: nat)
    requires x < |ops| && y < |ops|
  {
    Opposite(Effect(ops[x]), Effect(ops[y]))
  }

  /** `partner` pairs up the cancelled positions perfectly, each with a structural inverse. */
  ghost predicate PairedUp(ops: seq<Operation>, cancelled: set<nat>, partner: map<nat, nat>) {
    && partner.Keys == cancelled
    && (forall k :: k in cancelled ==>
          k < |ops| && partner[k] in cancelled && partner[k] < |ops| && partner[partner[k]] == k && Inverses(ops, k, partner[k]))
  }

  /** Of operations with the same effect, the earlier ones are cancelled first. */
  ghost predicate EarlierFirst(ops: seq<Operation>, cancelled: set<nat>) {
    forall x: nat, y: nat :: x < y < |ops| && Effect(ops[x]) == Effect(ops[y]) && y in cancelled ==> x in cancelled
  }

  /** No position before `i` has an uncancelled inverse after it. */
  ghost predicate SettledBefore(ops: seq<Operation>, cancelled: set<nat>, i: nat) {
    forall x: nat, y: nat :: x < i && x < y < |ops| && x !in cancelled && y !in cancelled ==> !Inverses(ops, x, y)
  }

  /** How many cancelled positions from `i` on do `side` to `slot`. */
  ghost function Gone(ops: seq<Operation>, cancelled: set<nat>, i: nat, slot: Slot, side: Side): nat
    decreases |ops| - i
  {
    if i >= |ops| then 0
    else (if i in cancelled && Effect(ops[i]) == Some((slot, side)) then 1 else 0) + Gone(ops, cancelled, i + 1, slot, side)
  }

  ghost predicate EquallyGone(ops: seq<Operation>, cancelled: set<nat>) {
    forall slot :: Gone(ops, cancelled, 0, slot, Adds) == Gone(ops, cancelled, 0, slot, Removes)
  }

  ghost predicate Progress(ops: seq<Operation>, cancelled: set<nat>, partner: map<nat, nat>, i: nat) {
    && PairedUp(ops, cancelled, partner)
    && EarlierFirst(ops, cancelled)
    && SettledBefore(ops, cancelled, i)
    && EquallyGone(ops, cancelled)
  }

  lemma {:induction false} GoneOfOneMore(ops: seq<Operation>, cancelled: set<nat>, k: nat, i: nat, slot: Slot, side: Side)
    requires k !in cancelled && k < |ops|
    ensures Gone(ops, cancelled + {k}, i, slot, side)
         == Gone(ops, cancelled, i, slot, side) + if i <= k && Effect(ops[k]) == Some((slot, side)) then 1 else 0
    decreases |ops| - i
  {
    hide Effect;
    if i < |ops| {
      GoneOfOneMore(ops, cancelled, k, i + 1, slot, side);
    }
  }

  lemma PairKeepsEquallyGone(ops: seq<Operation>, cancelled: set<nat>, i: nat, j: nat)
    requires EquallyGone(ops, cancelled)
    requires i < j < |ops| && i !in cancelled && j !in cancelled && Inverses(ops, i, j)
    ensures EquallyGone(ops, cancelled + {i, j})
  {
    hide Effect;
    assert cancelled + {i} + {j} == cancelled + {i, j};
    forall slot
      ensures Gone(ops, cancelled + {i, j}, 0, slot, Adds) == Gone(ops, cancelled + {i, j}, 0, slot, Removes)
    {
      GoneOfOneMore(ops, cancelled, i, 0, slot, Adds);
      GoneOfOneMore(ops, cancelled, i, 0, slot, Removes);
      GoneOfOneMore(ops, cancelled + {i}, j, 0, slot, Adds);
      GoneOfOneMore(ops, cancelled + {i}, j, 0, slot, Removes);
    }
  }

  lemma PairKeepsEarlierFirst(ops: seq<Operation>, cancelled: set<nat>, i: nat, j: nat)
    requires EarlierFirst(ops, cancelled) && SettledBefore(ops, cancelled, i)
    requires i < j < |ops| && i !in cancelled && j !in cancelled && Inverses(ops, i, j)
    requires forall k: nat :: i < k < j && k !in cancelled ==> !Inverses(ops, i, k)
    ensures EarlierFirst(ops, cancelled + {i, j})
  {
    hide Effect;
    forall x: nat, y: nat | x < y < |ops| && Effect(ops[x]) == Effect(ops[y]) && y in cancelled + {i, j}
      ensures x in cancelled + {i, j}
    {
      if x < i {
        NoneOpposite(ops, cancelled, i, x, if y == i then j else i);
      }
    }
  }

  /** Before `i`, and against everything, at most one of two inverses is uncancelled. */
  lemma NoneOpposite(ops: seq<Operation>, cancelled: set<nat>, i: nat, x: nat, y: nat)
    requires SettledBefore(ops, cancelled, i) && x < |ops| && y < |ops|
    requires (x < i && x < y) || (y < i && y < x)
    ensures x in cancelled || y in cancelled || !Inverses(ops, x, y)
  {
    hide Effect;
    assert Inverses(ops, x, y) <==> Inverses(ops, y, x);
  }

  lemma PairStaysPairedUp(ops: seq<Operation>, cancelled: set<nat>, partner: map<nat, nat>, i: nat, j: nat)
    requires PairedUp(ops, cancelled, partner)
    requires i < j < |ops| && i !in cancelled && j !in cancelled && Inverses(ops, i, j)
    ensures PairedUp(ops, cancelled + {i, j}, partner[i := j][j := i])
  {
    hide Effect;
  }

  lemma CancelPair(ops: seq<Operation>, cancelled: set<nat>, partner: map<nat, nat>, i: nat, j: nat)
    requires Progress(ops, cancelled, partner, i)
    requires i < j < |ops| && i !in cancelled && j !in cancelled && Inverses(ops, i, j)
    requires forall k: nat :: i < k < j && k !in cancelled ==> !Inverses(ops, i, k)
    ensures Progress(ops, cancelled + {i, j}, partner[i := j][j := i], i + 1)
  {
    PairStaysPairedUp(ops, cancelled, partner, i, j);
    PairKeepsEarlierFirst(ops, cancelled, i, j);
    PairKeepsEquallyGone(ops, cancelled, i, j);
  }

  function Kept(ops: seq<Operation>, cancelled: set<nat>, i: nat): seq<Operation>
    decreases |ops| - i
  {
    if i >= |ops| then []
    else (if i !in cancelled then [ops[i]] else []) + Kept(ops, cancelled, i + 1)
  }

  /**
   * The greedy loop leaves exactly the net effect, and the dropped positions pair up
   * perfectly as structural inverses.
   */
  method MergeOperations(operations: seq<Operation>) returns (merged: seq<Operation>, ghost cancelled: set<nat>, ghost partner: map<nat, nat>)
    ensures merged == NetEffect(operations)
    ensures merged == Kept(operations, cancelled, 0)
    ensures PairedUp(operations, cancelled, partner)
  {
    hide Effect, EffectOf, StructuralInversePair, Opposite, Progress;
    var dropped: set<nat> := {};
    partner := map[];
    NothingCancelledYet(operations);
    var i := 0;
    while i < |operations|
      invariant 0 <= i <= |operations|
      invariant Progress(operations, dropped, partner, i)
    {
      if i in dropped {
        NothingToCancel(operations, dropped, partner, i);
        i := i + 1;
        continue;
      }
      var j := i + 1;
      var found := false;
      while j < |operations| && !found
        invariant i < j <= |operations|
        invariant found ==> j < |operations| && j !in dropped && Inverses(operations, i, j)
        invariant forall k: nat :: i < k < j && k !in dropped ==> !Inverses(operations, i, k)
        decreases |operations| - j, !found
      {
        InversesAt(operations, i, j);
        if j !in dropped && StructuralInversePair(operations[i].payload, operations[j].payload) {
          found := true;
        } else {
          j := j + 1;
        }
      }
      if found {
        CancelPair(operations, dropped, partner, i, j);
        dropped := dropped + {i, j};
        partner := partner[i := j][j := i];
      } else {
        NothingToCancel(operations, dropped, partner, i);
      }
      i := i + 1;
    }
    cancelled := dropped;
    SurvivorsAreKept(operations, dropped, partner, 0);
    assert operations[0..] == operations;
    merged := Kept(operations, dropped, 0);
  }

  lemma NothingToCancel(ops: seq<Operation>, cancelled: set<nat>, partner: map<nat, nat>, i: nat)
    requires Progress(ops, cancelled, partner, i)
    requires i in cancelled || forall k: nat :: i < k < |ops| && k !in cancelled ==> !Inverses(ops, i, k)
    ensures Progress(ops, cancelled, partner, i + 1) && PairedUp(ops, cancelled, partner)
  {
  }

  lemma InversesAt(ops: seq<Operation>, i: nat, j: nat)
    requires i < |ops| && j < |ops|
    ensures Inverses(ops, i, j) <==> StructuralInversePair(ops[i].payload, ops[j].payload)
  {
    InverseMeansOpposite(ops[i].payload, ops[j].payload);
  }

  lemma {:induction false} NothingGone(ops: seq<Operation>, i: nat, slot: Slot, side: Side)
    ensures Gone(ops, {}, i, slot, side) == 0
    decreases |ops| - i
  {
    hide Effect;
    if i < |ops| {
      NothingGone(ops, i + 1, slot, side);
    }
  }

  lemma NothingCancelledYet(ops: seq<Operation>)
    ensures Progress(ops, {}, map[], 0)
  {
    forall slot
      ensures Gone(ops, {}, 0, slot, Adds) == Gone(ops, {}, 0, slot, Removes)
    {
      NothingGone(ops, 0, slot, Adds);
      NothingGone(ops, 0, slot, Removes);
    }
  }

  // ---------------------------------------------------------------- greedy and net effect agree

  lemma {:induction false} GoneWithin(ops: seq<Operation>, cancelled: set<nat>, i: nat, slot: Slot, side: Side)
    requires i <= |ops|
    ensures Gone(ops, cancelled, i, slot, side) <= Count(ops[i..], slot, side)
    ensures (forall k: nat :: i <= k < |ops| && Effect(ops[k]) == Some((slot, side)) ==> k in cancelled)
            ==> Gone(ops, cancelled, i, slot, side) == Count(ops[i..], slot, side)
    ensures (forall k: nat :: i <= k < |ops| && Effect(ops[k]) == Some((slot, side)) ==> k !in cancelled)
            ==> Gone(ops, cancelled, i, slot, side) == 0
    decreases |ops| - i
  {
    hide Effect;
    if i < |ops| {
      assert ops[i..][1..] == ops[i + 1..];
      GoneWithin(ops, cancelled, i + 1, slot, side);
    }
  }

  /** When the cancelled ones all lie before `i`, or everything before `i` is cancelled, the counts add up. */
  lemma {:induction false} GoneBefore(ops: seq<Operation>, cancelled: set<nat>, from: nat, i: nat, slot: Slot, side: Side)
    requires from <= i <= |ops|
    ensures Gone(ops, cancelled, from, slot, side) + Count(ops[i..], slot, side)
         <= Count(ops[from..], slot, side) + Gone(ops, cancelled, i, slot, side)
    ensures (forall k: nat :: from <= k < i && Effect(ops[k]) == Some((slot, side)) ==> k in cancelled)
            ==> (Gone(ops, cancelled, from, slot, side) + Count(ops[i..], slot, side)
                 == Count(ops[from..], slot, side) + Gone(ops, cancelled, i, slot, side))
    decreases i - from
  {
    hide Effect;
    if from < i {
      assert ops[from..][1..] == ops[from + 1..];
      GoneBefore(ops, cancelled, from + 1, i, slot, side);
    }
  }

  lemma CancelledExactlyIfNotSurviving(ops: seq<Operation>, cancelled: set<nat>, partner: map<nat, nat>, i: nat)
    requires Progress(ops, cancelled, partner, |ops|) && i < |ops|
    ensures i !in cancelled <==> HeadSurvives(ops[i..], ops)
  {
    hide Effect, Count, Gone;
    match Effect(ops[i])
    case None =>
      CancelledHasEffect(ops, cancelled, partner, i);
    case Some((slot, side)) =>
      var other := side.Other();
      assert ops[0..] == ops && ops[i..][0] == ops[i];
      GoneWithin(ops, cancelled, 0, slot, other);
      GoneWithin(ops, cancelled, i, slot, side);
      GoneBefore(ops, cancelled, 0, i, slot, side);
      assert Gone(ops, cancelled, 0, slot, side) == Gone(ops, cancelled, 0, slot, other) by {
        assert Gone(ops, cancelled, 0, slot, Adds) == Gone(ops, cancelled, 0, slot, Removes);
      }
      if i !in cancelled {
        forall k: nat | k < |ops| && Effect(ops[k]) == Some((slot, other))
          ensures k in cancelled
        {
          NoneOpposite(ops, cancelled, |ops|, i, k);
        }
      } else {
        GoneAtLeastOne(ops, cancelled, i, slot, side);
      }
  }

  lemma CancelledHasEffect(ops: seq<Operation>, cancelled: set<nat>, partner: map<nat, nat>, i: nat)
    requires PairedUp(ops, cancelled, partner) && i < |ops|
    ensures i in cancelled ==> Effect(ops[i]).Some?
  {
    hide Effect;
    if i in cancelled {
      assert Inverses(ops, i, partner[i]);
    }
  }

  lemma GoneAtLeastOne(ops: seq<Operation>, cancelled: set<nat>, i: nat, slot: Slot, side: Side)
    requires i < |ops| && i in cancelled && Effect(ops[i]) == Some((slot, side))
    ensures Gone(ops, cancelled, i, slot, side) >= 1
  {
  }

  lemma {:induction false} SurvivorsAreKept(ops: seq<Operation>, cancelled: set<nat>, partner: map<nat, nat>, i: nat)
    requires Progress(ops, cancelled, partner, |ops|) && i <= |ops|
    ensures Kept(ops, cancelled, i) == Survivors(ops[i..], ops)
    ensures PairedUp(ops, cancelled, partner)
    decreases |ops| - i
  {
    hide HeadSurvives;
    if i < |ops| {
      CancelledExactlyIfNotSurviving(ops, cancelled, partner, i);
      assert ops[i..][1..] == ops[i + 1..];
      SurvivorsAreKept(ops, cancelled, partner, i + 1);
    }
  }
}
