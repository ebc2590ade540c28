/** Facts that agents share through one list of at most 500 entries, each entry remembering the
    agents it was handed to. */
module SharedFacts {
  import opened Sequences

  const MAX_FACTS: nat := 500

  datatype SharedFact = SharedFact(
    fromAgent: string, category: string, key: string, value: string, timestamp: int, receivedBy: seq<string>)

  /** A key and value to share, with the clock reading its entry will carry. */
  datatype NewFact = NewFact(key: string, value: string, now: int)

  function Entry(from: string, category: string, fact: NewFact): SharedFact {
    SharedFact(from, category, fact.key, fact.value, fact.now, [])
  }

  function Entries(from: string, category: string, facts: seq<NewFact>): seq<SharedFact> {
    seq(|facts|, i requires 0 <= i < |facts| => Entry(from, category, facts[i]))
  }

  predicate Unread(f: SharedFact, agent: string) {
    f.fromAgent != agent && agent !in f.receivedBy
  }

  function Marked(f: SharedFact, agent: string): SharedFact {
    if Unread(f, agent) then f.(receivedBy := f.receivedBy + [agent]) else f
  }

  function MarkedAll(all: seq<SharedFact>, agent: string): seq<SharedFact> {
    seq(|all|, i requires 0 <= i < |all| => Marked(all[i], agent))
  }

  /** The positions of the entries that `agent` has still to receive, in order. */
  function UnreadPositions(all: seq<SharedFact>, agent: string): (r: seq<nat>)
    ensures forall k :: 0 <= k < |r| ==> r[k] < |all| && Unread(all[r[k]], agent)
    ensures forall j, k :: 0 <= j < k < |r| ==> r[j] < r[k]
  {
    if all == [] then []
    else
      var n := |all| - 1;
      UnreadPositions(all[..n], agent) + if Unread(all[n], agent) then [n] else []
  }

  lemma {:induction false} UnreadPositionsMissNone(all: seq<SharedFact>, agent: string, i: nat)
    ensures i in UnreadPositions(all, agent) <==> i < |all| && Unread(all[i], agent)
  {
    hide Unread;
    if all != [] {
      UnreadPositionsMissNone(all[..|all| - 1], agent, i);
    }
  }

  /** What one poll hands over, in file order. */
  function HandedOver(all: seq<SharedFact>, agent: string): seq<SharedFact> {
    var unread := UnreadPositions(all, agent);
    seq(|unread|, k requires 0 <= k < |unread| => Marked(all[unread[k]], agent))
  }

  datatype Op = Share(from: string, category: string, facts: seq<NewFact>) | Receive(agent: string)

  function Step(all: seq<SharedFact>, op: Op): seq<SharedFact> {
    match op
    case Share(from, category, facts) => KeepLast(all + Entries(from, category, facts), MAX_FACTS)
    case Receive(agent) => MarkedAll(all, agent)
  }

  /** The shared file, rewritten as a whole by every call that changes it. */
  class SharedKnowledge {
    var all: seq<SharedFact>

    constructor ()
      ensures all == []
    {
      all := [];
    }

    method ShareKnowledge(from: string, category: string, facts: seq<NewFact>)
      modifies this
      ensures all == Step(old(all), Share(from, category, facts))
    {
      var existing := all;
      for i := 0 to |facts|
        invariant existing == all + Entries(from, category, facts[..i])
        invariant all == old(all)
      {
        assert Entries(from, category, facts[..i + 1])
            == Entries(from, category, facts[..i]) + [Entry(from, category, facts[i])];
        existing := existing + [Entry(from, category, facts[i])];
      }
      assert facts[..|facts|] == facts;
      if |existing| > MAX_FACTS {
        existing := existing[|existing| - MAX_FACTS..];
      }
      all := existing;
    }

    method ReceiveSharedKnowledge(agent: string) returns (newFacts: seq<SharedFact>)
      modifies this
      ensures all == Step(old(all), Receive(agent))
      ensures newFacts == HandedOver(old(all), agent)
    {
      var file := all;
      newFacts := [];
      assert all[..0] == [] && all[0..] == all;
      for i := 0 to |file|
        invariant |file| == |all| && all == old(all)
        invariant file == MarkedAll(all[..i], agent) + all[i..]
        invariant newFacts == HandedOver(all[..i], agent)
        invariant newFacts == [] ==> file == all
      {
        hide MarkedAll, HandedOver;
        var fact := file[i];
        MarkOne(all, i, agent);
        HandOverOne(all, i, agent);
        if fact.fromAgent != agent && agent !in fact.receivedBy {
          fact := fact.(receivedBy := fact.receivedBy + [agent]);
          file := file[i := fact];
          newFacts := newFacts + [fact];
        }
      }
      assert all[..|all|] == all;
      if newFacts != [] {
        all := file;
      }
    }
  }

  lemma MarkOne(all: seq<SharedFact>, i: nat, agent: string)
    requires i < |all|
    ensures var file := MarkedAll(all[..i], agent) + all[i..];
            file[i] == all[i] && file[i := Marked(all[i], agent)] == MarkedAll(all[..i + 1], agent) + all[i + 1..]
  {
    hide Marked;
  }

  lemma HandOverOne(all: seq<SharedFact>, i: nat, agent: string)
    requires i < |all|
    ensures HandedOver(all[..i + 1], agent)
         == HandedOver(all[..i], agent) + if Unread(all[i], agent) then [Marked(all[i], agent)] else []
  {
    assert all[..i + 1][..i] == all[..i];
  }

  // Runs

  /** The file after a run. */
  function File(ops: seq<Op>): seq<SharedFact> {
    if ops == [] then [] else Step(File(ops[..|ops| - 1]), ops[|ops| - 1])
  }

  /** Every fact ever posted, in posting order. */
  function Posted(ops: seq<Op>): seq<SharedFact> {
    if ops == [] then []
    else
      match ops[|ops| - 1]
      case Share(from, category, facts) => Posted(ops[..|ops| - 1]) + Entries(from, category, facts)
      case Receive(_) => Posted(ops[..|ops| - 1])
  }

  /** How many facts had been posted when `agent` last polled. */
  function Watermark(ops: seq<Op>, agent: string): nat {
    if ops == [] then 0
    else if ops[|ops| - 1] == Receive(agent) then |Posted(ops)|
    else Watermark(ops[..|ops| - 1], agent)
  }

  /** Everything `agent` has received, poll after poll. */
  function Received(ops: seq<Op>, agent: string): seq<SharedFact> {
    if ops == [] then []
    else
      var past := ops[..|ops| - 1];
      Received(past, agent) + if ops[|ops| - 1] == Receive(agent) then HandedOver(File(past), agent) else []
  }

  function ShiftedBy(s: seq<nat>, n: nat): seq<nat> {
    seq(|s|, k requires 0 <= k < |s| => s[k] + n)
  }

  /** The place in the posting order of everything `agent` has received. */
  function Receipts(ops: seq<Op>, agent: string): seq<nat> {
    if ops == [] then []
    else
      var past := ops[..|ops| - 1];
      var file := File(past);
      Receipts(past, agent)
      + if ops[|ops| - 1] == Receive(agent) && |file| <= |Posted(past)|
        then ShiftedBy(UnreadPositions(file, agent), |Posted(past)| - |file|)
        else []
  }

  /** The file is the last 500 posts; an entry is marked for an agent exactly when it is another
      agent's and had been posted when that agent last polled. */
  ghost predicate FileIsWindow(ops: seq<Op>) {
    var file, posted := File(ops), Posted(ops);
    && |file| == (if |posted| <= 500 then |posted| else 500)
    && (forall i :: 0 <= i < |file| ==> EntryIsPost(ops, i))
  }

  ghost predicate EntryIsPost(ops: seq<Op>, i: nat)
    requires i < |File(ops)|
  {
    var file, posted := File(ops), Posted(ops);
    var at := |posted| - |file| + i;
    && at >= 0
    && posted[at] == file[i].(receivedBy := [])
    && forall agent :: agent in file[i].receivedBy <==> file[i].fromAgent != agent && at < Watermark(ops, agent)
  }

  lemma {:induction false} WatermarkIsPast(ops: seq<Op>, agent: string)
    ensures Watermark(ops, agent) <= |Posted(ops)|
  {
    if ops != [] { WatermarkIsPast(ops[..|ops| - 1], agent); }
  }

  lemma SharingKeepsTheWindow(ops: seq<Op>)
    requires ops != [] && ops[|ops| - 1].Share? && FileIsWindow(ops[..|ops| - 1])
    ensures FileIsWindow(ops)
  {
    hide EntryIsPost, KeepLast;
    SharingUnfolds(ops);
    forall i | 0 <= i < |File(ops)|
      ensures EntryIsPost(ops, i)
    {
      SharingKeepsEntry(ops, i);
    }
  }

  /** Sharing appends to both the log and the file, and the file keeps its last 500. */
  lemma SharingUnfolds(ops: seq<Op>)
    requires ops != [] && ops[|ops| - 1].Share?
    ensures var past, op := ops[..|ops| - 1], ops[|ops| - 1];
            var added := Entries(op.from, op.category, op.facts);
            && Posted(ops) == Posted(past) + added
            && File(ops) == KeepLast(File(past) + added, MAX_FACTS)
            && |File(ops)| == (if |File(past) + added| <= MAX_FACTS then |File(past) + added| else MAX_FACTS)
            && forall agent :: Watermark(ops, agent) == Watermark(past, agent)
  {
  }

  lemma SharingKeepsEntry(ops: seq<Op>, i: nat)
    requires ops != [] && ops[|ops| - 1].Share? && FileIsWindow(ops[..|ops| - 1])
    requires i < |File(ops)|
    ensures EntryIsPost(ops, i)
  {
    hide File, Posted, Watermark, KeepLast, Entries;
    var past, op := ops[..|ops| - 1], ops[|ops| - 1];
    var added := Entries(op.from, op.category, op.facts);
    var file, posted := File(past), Posted(past);
    SharingUnfolds(ops);
    KeepLastAt(file + added, MAX_FACTS, i);
    var p := |file| + |added| - |File(ops)| + i;
    if p < |file| {
      assert EntryIsPost(past, p);
    } else {
      NewEntry(op, p - |file|);
      forall agent
        ensures Watermark(past, agent) <= |posted|
      {
        WatermarkIsPast(past, agent);
      }
    }
  }

  lemma KeepLastAt<T>(s: seq<T>, n: nat, i: nat)
    requires i < |KeepLast(s, n)|
    ensures |KeepLast(s, n)| <= |s| && KeepLast(s, n)[i] == s[|s| - |KeepLast(s, n)| + i]
  {
  }

  lemma NewEntry(op: Op, k: nat)
    requires op.Share? && k < |Entries(op.from, op.category, op.facts)|
    ensures Entries(op.from, op.category, op.facts)[k].receivedBy == []
  {
  }

  lemma PollingKeepsTheWindow(ops: seq<Op>)
    requires ops != [] && ops[|ops| - 1].Receive? && FileIsWindow(ops[..|ops| - 1])
    ensures FileIsWindow(ops)
  {
    var past, a := ops[..|ops| - 1], ops[|ops| - 1].agent;
    var file := File(past);
    assert Posted(ops) == Posted(past);
    assert File(ops) == MarkedAll(file, a);
    forall i | 0 <= i < |file|
      ensures EntryIsPost(ops, i)
    {
      assert EntryIsPost(past, i);
      assert File(ops)[i] == Marked(file[i], a);
      WatermarkIsPast(past, a);
    }
  }

  lemma {:induction false} FileIsAlwaysWindow(ops: seq<Op>)
    ensures FileIsWindow(ops)
  {
    if ops != [] {
      FileIsAlwaysWindow(ops[..|ops| - 1]);
      if ops[|ops| - 1].Share? { SharingKeepsTheWindow(ops); } else { PollingKeepsTheWindow(ops); }
    }
  }

  lemma ShiftedMembers(s: seq<nat>, n: nat, at: nat)
    ensures at in ShiftedBy(s, n) <==> at >= n && at - n in s
  {
    if at in ShiftedBy(s, n) {
      var k :| 0 <= k < |s| && ShiftedBy(s, n)[k] == at;
      assert s[k] == at - n;
    }
    if at >= n && at - n in s {
      var k :| 0 <= k < |s| && s[k] == at - n;
      assert ShiftedBy(s, n)[k] == at;
    }
  }

  /** What a poll right after `ops` hands over: the other agents' posts that are still in the
      file and were not yet posted at the previous poll. */
  lemma PollHandsOver(ops: seq<Op>, agent: string, at: nat)
    ensures |File(ops)| <= |Posted(ops)|
    ensures at in ShiftedBy(UnreadPositions(File(ops), agent), |Posted(ops)| - |File(ops)|)
       <==> && Watermark(ops, agent) <= at < |Posted(ops)| <= at + MAX_FACTS
            && Posted(ops)[at].fromAgent != agent
  {
    hide File, Posted, Watermark, UnreadPositions, ShiftedBy;
    FileIsAlwaysWindow(ops);
    var file, lo := File(ops), |Posted(ops)| - |File(ops)|;
    ShiftedMembers(UnreadPositions(file, agent), lo, at);
    if lo <= at {
      UnreadPositionsMissNone(file, agent, at - lo);
      if at < |Posted(ops)| {
        assert EntryIsPost(ops, at - lo);
      }
    }
  }

  /** At most once, in posting order, never one's own, and the very fact that was posted. */
  ghost predicate DeliveredOnceInOrder(ops: seq<Op>, agent: string) {
    && Watermark(ops, agent) <= |Posted(ops)|
    && OnceInOrder(Receipts(ops, agent), Received(ops, agent), Posted(ops), 0, Watermark(ops, agent), agent)
  }

  ghost predicate OnceInOrder(receipts: seq<nat>, received: seq<SharedFact>, posted: seq<SharedFact>,
                              from: nat, to: nat, agent: string)
    requires from <= to <= |posted|
  {
    && |received| == |receipts|
    && (forall j, k :: 0 <= j < k < |receipts| ==> receipts[j] < receipts[k])
    && (forall k :: 0 <= k < |receipts| ==>
          && from <= receipts[k] < to
          && received[k].(receivedBy := []) == posted[receipts[k]]
          && posted[receipts[k]].fromAgent != agent)
  }

  lemma OnceInOrderAppend(r1: seq<nat>, r2: seq<nat>, f1: seq<SharedFact>, f2: seq<SharedFact>,
                          posted: seq<SharedFact>, mid: nat, agent: string)
    requires mid <= |posted|
    requires OnceInOrder(r1, f1, posted, 0, mid, agent) && OnceInOrder(r2, f2, posted, mid, |posted|, agent)
    ensures OnceInOrder(r1 + r2, f1 + f2, posted, 0, |posted|, agent)
  {
  }

  lemma PollDeliversPosts(ops: seq<Op>, agent: string)
    ensures |File(ops)| <= |Posted(ops)|
    ensures var handed := HandedOver(File(ops), agent);
            var at := ShiftedBy(UnreadPositions(File(ops), agent), |Posted(ops)| - |File(ops)|);
            |handed| == |at|
            && forall k :: 0 <= k < |at| ==> at[k] < |Posted(ops)| && handed[k].(receivedBy := []) == Posted(ops)[at[k]]
  {
    hide File, Posted, Watermark, UnreadPositions;
    FileIsAlwaysWindow(ops);
    var unread := UnreadPositions(File(ops), agent);
    assert forall k :: 0 <= k < |unread| ==> EntryIsPost(ops, unread[k]);
  }

  lemma {:induction false} EachFactArrivesAtMostOnce(ops: seq<Op>, agent: string)
    ensures DeliveredOnceInOrder(ops, agent)
  {
    hide DeliveredOnceInOrder;
    if ops == [] {
      assert DeliveredOnceInOrder([], agent) by { NothingDelivered(agent); }
    } else {
      EachFactArrivesAtMostOnce(ops[..|ops| - 1], agent);
      if ops[|ops| - 1] == Receive(agent) { PollKeepsOrder(ops, agent); } else { OtherStepKeepsOrder(ops, agent); }
    }
  }

  lemma NothingDelivered(agent: string)
    ensures DeliveredOnceInOrder([], agent)
  {
  }

  lemma OtherStepKeepsOrder(ops: seq<Op>, agent: string)
    requires ops != [] && ops[|ops| - 1] != Receive(agent)
    requires DeliveredOnceInOrder(ops[..|ops| - 1], agent)
    ensures DeliveredOnceInOrder(ops, agent)
  {
    OtherStepUnfolds(ops, agent);
    hide File, Posted, Watermark, Receipts, Received;
    assert Posted(ops[..|ops| - 1]) <= Posted(ops);
  }

  lemma OtherStepUnfolds(ops: seq<Op>, agent: string)
    requires ops != [] && ops[|ops| - 1] != Receive(agent)
    ensures var past := ops[..|ops| - 1];
            && Receipts(ops, agent) == Receipts(past, agent) && Received(ops, agent) == Received(past, agent)
            && Watermark(ops, agent) == Watermark(past, agent) && Posted(past) <= Posted(ops)
  {
    hide File, HandedOver, UnreadPositions;
  }

  lemma PollKeepsOrder(ops: seq<Op>, agent: string)
    requires ops != [] && ops[|ops| - 1] == Receive(agent)
    requires DeliveredOnceInOrder(ops[..|ops| - 1], agent)
    ensures DeliveredOnceInOrder(ops, agent)
  {
    hide File, Posted, Watermark, Receipts, Received, HandedOver, UnreadPositions, ShiftedBy, OnceInOrder;
    var past := ops[..|ops| - 1];
    PollUnfolds(ops, agent);
    PollIsInOrder(past, agent);
    OnceInOrderAppend(
      Receipts(past, agent), ShiftedBy(UnreadPositions(File(past), agent), |Posted(past)| - |File(past)|),
      Received(past, agent), HandedOver(File(past), agent), Posted(past), Watermark(past, agent), agent);
  }

  lemma PollUnfolds(ops: seq<Op>, agent: string)
    requires ops != [] && ops[|ops| - 1] == Receive(agent)
    ensures var past := ops[..|ops| - 1];
            && |File(past)| <= |Posted(past)| == Watermark(ops, agent)
            && Posted(ops) == Posted(past)
            && Receipts(ops, agent) == Receipts(past, agent)
                 + ShiftedBy(UnreadPositions(File(past), agent), |Posted(past)| - |File(past)|)
            && Received(ops, agent) == Received(past, agent) + HandedOver(File(past), agent)
  {
    hide File, HandedOver, UnreadPositions, ShiftedBy;
    PollDeliversPosts(ops[..|ops| - 1], agent);
  }

  lemma PollIsInOrder(ops: seq<Op>, agent: string)
    ensures |File(ops)| <= |Posted(ops)| && Watermark(ops, agent) <= |Posted(ops)|
    ensures OnceInOrder(ShiftedBy(UnreadPositions(File(ops), agent), |Posted(ops)| - |File(ops)|),
                        HandedOver(File(ops), agent), Posted(ops), Watermark(ops, agent), |Posted(ops)|, agent)
  {
    hide File, HandedOver, Posted, Watermark;
    WatermarkIsPast(ops, agent);
    PollDeliversPosts(ops, agent);
    var at := ShiftedBy(UnreadPositions(File(ops), agent), |Posted(ops)| - |File(ops)|);
    assert forall j, k :: 0 <= j < k < |at| ==> at[j] < at[k];
    forall k | 0 <= k < |at|
      ensures Watermark(ops, agent) <= at[k] < |Posted(ops)| && Posted(ops)[at[k]].fromAgent != agent
    {
      assert at[k] in at;
      PollHandsOver(ops, agent, at[k]);
    }
  }

  /** `agent` polled when post `at` was one of the last 500. */
  ghost predicate PolledInTime(ops: seq<Op>, agent: string, at: nat) {
    exists j :: 0 <= j < |ops| && PollsInTime(ops, j, agent, at)
  }

  predicate PollsInTime(ops: seq<Op>, j: nat, agent: string, at: nat)
    requires j < |ops|
  {
    ops[j] == Receive(agent) && at < |Posted(ops[..j])| <= at + 500
  }

  lemma {:induction false} PostedGrows(ops: seq<Op>, j: nat)
    requires j <= |ops|
    ensures Posted(ops[..j]) <= Posted(ops)
  {
    if j < |ops| {
      var past := ops[..|ops| - 1];
      PostedGrows(past, j);
      assert past[..j] == ops[..j];
    } else {
      assert ops[..j] == ops;
    }
  }

  lemma PolledInTimeStep(ops: seq<Op>, agent: string, at: nat)
    requires ops != []
    ensures var past := ops[..|ops| - 1];
            PolledInTime(ops, agent, at) <==>
            PolledInTime(past, agent, at)
            || (ops[|ops| - 1] == Receive(agent) && at < |Posted(past)| <= at + MAX_FACTS)
  {
    hide Posted;
    var past := ops[..|ops| - 1];
    assert forall j :: 0 <= j < |past| ==> ops[..j] == past[..j] && ops[j] == past[j];
    if PolledInTime(past, agent, at) {
      var j :| 0 <= j < |past| && PollsInTime(past, j, agent, at);
      assert PollsInTime(ops, j, agent, at);
    }
    if PolledInTime(ops, agent, at) {
      var j :| 0 <= j < |ops| && PollsInTime(ops, j, agent, at);
      assert j < |past| ==> PollsInTime(past, j, agent, at);
    }
    if ops[|ops| - 1] == Receive(agent) && at < |Posted(past)| <= at + MAX_FACTS {
      assert PollsInTime(ops, |ops| - 1, agent, at);
    }
  }

  /** A post that is still among the last 500 was so at the poll that put it below the watermark. */
  lemma {:induction false} SeenByTheLastPoll(ops: seq<Op>, agent: string, at: nat)
    ensures at < Watermark(ops, agent) && |Posted(ops)| <= at + MAX_FACTS ==> PolledInTime(ops, agent, at)
  {
    hide PolledInTime;
    if ops != [] {
      var past := ops[..|ops| - 1];
      SeenByTheLastPoll(past, agent, at);
      PolledInTimeStep(ops, agent, at);
      assert |Posted(past)| <= |Posted(ops)|;
    }
  }

  /** The whole truth about delivery: a post arrives exactly when it is another agent's and some
      poll found it among the last 500. */
  lemma {:induction false} DeliveredExactlyWhen(ops: seq<Op>, agent: string, at: nat)
    requires at < |Posted(ops)|
    ensures at in Receipts(ops, agent) <==> Posted(ops)[at].fromAgent != agent && PolledInTime(ops, agent, at)
  {
    hide File, UnreadPositions, HandedOver, PolledInTime, Watermark, Receipts;
    var past := ops[..|ops| - 1];
    PolledInTimeStep(ops, agent, at);
    ReceiptsStep(ops, agent, at);
    WatermarkIsPast(past, agent);
    if at < |Posted(past)| {
      assert Posted(ops)[at] == Posted(past)[at];
      DeliveredExactlyWhen(past, agent, at);
      SeenByTheLastPoll(past, agent, at);
    } else {
      NothingFromTheFuture(past, agent, at);
    }
  }

  lemma ReceiptsStep(ops: seq<Op>, agent: string, at: nat)
    requires ops != []
    ensures var past := ops[..|ops| - 1];
            at in Receipts(ops, agent) <==>
            || at in Receipts(past, agent)
            || (&& ops[|ops| - 1] == Receive(agent)
                && Watermark(past, agent) <= at < |Posted(past)| <= at + MAX_FACTS
                && Posted(past)[at].fromAgent != agent)
  {
    hide File, UnreadPositions, Posted, Watermark, ShiftedBy;
    PollHandsOver(ops[..|ops| - 1], agent, at);
  }

  lemma NothingFromTheFuture(ops: seq<Op>, agent: string, at: nat)
    requires at >= |Posted(ops)|
    ensures at !in Receipts(ops, agent) && !PolledInTime(ops, agent, at)
  {
    hide File, UnreadPositions, HandedOver;
    EachFactArrivesAtMostOnce(ops, agent);
    forall j | 0 <= j < |ops|
      ensures !PollsInTime(ops, j, agent, at)
    {
      PostedGrows(ops, j);
    }
  }

  /** A post of another agent is missed only if 500 or more later posts arrived before the next
      poll, the one at step `next`; and then it is missed for good. */
  lemma MissedExactlyWhen(ops: seq<Op>, agent: string, at: nat, next: nat)
    requires next < |ops| && ops[next] == Receive(agent) && at < |Posted(ops[..next])|
    requires forall j :: 0 <= j < next && ops[j] == Receive(agent) ==> |Posted(ops[..j])| <= at
    requires at < |Posted(ops)| && Posted(ops)[at].fromAgent != agent
    ensures at !in Receipts(ops, agent) <==> |Posted(ops[..next])| - (at + 1) >= 500
  {
    hide File, UnreadPositions, HandedOver, Posted;
    DeliveredExactlyWhen(ops, agent, at);
    if |Posted(ops[..next])| <= at + MAX_FACTS {
      assert PollsInTime(ops, next, agent, at);
    } else {
      forall j | 0 <= j < |ops|
        ensures !PollsInTime(ops, j, agent, at)
      {
        if next <= j {
          PostedGrows(ops[..j], next);
          assert ops[..j][..next] == ops[..next];
        }
      }
    }
  }

  // What is posted, and what is handed over

  /** Sharing posts one fact for each key and value, in their order, with nobody marked yet. */
  lemma SharingPosts(ops: seq<Op>, from: string, category: string, facts: seq<NewFact>)
    ensures var before, after := Posted(ops), Posted(ops + [Share(from, category, facts)]);
            && |after| == |before| + |facts| && before <= after
            && forall i :: 0 <= i < |facts| ==>
                 && var f := after[|before| + i];
                 && f.fromAgent == from && f.category == category && f.key == facts[i].key
                 && f.value == facts[i].value && f.timestamp == facts[i].now && f.receivedBy == []
  {
    var all := ops + [Share(from, category, facts)];
    assert all[..|all| - 1] == ops;
  }

  /** A poll hands over each unread fact as it is in the file, with the poller marked last; that is also
      how the fact is in the file from then on, and no other changes. */
  lemma PollMarksWhatItHandsOver(all: seq<SharedFact>, agent: string)
    ensures var at, handed, after := UnreadPositions(all, agent), HandedOver(all, agent), Step(all, Receive(agent));
            && |handed| == |at| && |after| == |all|
            && (forall k :: 0 <= k < |at| ==>
                  && handed[k] == all[at[k]].(receivedBy := all[at[k]].receivedBy + [agent])
                  && after[at[k]] == handed[k])
            && (forall i: nat :: i < |all| && i !in at ==> after[i] == all[i])
  {
    forall i: nat | i < |all| && i !in UnreadPositions(all, agent)
      ensures Step(all, Receive(agent))[i] == all[i]
    {
      UnreadPositionsMissNone(all, agent, i);
    }
  }
}
