/**
 The order in which the bridge sends what it buffered
 (cmd/datawatch-channel/main.go), told by the buffer and the notifications alone.
 */
module ChannelOrder {
  import opened Basics
  import opened ChannelBridge

  /** The history of the buffer only grows, at its end. */
  lemma HistoryGrows(s: State, a: Action)
    ensures s.buffered <= Apply(s, a).buffered
  {
  }

  lemma {:induction false} HistoryGrowsRun(s: State, actions: seq<Action>)
    ensures s.buffered <= RunAll(s, actions).buffered
    decreases |actions|
  {
    hide Apply;
    if actions != [] {
      HistoryGrows(s, actions[0]);
      HistoryGrowsRun(Apply(s, actions[0]), actions[1..]);
    }
  }

  /** What is in the buffer is in its history; what no handler has decided on is not. */
  lemma HistoryKnows(s: State, t: Tid)
    requires Inv(s)
    ensures t in s.pending ==> t in s.buffered
    ensures !AcceptedIn(s, t) ==> t !in s.buffered
  {
    hide PlacesInv, SomeFlagged, Flushed, InFlight;
    if t in s.buffered {
      assert ThreadOk(s, t);
    }
  }

  lemma {:induction false} FlushedCount(sent: seq<Tid>, buffered: seq<Tid>, t: Tid)
    ensures Count(Flushed(sent, buffered), t) <= Count(sent, t)
  {
    if sent != [] {
      var front, last := sent[..|sent| - 1], sent[|sent| - 1];
      assert sent == front + [last];
      FlushedCount(front, buffered, t);
    }
  }

  /** No message is buffered twice, and one that was sent is neither in flight nor in the buffer. */
  lemma OnceInHistory(s: State, t: Tid)
    requires Inv(s)
    ensures Count(s.buffered, t) <= 1
    ensures t in s.sent ==> t !in s.pending && t !in InFlight(s)
  {
    assert Placed(s, t);
    FlushedCount(s.sent, s.buffered, t);
    hide LockInv, PlacesInv, Flushed, InFlight;
    CountConcat(Flushed(s.sent, s.buffered), InFlight(s), t);
    CountConcat(Flushed(s.sent, s.buffered) + InFlight(s), s.pending, t);
  }

  lemma TwoPositions(list: seq<Tid>, t: Tid, i: nat, j: nat)
    requires i < j < |list| && list[i] == t == list[j]
    ensures Count(list, t) >= 2
  {
    assert list == list[..i] + [t] + list[i + 1..j] + [t] + list[j + 1..];
  }

  lemma OnePosition(list: seq<Tid>, t: Tid, i: nat, j: nat)
    requires Count(list, t) <= 1 && i < |list| && j < |list| && list[i] == t == list[j]
    ensures i == j
  {
    if i < j {
      TwoPositions(list, t, i, j);
    } else if j < i {
      TwoPositions(list, t, j, i);
    }
  }

  /** Where the message sent at i stands among those that went through the buffer. */
  function Place(sent: seq<Tid>, buffered: seq<Tid>, i: nat): nat
    requires i <= |sent|
  {
    |Flushed(sent[..i], buffered)|
  }

  lemma {:induction false} FlushedPrefix(sent: seq<Tid>, buffered: seq<Tid>, i: nat)
    requires i <= |sent|
    ensures Flushed(sent[..i], buffered) <= Flushed(sent, buffered)
    decreases |sent| - i
  {
    if i == |sent| {
      assert sent[..i] == sent;
    } else {
      assert sent[..i + 1][..i] == sent[..i];
      FlushedPrefix(sent, buffered, i + 1);
    }
  }

  lemma FlushedAt(sent: seq<Tid>, buffered: seq<Tid>, i: nat)
    requires i < |sent| && sent[i] in buffered
    ensures Place(sent, buffered, i) < |Flushed(sent, buffered)|
    ensures Flushed(sent, buffered)[Place(sent, buffered, i)] == sent[i]
    ensures Place(sent, buffered, i) < Place(sent, buffered, i + 1)
  {
    assert sent[..i + 1][..i] == sent[..i];
    FlushedPrefix(sent, buffered, i + 1);
  }

  lemma PlacesRise(sent: seq<Tid>, buffered: seq<Tid>, i: nat, j: nat)
    requires i < j < |sent| && sent[i] in buffered && sent[j] in buffered
    ensures Place(sent, buffered, i) < Place(sent, buffered, j)
  {
    FlushedAt(sent, buffered, i);
    assert sent[..j][..i + 1] == sent[..i + 1];
    FlushedPrefix(sent[..j], buffered, i + 1);
  }

  /** The sent messages of the history stand in it in the order they were sent. */
  lemma SentInHistoryOrder(s: State, i: nat, j: nat)
    requires Inv(s) && i < j < |s.sent| && s.sent[i] in s.buffered && s.sent[j] in s.buffered
    ensures exists p, q :: 0 <= p < q < |s.buffered| && s.buffered[p] == s.sent[i] && s.buffered[q] == s.sent[j]
  {
    FlushedAt(s.sent, s.buffered, i);
    FlushedAt(s.sent, s.buffered, j);
    PlacesRise(s.sent, s.buffered, i, j);
    hide LockInv, PlacesInv, Flushed, InFlight;
    var flushed := Flushed(s.sent, s.buffered);
    assert flushed <= s.buffered by { Associate(flushed, InFlight(s), s.pending); }
    var p, q := Place(s.sent, s.buffered, i), Place(s.sent, s.buffered, j);
    assert s.buffered[p] == s.sent[i] && s.buffered[q] == s.sent[j];
  }

  lemma StartsOk()
    ensures Inv(INIT)
  {
  }

  /**
   In every run: if message x is in the buffer while the handler of y has not
   decided yet, and y is buffered later, then x is sent before y.
   */
  lemma ArrivalOrder(actions: seq<Action>, middle: seq<Action>, more: seq<Action>, x: Tid, y: Tid, i: nat, j: nat)
    requires x in RunAll(INIT, actions).pending && !AcceptedIn(RunAll(INIT, actions), y)
    requires y in RunAll(RunAll(INIT, actions), middle).pending
    requires var sent := RunAll(RunAll(RunAll(INIT, actions), middle), more).sent;
      i < |sent| && j < |sent| && sent[i] == x && sent[j] == y
    ensures i < j
  {
    hide *;
    StartsOk();
    var s1 := RunAll(INIT, actions);
    var s2 := RunAll(s1, middle);
    var s3 := RunAll(s2, more);
    RunKeepsInv(INIT, actions);
    RunKeepsInv(s1, middle);
    RunKeepsInv(s2, more);
    HistoryGrowsRun(s1, middle);
    HistoryGrowsRun(s2, more);
    HistoryKnows(s1, x);
    HistoryKnows(s1, y);
    HistoryKnows(s2, y);
    if j < i {
      OnceInHistory(s3, x);
      SentInHistoryOrder(s3, j, i);
      var p, q :| 0 <= p < q < |s3.buffered| && s3.buffered[p] == y && s3.buffered[q] == x;
      var k :| 0 <= k < |s1.buffered| && s1.buffered[k] == x;
      OnePosition(s3.buffered, x, k, q);
      assert false;
    }
  }
}
