/** What becomes of a packet given to Send, over every interleaving: when it must be accepted,
    when it may be refused, and what cancels the sender. */
module PacketFate {
  import opened PacketProtocol

  // --------------------------------------------------------------------- single steps

  /** An open sender with room in its channel takes the packet. */
  lemma RoomMeansAccepted(s: State, s': State, i: nat, p: Packet)
    requires i < |s.calls| && s.calls[i] == SendPut(p) && !s.cancelled && |s.ch| < s.capacity && Advance(s, s', i)
    ensures s'.ch == s.ch + [p] && s'.accepted == s.accepted + [p] && s'.dropped == s.dropped
    ensures s'.calls == s.calls[i := SendLook] && s'.handled == s.handled && !s'.cancelled
  {
  }

  /** A Send that finds the sender open goes on, and one that finds it cancelled drops its packet. */
  lemma FirstLook(s: State, s': State, i: nat, p: Packet)
    requires i < |s.calls| && s.calls[i] == SendCheck(p) && Advance(s, s', i)
    ensures s'.ch == s.ch && s'.accepted == s.accepted && s'.cancelled == s.cancelled
    ensures if s.cancelled then s'.calls[i].Returned? && s'.dropped == s.dropped + [p]
            else s'.calls[i] == SendPut(p) && s'.dropped == s.dropped
  {
  }

  /** Process, at an open sender, takes the oldest packet of the channel; it drops the packet it
      took, once, and waits again. */
  lemma ProcessTakesOldest(s: State, s': State, i: nat)
    requires i < |s.calls| && !s.cancelled && Advance(s, s', i)
    ensures s.calls[i].ProcessWait? ==>
              && s.ch != [] && s'.calls[i] == ProcessHold(s.ch[0]) && s'.ch == s.ch[1..]
              && s'.handled == s.handled + [s.ch[0]] && s'.dropped == s.dropped
    ensures s.calls[i].ProcessHold? ==>
              && s'.calls[i].ProcessWait? && s'.dropped == s.dropped + [s.calls[i].p]
              && s'.ch == s.ch && s'.handled == s.handled
  {
  }

  /** At an open sender the only call without a step is one that has returned, or a Process with
      nothing in the channel. */
  lemma OpenStuckExactly(s: State, i: nat)
    requires !s.cancelled && i < |s.calls|
    ensures (forall s' :: !Advance(s, s', i)) <==> s.calls[i].Returned? || (s.calls[i].ProcessWait? && s.ch == [])
  {
    var c := s.calls[i];
    if !c.Returned? && !(c.ProcessWait? && s.ch == []) {
      var s' := match c
        case SendCheck(p) => At(s, i, SendPut(p))
        case SendPut(p) =>
          if |s.ch| < s.capacity then At(s, i, SendLook).(ch := s.ch + [p], accepted := s.accepted + [p])
          else DropIt(s, i, p, Returned)
        case SendLook => At(s, i, Returned)
        case ProcessWait => At(s, i, ProcessHold(s.ch[0])).(ch := s.ch[1..], handled := s.handled + [s.ch[0]])
        case ProcessHold(p) => DropIt(s, i, p, ProcessWait)
        case CloseStart => At(s, i, Drain).(cancelled := true)
        case Drain => if s.ch == [] then At(s, i, Returned) else At(s, i, DrainHold(s.ch[0])).(ch := s.ch[1..])
        case DrainHold(p) => DropIt(s, i, p, Drain);
      assert Advance(s, s', i);
    }
  }

  // ---------------------------------------------------------------------- whole runs

  /** The step is a Send of x giving up because the channel of an open sender is full. */
  ghost predicate Refuses(s: State, s': State, x: Packet) {
    exists i :: RefusesAt(s, s', x, i)
  }

  predicate RefusesAt(s: State, s': State, x: Packet, i: int) {
    && 0 <= i < |s.calls| && s.calls[i] == SendPut(x) && !s.cancelled && |s.ch| >= s.capacity
    && s' == DropIt(s, i, x, Returned)
  }

  ghost function Refusals(t: seq<State>, x: Packet): nat {
    if |t| < 2 then 0
    else Refusals(t[..|t| - 1], x) + if Refuses(t[|t| - 2], t[|t| - 1], x) then 1 else 0
  }

  predicate Sending(c: Call, x: Packet) { (c.SendCheck? || c.SendPut?) && c.p == x }

  function InSend(calls: seq<Call>, x: Packet): nat {
    if calls == [] then 0 else InSend(calls[..|calls| - 1], x) + if Sending(calls[|calls| - 1], x) then 1 else 0
  }

  lemma {:induction false} InSendUpdate(calls: seq<Call>, i: nat, c: Call, x: Packet)
    requires i < |calls|
    ensures InSend(calls[i := c], x) ==
            InSend(calls, x) - (if Sending(calls[i], x) then 1 else 0) + (if Sending(c, x) then 1 else 0)
  {
    var n := |calls| - 1;
    if i < n {
      InSendUpdate(calls[..n], i, c, x);
      assert calls[i := c][..n] == calls[..n][i := c];
    } else {
      assert calls[i := c][..n] == calls[..n];
    }
  }

  /** A step that changes another call is no refusal by this one. */
  lemma RefusedByMover(s: State, s': State, i: nat, x: Packet)
    requires i < |s.calls| && Advance(s, s', i)
    ensures Refuses(s, s', x) <==> RefusesAt(s, s', x, i)
  {
    assert |s'.calls| == |s.calls| && s'.calls[i] != s.calls[i];
    forall j | RefusesAt(s, s', x, j) ensures j == i { }
  }

  lemma AdvanceFate(s: State, s': State, i: nat, x: Packet)
    requires i < |s.calls| && Advance(s, s', i) && !s'.cancelled && Drains(s)
    ensures s'.given == s.given
    ensures Count(s.accepted, x) + InSend(s.calls, x) ==
            Count(s'.accepted, x) + InSend(s'.calls, x) + if Refuses(s, s', x) then 1 else 0
  {
    RefusedByMover(s, s', i, x);
    InSendUpdate(s.calls, i, s'.calls[i], x);
    assert s'.calls == s.calls[i := s'.calls[i]];
    if s.calls[i].SendPut? { CountAppend(s.accepted, s.calls[i].p, x); }
  }

  lemma BeginFate(s: State, s': State, x: Packet)
    requires Begin(s, s')
    ensures s'.accepted == s.accepted && !Refuses(s, s', x) && s'.cancelled == s.cancelled
    ensures Count(s'.given, x) - InSend(s'.calls, x) == Count(s.given, x) - InSend(s.calls, x)
  {
    assert |s'.calls| == |s.calls| + 1;
    var c := s'.calls[|s.calls|];
    assert s'.calls[..|s.calls|] == s.calls;
    if c.SendCheck? { CountAppend(s.given, c.p, x); }
  }

  lemma {:induction false} CountConcat(a: seq<Packet>, b: seq<Packet>, x: Packet)
    ensures Count(a + b, x) == Count(a, x) + Count(b, x)
  {
    if b == [] {
      assert a + b == a;
    } else {
      CountConcat(a, b[..|b| - 1], x);
      assert (a + b)[..|a + b| - 1] == a + b[..|b| - 1];
    }
  }

  lemma {:induction false} GivenIsAccounted(t: seq<State>, capacity: nat, x: Packet)
    requires Run(t, capacity) && !t[|t| - 1].cancelled
    ensures var s := t[|t| - 1];
            Count(s.given, x) == Count(s.accepted, x) + InSend(s.calls, x) + Refusals(t, x)
  {
    if |t| > 1 {
      var u := t[..|t| - 1];
      var a, b := t[|t| - 2], t[|t| - 1];
      assert Next(t[|t| - 2], t[|t| - 2 + 1]);
      assert Run(u, capacity) && u[|u| - 1] == a;
      RunKeeps(u, capacity);
      if Begin(a, b) {
        BeginFate(a, b, x);
        GivenIsAccounted(u, capacity, x);
      } else {
        var i: nat :| i < |a.calls| && Advance(a, b, i);
        assert !a.cancelled;
        AdvanceFate(a, b, i, x);
        GivenIsAccounted(u, capacity, x);
      }
    }
  }

  /** In every run of an open sender, each packet given has been handled, is in the channel, is
      still with its Send, or was refused at a step where the channel was full. */
  lemma OpenLosesOnlyToFullChannel(t: seq<State>, capacity: nat, x: Packet)
    requires Run(t, capacity) && !t[|t| - 1].cancelled
    ensures var s := t[|t| - 1];
            Count(s.given, x) == Count(s.handled, x) + Count(s.ch, x) + InSend(s.calls, x) + Refusals(t, x)
  {
    GivenIsAccounted(t, capacity, x);
    OpenIsSequential(t, capacity);
    var s := t[|t| - 1];
    CountConcat(s.handled, s.ch, x);
  }

  // ------------------------------------------------------------------------- the cancel

  /** The step is a Close taking its first step. */
  ghost predicate Closes(s: State, s': State) {
    exists i :: 0 <= i < |s.calls| && i < |s'.calls| && s.calls[i].CloseStart? && !s'.calls[i].CloseStart?
  }

  /** The sender is cancelled if and only if some Close has begun to act, and it stays so. */
  lemma {:induction false} CancelledExactly(t: seq<State>, capacity: nat)
    requires Run(t, capacity)
    ensures t[|t| - 1].cancelled <==> exists k :: 0 <= k < |t| - 1 && Closes(t[k], t[k + 1])
  {
    if |t| > 1 {
      var u, n := t[..|t| - 1], |t| - 2;
      assert Next(t[n], t[n + 1]);
      assert Run(u, capacity);
      CancelledExactly(u, capacity);
      StepCancels(t[n], t[n + 1]);
      if t[n].cancelled {
        var k :| 0 <= k < |u| - 1 && Closes(u[k], u[k + 1]);
        assert Closes(t[k], t[k + 1]);
      } else {
        forall k | 0 <= k < n ensures !Closes(t[k], t[k + 1]) { assert t[k] == u[k] && t[k + 1] == u[k + 1]; }
      }
    }
  }

  lemma StepCancels(s: State, s': State)
    requires Next(s, s')
    ensures s'.cancelled <==> s.cancelled || Closes(s, s')
  {
    if Begin(s, s') {
      assert forall j :: 0 <= j < |s.calls| ==> s'.calls[j] == s.calls[j];
    } else {
      var i: nat :| i < |s.calls| && Advance(s, s', i);
      AdvanceCancels(s, s', i);
    }
  }

  lemma AdvanceCancels(s: State, s': State, i: nat)
    requires i < |s.calls| && Advance(s, s', i)
    ensures s'.cancelled <==> s.cancelled || Closes(s, s')
  {
    assert s'.calls == s.calls[i := s'.calls[i]];
    assert Closes(s, s') <==> s.calls[i].CloseStart?;
  }
}
