/** The Send/Process/Close protocol of the UDP packet sender (tunnel/connection.go): any
    number of calls, interleaved step by step, over one bounded channel and one cancel
    flag. A packet is named by a number; a call is a program counter. */
module PacketProtocol {

  type Packet = nat

  /** Where a call stands. The three kinds of call share the drain loop. */
  datatype Call =
    | SendCheck(p: Packet)   // Send: before the first look at the cancel flag
    | SendPut(p: Packet)     // Send: before the select that may enqueue
    | SendLook               // Send: enqueued, before the second look at the flag
    | ProcessWait            // Process: before its select
    | ProcessHold(p: Packet) // Process: a packet taken, Drop deferred
    | CloseStart             // Close: before cancel
    | Drain                  // dropAll: before its select
    | DrainHold(p: Packet)   // dropAll: a packet taken, not yet dropped
    | Returned

  datatype State = State(
    capacity: nat,
    cancelled: bool,
    ch: seq<Packet>,             // the channel, oldest first
    calls: seq<Call>,            // every call ever made
    given: seq<Packet>,          // packets handed to Send
    dropped: seq<Packet>,        // packets dropped, one entry per Drop
    accepted: seq<Packet>,       // packets that entered the channel, in order
    handled: seq<Packet>)        // packets Process took out, in order

  function Init(capacity: nat): State {
    State(capacity, false, [], [], [], [], [], [])
  }

  function At(s: State, i: nat, c: Call): State
    requires i < |s.calls|
  {
    s.(calls := s.calls[i := c])
  }

  function DropIt(s: State, i: nat, p: Packet, c: Call): State
    requires i < |s.calls|
  {
    At(s, i, c).(dropped := s.dropped + [p])
  }

  // ------------------------------------------------------------------------ the steps

  /** A new call begins. Packets given to Send may repeat; the laws count them. */
  ghost predicate Begin(s: State, s': State) {
    || (exists p: Packet :: s' == s.(calls := s.calls + [SendCheck(p)], given := s.given + [p]))
    || s' == s.(calls := s.calls + [ProcessWait])
    || s' == s.(calls := s.calls + [CloseStart])
  }

  /** The i-th call takes its next step. A select whose cases are ready picks any ready
      one; its default is taken only when none is. */
  ghost predicate Advance(s: State, s': State, i: nat)
    requires i < |s.calls|
  {
    match s.calls[i]
    case SendCheck(p) =>
      if s.cancelled then s' == DropIt(s, i, p, Returned) else s' == At(s, i, SendPut(p))
    case SendPut(p) =>
      || (|s.ch| < s.capacity && s' == At(s, i, SendLook).(ch := s.ch + [p], accepted := s.accepted + [p]))
      || (s.cancelled && s' == DropIt(s, i, p, Returned))
      || (|s.ch| >= s.capacity && !s.cancelled && s' == DropIt(s, i, p, Returned))
    case SendLook =>
      s' == At(s, i, if s.cancelled then Drain else Returned)
    case ProcessWait =>
      || (s.cancelled && s' == At(s, i, Drain))
      || (s.ch != [] && s' == At(s, i, ProcessHold(s.ch[0])).(ch := s.ch[1..], handled := s.handled + [s.ch[0]]))
    case ProcessHold(p) =>
      s' == DropIt(s, i, p, ProcessWait)
    case CloseStart =>
      s' == At(s, i, Drain).(cancelled := true)
    case Drain =>
      if s.ch == [] then s' == At(s, i, Returned)
      else s' == At(s, i, DrainHold(s.ch[0])).(ch := s.ch[1..])
    case DrainHold(p) =>
      s' == DropIt(s, i, p, Drain)
    case Returned => false
  }

  /** Some call already made takes a step. */
  ghost predicate Moves(s: State, s': State) {
    exists i: nat :: i < |s.calls| && Advance(s, s', i)
  }

  ghost predicate Next(s: State, s': State) {
    Begin(s, s') || Moves(s, s')
  }

  /** A run: any number of steps from the empty sender. */
  ghost predicate Run(t: seq<State>, capacity: nat) {
    && t != [] && t[0] == Init(capacity)
    && forall i :: 0 <= i < |t| - 1 ==> Next(t[i], t[i + 1])
  }

  // ---------------------------------------------------------------------- the invariant

  function Count(ps: seq<Packet>, x: Packet): nat {
    if ps == [] then 0 else Count(ps[..|ps| - 1], x) + (if ps[|ps| - 1] == x then 1 else 0)
  }

  function HeldBy(c: Call, x: Packet): nat {
    if (c.SendCheck? || c.SendPut? || c.ProcessHold? || c.DrainHold?) && c.p == x then 1 else 0
  }

  function Held(calls: seq<Call>, x: Packet): nat {
    if calls == [] then 0 else Held(calls[..|calls| - 1], x) + HeldBy(calls[|calls| - 1], x)
  }

  /** Every copy of x ever given is dropped, in the channel, or held by one call. */
  predicate Balanced(s: State, x: Packet) {
    Count(s.given, x) == Count(s.dropped, x) + Count(s.ch, x) + Held(s.calls, x)
  }

  /** A call that will still look at the channel after a cancel. */
  predicate Owes(c: Call) { c.SendLook? || c.Drain? || c.DrainHold? }

  ghost predicate SomeoneOwes(calls: seq<Call>) {
    exists i :: 0 <= i < |calls| && Owes(calls[i])
  }

  /** After a cancel a non-empty channel is somebody's to drain. */
  ghost predicate Owed(s: State) {
    s.cancelled && s.ch != [] ==> SomeoneOwes(s.calls)
  }

  /** Only a cancelled sender is drained. */
  ghost predicate Drains(s: State) {
    forall i :: 0 <= i < |s.calls| && (s.calls[i].Drain? || s.calls[i].DrainHold?) ==> s.cancelled
  }

  /** While open, what Process took is what was accepted first, in order. */
  predicate Ordered(s: State) {
    !s.cancelled ==> s.accepted == s.handled + s.ch
  }

  ghost predicate Inv(s: State) {
    && (forall x :: Balanced(s, x))
    && |s.ch| <= s.capacity && Owed(s) && Drains(s) && Ordered(s)
  }

  lemma {:induction false} HeldUpdate(calls: seq<Call>, i: nat, c: Call, x: Packet)
    requires i < |calls|
    ensures Held(calls[i := c], x) == Held(calls, x) - HeldBy(calls[i], x) + HeldBy(c, x)
  {
    var n := |calls| - 1;
    if i < n {
      HeldUpdate(calls[..n], i, c, x);
      assert calls[i := c][..n] == calls[..n][i := c];
    } else {
      assert calls[i := c][..n] == calls[..n];
    }
  }

  lemma HeldAppend(calls: seq<Call>, c: Call, x: Packet)
    ensures Held(calls + [c], x) == Held(calls, x) + HeldBy(c, x)
  {
    assert (calls + [c])[..|calls|] == calls;
  }

  lemma CountAppend(ps: seq<Packet>, p: Packet, x: Packet)
    ensures Count(ps + [p], x) == Count(ps, x) + (if p == x then 1 else 0)
  {
    assert (ps + [p])[..|ps|] == ps;
  }

  lemma {:induction false} CountTail(ps: seq<Packet>, x: Packet)
    requires ps != []
    ensures Count(ps, x) == Count(ps[1..], x) + (if ps[0] == x then 1 else 0)
  {
    var n := |ps| - 1;
    if n > 0 {
      CountTail(ps[..n], x);
      assert ps[..n][1..] == ps[1..][..n - 1];
    }
  }

  lemma BeginKeeps(s: State, s': State)
    requires Inv(s) && Begin(s, s')
    ensures Inv(s')
  {
    forall x ensures Balanced(s', x) {
      assert Balanced(s, x);
      var c := s'.calls[|s.calls|];
      HeldAppend(s.calls, c, x);
      if c.SendCheck? { CountAppend(s.given, c.p, x); }
    }
    if SomeoneOwes(s.calls) {
      var i :| 0 <= i < |s.calls| && Owes(s.calls[i]);
      assert Owes(s'.calls[i]);
    }
  }

  lemma DropBalances(s: State, i: nat, p: Packet, c: Call, x: Packet)
    requires Balanced(s, x) && i < |s.calls| && HeldBy(c, x) == 0 && HeldBy(s.calls[i], x) == if p == x then 1 else 0
    ensures Balanced(DropIt(s, i, p, c), x)
  {
    HeldUpdate(s.calls, i, c, x);
    CountAppend(s.dropped, p, x);
  }

  lemma TakeBalances(s: State, i: nat, c: Call, x: Packet)
    requires Balanced(s, x) && i < |s.calls| && s.ch != []
    requires HeldBy(s.calls[i], x) == 0 && HeldBy(c, x) == if s.ch[0] == x then 1 else 0
    ensures Balanced(At(s, i, c).(ch := s.ch[1..]), x)
  {
    HeldUpdate(s.calls, i, c, x);
    CountTail(s.ch, x);
  }

  lemma AdvanceBalances(s: State, s': State, i: nat, x: Packet)
    requires Balanced(s, x) && i < |s.calls| && Advance(s, s', i)
    ensures Balanced(s', x)
  {
    var c, c' := s.calls[i], s'.calls[i];
    if (c.SendCheck? || c.SendPut? || c.ProcessHold? || c.DrainHold?) && s'.dropped != s.dropped {
      DropBalances(s, i, c.p, c', x);
    } else if c.SendPut? {
      HeldUpdate(s.calls, i, c', x);
      CountAppend(s.ch, c.p, x);
    } else if c'.ProcessHold? || c'.DrainHold? {
      TakeBalances(s, i, c', x);
    } else {
      HeldUpdate(s.calls, i, c', x);
    }
  }

  lemma AdvanceOwes(s: State, s': State, i: nat)
    requires Owed(s) && Drains(s) && i < |s.calls| && Advance(s, s', i)
    ensures Owed(s') && Drains(s')
  {
    if s'.cancelled && s'.ch != [] {
      if Owes(s'.calls[i]) {
        assert SomeoneOwes(s'.calls);
      } else {
        var j :| 0 <= j < |s.calls| && Owes(s.calls[j]);
        assert Owes(s'.calls[j]);
      }
    }
  }

  lemma AdvanceOrders(s: State, s': State, i: nat)
    requires Ordered(s) && Drains(s) && |s.ch| <= s.capacity && i < |s.calls| && Advance(s, s', i)
    ensures Ordered(s') && |s'.ch| <= s'.capacity
  {
    if s.ch != [] { assert s.ch == [s.ch[0]] + s.ch[1..]; }
  }

  lemma NextKeeps(s: State, s': State)
    requires Inv(s) && Next(s, s')
    ensures Inv(s')
  {
    if Begin(s, s') {
      BeginKeeps(s, s');
    } else {
      var i: nat :| i < |s.calls| && Advance(s, s', i);
      forall x ensures Balanced(s', x) { assert Balanced(s, x); AdvanceBalances(s, s', i, x); }
      AdvanceOwes(s, s', i);
      AdvanceOrders(s, s', i);
    }
  }

  // --------------------------------------------------------------------- over every run

  lemma {:induction false} RunKeeps(t: seq<State>, capacity: nat)
    requires Run(t, capacity)
    ensures Inv(t[|t| - 1])
  {
    if |t| == 1 {
      assert Inv(Init(capacity));
    } else {
      var u := t[..|t| - 1];
      assert Run(u, capacity);
      RunKeeps(u, capacity);
      assert Next(t[|t| - 2], t[|t| - 1]);
      NextKeeps(u[|u| - 1], t[|t| - 1]);
    }
  }

  predicate AllReturned(s: State) {
    forall i :: 0 <= i < |s.calls| ==> s.calls[i].Returned?
  }

  lemma {:induction false} NobodyHolds(calls: seq<Call>, x: Packet)
    requires forall i :: 0 <= i < |calls| ==> calls[i].Returned?
    ensures Held(calls, x) == 0
  {
    if calls != [] { NobodyHolds(calls[..|calls| - 1], x); }
  }

  /** In every interleaving a packet is dropped at most as often as it was given to Send,
      so a packet given once is never dropped twice. */
  lemma NeverDroppedTwice(t: seq<State>, capacity: nat, x: Packet)
    requires Run(t, capacity)
    ensures var s := t[|t| - 1]; Count(s.dropped, x) <= Count(s.given, x)
  {
    RunKeeps(t, capacity);
    assert Balanced(t[|t| - 1], x);
  }

  /** In every interleaving, once the sender is cancelled and every call has returned, the
      channel is empty and every packet was dropped exactly as often as it was given. */
  lemma ClosedLeavesNothing(t: seq<State>, capacity: nat, x: Packet)
    requires Run(t, capacity) && t[|t| - 1].cancelled && AllReturned(t[|t| - 1])
    ensures var s := t[|t| - 1]; s.ch == [] && Count(s.dropped, x) == Count(s.given, x)
  {
    RunKeeps(t, capacity);
    var s := t[|t| - 1];
    assert Balanced(s, x);
    NobodyHolds(s.calls, x);
    assert !SomeoneOwes(s.calls);
  }

  /** Until the sender is cancelled, the packets Process took are the packets Send put
      into the channel, in the same order and with none missing. */
  lemma OpenIsSequential(t: seq<State>, capacity: nat)
    requires Run(t, capacity) && !t[|t| - 1].cancelled
    ensures var s := t[|t| - 1]; s.accepted == s.handled + s.ch && |s.ch| <= s.capacity
  {
    RunKeeps(t, capacity);
  }

  // ------------------------------------------------------- a cancelled sender comes to rest

  function Weight(c: Call): nat {
    match c
    case Returned => 0
    case Drain => 1
    case DrainHold(_) => 2
    case SendLook => 2
    case ProcessWait => 2
    case CloseStart => 2
    case ProcessHold(_) => 3
    case SendPut(_) => 6
    case SendCheck(_) => 7
  }

  function Weights(calls: seq<Call>): nat {
    if calls == [] then 0 else Weights(calls[..|calls| - 1]) + Weight(calls[|calls| - 1])
  }

  /** An upper bound on the steps left once the sender is cancelled. */
  function Left(s: State): nat { Weights(s.calls) + 3 * |s.ch| }

  lemma {:induction false} WeightsUpdate(calls: seq<Call>, i: nat, c: Call)
    requires i < |calls|
    ensures Weights(calls[i := c]) == Weights(calls) - Weight(calls[i]) + Weight(c)
  {
    var n := |calls| - 1;
    if i < n {
      WeightsUpdate(calls[..n], i, c);
      assert calls[i := c][..n] == calls[..n][i := c];
    } else {
      assert calls[i := c][..n] == calls[..n];
    }
  }

  lemma StepsRunOut(s: State, s': State, i: nat)
    requires s.cancelled && i < |s.calls| && Advance(s, s', i)
    ensures s'.cancelled && Left(s') < Left(s)
  {
    WeightsUpdate(s.calls, i, s'.calls[i]);
  }

  /** A call that has not returned always has a step. */
  lemma NoCallIsStuck(s: State, i: nat) returns (s': State)
    requires s.cancelled && i < |s.calls| && !s.calls[i].Returned?
    ensures Advance(s, s', i)
  {
    var c := s.calls[i];
    s' := match c
      case SendCheck(p) => DropIt(s, i, p, Returned)
      case SendPut(p) => DropIt(s, i, p, Returned)
      case SendLook => At(s, i, Drain)
      case ProcessWait => At(s, i, Drain)
      case ProcessHold(p) => DropIt(s, i, p, ProcessWait)
      case CloseStart => At(s, i, Drain).(cancelled := true)
      case Drain => if s.ch == [] then At(s, i, Returned) else At(s, i, DrainHold(s.ch[0])).(ch := s.ch[1..])
      case DrainHold(p) => DropIt(s, i, p, Drain);
  }

  /** Steps of the calls already made, without new ones. */
  ghost predicate Settling(t: seq<State>) {
    && t != []
    && forall k :: 0 <= k < |t| - 1 ==> Moves(t[k], t[k + 1])
  }

  /** After a cancel, every schedule of the calls already made is finite. */
  lemma {:induction false} CancelledComesToRest(t: seq<State>)
    requires Settling(t) && t[0].cancelled
    ensures |t| - 1 + Left(t[|t| - 1]) <= Left(t[0]) && t[|t| - 1].cancelled
  {
    if |t| > 1 {
      var u := t[..|t| - 1];
      assert Settling(u);
      CancelledComesToRest(u);
      var a, b := t[|t| - 2], t[|t| - 1];
      assert Moves(t[|t| - 2], t[|t| - 2 + 1]);
      var i: nat :| i < |a.calls| && Advance(a, b, i);
      StepsRunOut(a, b, i);
    }
  }

  /** And it can only come to rest with all of them returned. */
  lemma AtRestAllReturned(s: State)
    requires s.cancelled && forall s' :: !Moves(s, s')
    ensures AllReturned(s)
  {
    forall i | 0 <= i < |s.calls| ensures s.calls[i].Returned? {
      if !s.calls[i].Returned? {
        var s' := NoCallIsStuck(s, i);
        assert Moves(s, s');
      }
    }
  }
}
