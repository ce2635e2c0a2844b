/** What every run of the hub protocol guarantees. */
module HubRuns {
  import opened Wrappers
  import opened HubProtocol

  lemma {:induction false} RunKeepsInv(h: State, steps: seq<Step>)
    requires Inv(h) && IsRun(h, steps)
    ensures Inv(After(h, steps))
    decreases |steps|
  {
    if steps != [] {
      StepKeepsInv(h, steps[0]);
      RunKeepsInv(Next(h, steps[0]), steps[1..]);
    }
  }

  lemma {:induction false} RunLogsBroadcasts(h: State, steps: seq<Step>)
    requires IsRun(h, steps)
    ensures After(h, steps).log == h.log + Broadcasts(steps)
    decreases |steps|
  {
    if steps != [] {
      RunLogsBroadcasts(Next(h, steps[0]), steps[1..]);
    }
  }

  /** The texts the readers received, in the order of the broadcasts. */
  function Raws(steps: seq<Step>): seq<string>
  {
    if steps == [] then [] else (if steps[0].Broadcast? then [steps[0].raw] else []) + Raws(steps[1..])
  }

  lemma {:induction false} BroadcastsAreCleaned(steps: seq<Step>)
    ensures |Broadcasts(steps)| == |Raws(steps)|
    ensures forall i :: 0 <= i < |Raws(steps)| ==> Cleaned(Raws(steps)[i], Broadcasts(steps)[i])
  {
    if steps != [] {
      BroadcastsAreCleaned(steps[1..]);
      if steps[0].Broadcast? {
        CleanIsCleaned(steps[0].raw);
      }
    }
  }

  /** Taken then queued is the slice of the broadcasts from registration to the client's end. */
  lemma StreamsAreSlices(steps: seq<Step>, id: ClientId)
    requires IsRun(INIT, steps) && id in After(INIT, steps).conns
    ensures var h := After(INIT, steps);
            var c := h.conns[id];
            && 0 <= c.first <= End(h, id) <= |Broadcasts(steps)|
            && c.taken + c.send.buf == Broadcasts(steps)[c.first..End(h, id)]
            && |c.send.buf| <= 256
  {
    RunKeepsInv(INIT, steps);
    RunLogsBroadcasts(INIT, steps);
    assert INIT.log + Broadcasts(steps) == Broadcasts(steps);
    assert MemberInv(After(INIT, steps), id);
  }

  /** Message by message that is what the readers received, cleaned. */
  lemma StreamsAreCleaned(steps: seq<Step>, id: ClientId)
    requires IsRun(INIT, steps) && id in After(INIT, steps).conns
    ensures var c := After(INIT, steps).conns[id];
            var stream := c.taken + c.send.buf;
            && c.first + |stream| <= |Raws(steps)|
            && forall i :: 0 <= i < |stream| ==> Cleaned(Raws(steps)[c.first + i], stream[i])
  {
    StreamsAreSlices(steps, id);
    BroadcastsAreCleaned(steps);
  }

  lemma {:induction false} RunSplits(h: State, pre: seq<Step>, post: seq<Step>)
    requires IsRun(h, pre + post)
    ensures IsRun(h, pre) && IsRun(After(h, pre), post)
    ensures After(h, pre + post) == After(After(h, pre), post)
    decreases |pre|
  {
    if pre == [] {
      assert pre + post == post;
    } else {
      assert (pre + post)[1..] == pre[1..] + post;
      RunSplits(Next(h, pre[0]), pre[1..], post);
    }
  }

  ghost predicate SameHistory(h: State, h': State, id: ClientId)
  {
    && id in h.conns && id in h'.conns && h'.conns[id].first == h.conns[id].first
    && (h.conns[id].until.Some? ==> h'.conns[id].until == h.conns[id].until)
  }

  lemma StepKeepsHistory(h: State, step: Step, id: ClientId)
    requires Enabled(h, step) && id in h.conns
    requires h.todo <= h.clients && (id in h.clients ==> h.conns[id].until.None?)
    ensures SameHistory(h, Next(h, step), id)
  {
  }

  lemma {:induction false} HistoryIsFixed(h: State, steps: seq<Step>, id: ClientId)
    requires Inv(h) && IsRun(h, steps) && id in h.conns
    ensures SameHistory(h, After(h, steps), id)
    decreases |steps|
  {
    if steps != [] {
      StepKeepsInv(h, steps[0]);
      StepKeepsHistory(h, steps[0], id);
      HistoryIsFixed(Next(h, steps[0]), steps[1..], id);
    }
  }

  /** The slice starts with the first message broadcast after the client registered. */
  lemma SliceStartsAtRegistration(pre: seq<Step>, id: ClientId, post: seq<Step>)
    requires IsRun(INIT, pre + ([Register(id)] + post))
    ensures id in After(INIT, pre + ([Register(id)] + post)).conns
    ensures After(INIT, pre + ([Register(id)] + post)).conns[id].first == |Broadcasts(pre)|
  {
    RunSplits(INIT, pre, [Register(id)] + post);
    RunKeepsInv(INIT, pre);
    RunLogsBroadcasts(INIT, pre);
    var h := After(INIT, pre);
    StepKeepsInv(h, Register(id));
    assert ([Register(id)] + post)[1..] == post;
    HistoryIsFixed(Next(h, Register(id)), post, id);
  }

  /** It ends with the last message broadcast before the hub cut the client off, for good. */
  lemma SliceEndsAtCutOff(pre: seq<Step>, step: Step, post: seq<Step>, id: ClientId)
    requires IsRun(INIT, pre + ([step] + post))
    requires IsRun(INIT, pre) && id in After(INIT, pre).clients
    requires step == Unregister(id)
             || (step == Deliver(id) && id in After(INIT, pre).conns && !HasRoom(After(INIT, pre).conns[id]))
    ensures var h := After(INIT, pre + ([step] + post));
            && id in h.conns && id !in h.clients && !h.conns[id].send.open
            && End(h, id) == if step.Unregister? then |Broadcasts(pre)| else |Broadcasts(pre)| - 1
  {
    RunSplits(INIT, pre, [step] + post);
    RunKeepsInv(INIT, pre);
    RunLogsBroadcasts(INIT, pre);
    var h := After(INIT, pre);
    StepKeepsInv(h, step);
    assert ([step] + post)[1..] == post;
    HistoryIsFixed(Next(h, step), post, id);
    RunKeepsInv(Next(h, step), post);
  }

  /** A client is in the hub's map exactly while its channel is open, so nothing panics. */
  lemma MembersAreOpen(steps: seq<Step>, next: Step)
    requires IsRun(INIT, steps)
    ensures var h := After(INIT, steps);
            && h.clients <= h.conns.Keys
            && (forall id <- h.conns :: id in h.clients <==> h.conns[id].send.open)
            && !Panics(h, next)
  {
    RunKeepsInv(INIT, steps);
  }

  /** Inside a batch every receive finds a real message at once, whatever the hub does meanwhile. */
  lemma BatchReceivesAreReal(steps: seq<Step>, id: ClientId)
    requires IsRun(INIT, steps) && id in After(INIT, steps).conns
    requires After(INIT, steps).conns[id].writer.Draining?
    requires After(INIT, steps).conns[id].writer.left > 0
    ensures var c := After(INIT, steps).conns[id];
            && ActEnabled(c, Append) && c.send.buf != []
            && Act(c, Append).taken == c.taken + [c.send.buf[0]]
  {
    RunKeepsInv(INIT, steps);
  }

  /** The peer's split frames are what was taken; after an orderly close they are the whole slice. */
  lemma PeersReadTheSlice(steps: seq<Step>, id: ClientId)
    requires IsRun(INIT, steps) && id in After(INIT, steps).conns
    ensures var h := After(INIT, steps);
            var c := h.conns[id];
            && Flatten(c.frames) <= c.taken
            && (c.writer.Idle? ==> Flatten(c.frames) == c.taken)
            && (c.writer.Closed? ==>
                  && id !in h.clients && c.until.Some?
                  && 0 <= c.first <= End(h, id) <= |Broadcasts(steps)|
                  && Flatten(c.frames) == Broadcasts(steps)[c.first..End(h, id)])
  {
    RunKeepsInv(INIT, steps);
    StreamsAreSlices(steps, id);
    var c := After(INIT, steps).conns[id];
    assert c.taken + [] == c.taken;
  }

  // ---------- Slow clients ----------

  predicate Takes(step: Step, id: ClientId)
  {
    step.Write? && step.id == id && (step.act.Receive? || step.act.NextWriterFails? || step.act.Append?)
  }

  /** Broadcasts since the log had length base that the hub has offered to a client. */
  function Offered(h: State, id: ClientId, base: nat): int
  {
    |h.log| - base - if id in h.todo then 1 else 0
  }

  /** How much of the log has been queued, from base on. */
  function Queued(h: State, id: ClientId, base: nat, buf: seq<Message>): int
  {
    var n, room := Offered(h, id, base), BUF_SIZE - |buf|;
    if n <= room then n else room
  }

  /** What a client that held buf when the log had length base looks like if nothing was taken since. */
  ghost predicate Stalled(h: State, id: ClientId, base: nat, buf: seq<Message>)
  {
    var n, room := Offered(h, id, base), BUF_SIZE - |buf|;
    && id in h.conns && |h.log| >= base && n >= 0 && room >= 0
    && (id in h.todo ==> id in h.clients)
    && (id in h.clients <==> n <= room)
    && h.conns[id].send.buf == buf + h.log[base..base + Queued(h, id, base, buf)]
    && (n > room ==> h.conns[id].until == Some(base + room))
  }

  /** The parts of a state that Stalled reads, besides the invariant. */
  ghost predicate SameView(h: State, h': State, id: ClientId)
    requires id in h.conns && id in h'.conns
  {
    && h'.conns[id].send.buf == h.conns[id].send.buf && h'.conns[id].until == h.conns[id].until
    && (id in h'.clients <==> id in h.clients)
  }

  lemma StalledDelivery(h: State, id: ClientId, base: nat, buf: seq<Message>)
    requires Stalled(h, id, base, buf) && Enabled(h, Deliver(id))
    ensures Stalled(Next(h, Deliver(id)), id, base, buf)
  {
    var n := Offered(h, id, base);
    assert h.log[base..base + n] + [h.log[base + n]] == h.log[base..base + n + 1];
    assert HasRoom(h.conns[id]) <==> n < BUF_SIZE - |buf|;
  }

  lemma StalledBroadcast(h: State, raw: string, id: ClientId, base: nat, buf: seq<Message>)
    requires Stalled(h, id, base, buf) && Enabled(h, Broadcast(raw))
    ensures Stalled(Next(h, Broadcast(raw)), id, base, buf)
  {
    var k := Queued(h, id, base, buf);
    assert Next(h, Broadcast(raw)).log[base..base + k] == h.log[base..base + k];
    assert Offered(Next(h, Broadcast(raw)), id, base)
           == Offered(h, id, base) + if id in h.clients then 0 else 1;
  }

  lemma StalledStep(h: State, step: Step, id: ClientId, base: nat, buf: seq<Message>)
    requires Stalled(h, id, base, buf) && Enabled(h, step)
    requires !Takes(step, id) && step != Unregister(id)
    ensures Stalled(Next(h, step), id, base, buf)
  {
    match step
    case Broadcast(raw) => StalledBroadcast(h, raw, id, base, buf);
    case Deliver(k) =>
      if k == id {
        StalledDelivery(h, id, base, buf);
      } else {
        assert SameView(h, Next(h, step), id);
      }
    case _ => assert SameView(h, Next(h, step), id);
  }

  lemma {:induction false} StalledRun(h: State, steps: seq<Step>, id: ClientId, base: nat, buf: seq<Message>)
    requires Stalled(h, id, base, buf) && IsRun(h, steps)
    requires forall s <- steps :: !Takes(s, id) && s != Unregister(id)
    ensures Stalled(After(h, steps), id, base, buf)
    decreases |steps|
  {
    if steps != [] {
      StalledStep(h, steps[0], id, base, buf);
      StalledRun(Next(h, steps[0]), steps[1..], id, base, buf);
    }
  }

  /** Offers counted from now on; a fan-out that has still to reach the client is the first. */
  lemma StalledFromNow(h: State, id: ClientId)
    requires Inv(h) && id in h.conns && id in h.clients
    ensures var base := |h.log| - if id in h.todo then 1 else 0;
            base >= 0 && Stalled(h, id, base, h.conns[id].send.buf)
  {
    assert MemberInv(h, id);
    var buf := h.conns[id].send.buf;
    var base := |h.log| - if id in h.todo then 1 else 0;
    assert buf + h.log[base..base] == buf;
  }

  lemma StalledWhenReached(steps: seq<Step>, id: ClientId)
    requires IsRun(INIT, steps) && id in After(INIT, steps).conns && id in After(INIT, steps).clients
    ensures var h := After(INIT, steps);
            var base := |h.log| - if id in h.todo then 1 else 0;
            base >= 0 && Stalled(h, id, base, h.conns[id].send.buf)
  {
    RunKeepsInv(INIT, steps);
    StalledFromNow(After(INIT, steps), id);
  }

  /** What Stalled says of the map, in terms of the messages offered. */
  ghost predicate DroppedWhenFull(h: State, steps: seq<Step>, h': State, id: ClientId)
    requires id in h.conns
  {
    var q := |h.conns[id].send.buf|;
    var pending := if id in h.todo then 1 else 0;
    var k := pending + |Broadcasts(steps)| - if id in h'.todo then 1 else 0;
    && id in h'.conns
    && (id in h'.clients <==> k < 257 - q)
    && (id !in h'.clients ==> h'.conns[id].until == Some(|h.log| - pending + 256 - q))
  }

  lemma StalledIsDropped(h: State, steps: seq<Step>, h': State, id: ClientId)
    requires id in h.conns && |h'.log| == |h.log| + |Broadcasts(steps)|
    requires |h.log| > 0 || id !in h.todo
    requires Stalled(h', id, |h.log| - if id in h.todo then 1 else 0, h.conns[id].send.buf)
    ensures DroppedWhenFull(h, steps, h', id)
  {
  }

  /**
   With q messages queued and none taken, exactly the (257 - q)-th message offered from then on drops
   a client; when a fan-out has still to reach it, that fan-out's message is the first of them.
   */
  lemma SlowClientIsDropped(pre: seq<Step>, steps: seq<Step>, id: ClientId)
    requires IsRun(INIT, pre) && IsRun(After(INIT, pre), steps)
    requires id in After(INIT, pre).clients && id in After(INIT, pre).conns
    requires forall s <- steps :: !Takes(s, id) && s != Unregister(id)
    ensures DroppedWhenFull(After(INIT, pre), steps, After(After(INIT, pre), steps), id)
  {
    var h := After(INIT, pre);
    StalledWhenReached(pre, id);
    StalledRun(h, steps, id, |h.log| - if id in h.todo then 1 else 0, h.conns[id].send.buf);
    RunLogsBroadcasts(h, steps);
    StalledIsDropped(h, steps, After(h, steps), id);
  }

  // ---------- A cut-off client is drained ----------

  predicate Live(w: Writer)
  {
    !w.Closed? && !w.Failed?
  }

  function Rank(w: Writer): nat
  {
    match w
    case Started(_) => 2
    case Draining(_, _) => 1
    case _ => 0
  }

  /** The step a live writer of a closed channel takes when its connection works. */
  function NextAct(w: Writer): WriterAct
    requires Live(w)
  {
    match w
    case Idle => Receive
    case Started(_) => Snapshot
    case Draining(left, _) => if left > 0 then Append else Flush
  }

  /** A live writer of a cut-off client can finish alone, and then the peer has the whole slice. */
  lemma {:induction false} DrainsBeforeClosing(h: State, id: ClientId) returns (steps: seq<Step>)
    requires Inv(h) && id in h.conns && id !in h.clients && Live(h.conns[id].writer)
    ensures IsRun(h, steps)
    ensures forall s <- steps :: s.Write? && s.id == id
                                 && !s.act.NextWriterFails? && !s.act.FlushFails? && !s.act.PingFails?
    ensures var h' := After(h, steps);
            && id in h'.conns && h'.conns[id].writer.Closed?
            && h.conns[id].first <= End(h, id) <= |h.log|
            && Flatten(h'.conns[id].frames) == h.log[h.conns[id].first..End(h, id)]
    decreases |h.conns[id].send.buf|, Rank(h.conns[id].writer)
  {
    var c := h.conns[id];
    var step := Write(id, NextAct(c.writer));
    StepKeepsInv(h, step);
    var h' := Next(h, step);
    if h'.conns[id].writer.Closed? {
      steps := [step];
      assert After(h', []) == h';
      assert c.taken + [] == c.taken;
    } else {
      var rest := DrainsBeforeClosing(h', id);
      steps := [step] + rest;
      assert steps[1..] == rest;
    }
  }

  // ---------- The broadcast loop visits the map in any order ----------

  /** The state after a whole fan-out, client by client and without any order. */
  function FanOut(h: State): State
    requires h.todo <= h.conns.Keys && h.log != []
  {
    var conns := map id | id in h.conns ::
                   if id in h.todo then Next(h, Deliver(id)).conns[id] else h.conns[id];
    var clients := set id | id in h.clients && (id in h.todo ==> HasRoom(h.conns[id]));
    State(conns, clients, {}, h.log)
  }

  function DeliverAll(order: seq<ClientId>): seq<Step>
  {
    if order == [] then [] else [Deliver(order[0])] + DeliverAll(order[1..])
  }

  lemma {:induction false} FanOutInAnyOrder(h: State, order: seq<ClientId>)
    requires h.todo <= h.conns.Keys && h.log != []
    requires forall id :: id in order <==> id in h.todo
    requires forall i, j :: 0 <= i < j < |order| ==> order[i] != order[j]
    ensures IsRun(h, DeliverAll(order)) && After(h, DeliverAll(order)) == FanOut(h)
    decreases |order|
  {
    if order == [] {
      assert FanOut(h) == h;
    } else {
      var h' := Next(h, Deliver(order[0]));
      var steps := DeliverAll(order);
      assert steps[1..] == DeliverAll(order[1..]);
      forall id
        ensures id in order[1..] <==> id in h'.todo
      {
        assert id in order <==> id == order[0] || id in order[1..];
      }
      FanOutInAnyOrder(h', order[1..]);
      DeliveryIsPartOfFanOut(h, order[0]);
    }
  }

  lemma DeliveryIsPartOfFanOut(h: State, id: ClientId)
    requires Enabled(h, Deliver(id)) && h.todo <= h.conns.Keys
    ensures FanOut(Next(h, Deliver(id))) == FanOut(h)
  {
  }

  /** Fan-out offers the newest message to every client of the map and forgets the full ones. */
  lemma FanOutOffers(h: State, raw: string)
    requires Inv(h) && h.todo == {}
    ensures var h' := FanOut(Next(h, Broadcast(raw)));
            && h'.conns.Keys == h.conns.Keys && h'.todo == {}
            && (forall id <- h.conns :: h'.conns[id].send ==
                  if id in h.clients then Offer(h.conns[id].send, Clean(raw)) else h.conns[id].send)
            && (forall id :: id in h'.clients <==> id in h.clients && id in h.conns && HasRoom(h.conns[id]))
  {
  }
}
