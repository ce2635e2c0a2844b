/**
 The hub, its bounded per-client channels and the writer goroutines as one step system.
 A run interleaves the hub's steps (one per client while a broadcast fans out), the
 writers' steps and the readers' broadcasts in any order.
 */
module HubProtocol {
  import opened Wrappers
  import opened Text

  type ClientId = nat
  type Message = string

  const BUF_SIZE := 256
  const NEWLINE := '\n'

  // ---------- What readPump hands to the hub ----------

  /** unicode.IsSpace */
  predicate IsSpace(c: char)
  {
    || '\t' <= c <= '\r' || c == ' ' || c == '\U{0085}' || c == '\U{00A0}' || c == '\U{1680}'
    || '\U{2000}' <= c <= '\U{200A}' || c == '\U{2028}' || c == '\U{2029}' || c == '\U{202F}'
    || c == '\U{205F}' || c == '\U{3000}'
  }

  function SpaceOut(s: string): (r: string)
    ensures |r| == |s|
    ensures forall i :: 0 <= i < |s| ==> r[i] == if s[i] == NEWLINE then ' ' else s[i]
  {
    if s == "" then "" else [if s[0] == NEWLINE then ' ' else s[0]] + SpaceOut(s[1..])
  }

  function TrimLeft(s: string): string
  {
    if s != "" && IsSpace(s[0]) then TrimLeft(s[1..]) else s
  }

  function TrimRight(s: string): string
  {
    if s != "" && IsSpace(s[|s| - 1]) then TrimRight(s[..|s| - 1]) else s
  }

  function Clean(raw: string): Message
  {
    TrimRight(TrimLeft(SpaceOut(raw)))
  }

  // ---------- State ----------

  /** A buffered Go channel of capacity BUF_SIZE. */
  datatype Chan = Chan(buf: seq<Message>, open: bool)

  /** Where one writePump goroutine stands. */
  datatype Writer =
    | Idle                                // at the select
    | Started(message: Message)           // first message received, nothing written yet
    | Draining(left: nat, text: string)   // frame text so far and receives still to do
    | Closed                              // saw the closed channel, sent the close frame, returned
    | Failed                              // returned on a connection error

  /** A connection. taken, first and until record history; nothing in the protocol reads them. */
  datatype Conn = Conn(
    send: Chan,
    writer: Writer,
    frames: seq<string>,   // frames handed to the connection
    taken: seq<Message>,   // messages received from send
    first: nat,            // length of the broadcast log at registration
    until: Option<nat>     // length of the log the client was cut off at, once it is
  )

  /** clients is the hub's map; todo holds the clients its broadcast loop has still to visit. */
  datatype State = State(
    conns: map<ClientId, Conn>,
    clients: set<ClientId>,
    todo: set<ClientId>,
    log: seq<Message>
  )

  const INIT := State(map[], {}, {}, [])

  datatype WriterAct = Receive | NextWriterFails | Snapshot | Append | Flush | FlushFails | PingFails

  datatype Step =
    | Register(id: ClientId)
    | Unregister(id: ClientId)
    | Broadcast(raw: string)
    | Deliver(id: ClientId)
    | Write(id: ClientId, act: WriterAct)

  // ---------- Transitions ----------

  function Take(c: Conn, next: Writer): Conn
    requires c.send.buf != []
  {
    c.(send := c.send.(buf := c.send.buf[1..]), taken := c.taken + [c.send.buf[0]], writer := next)
  }

  /** A receive blocks exactly while the channel is open and empty. */
  predicate CanReceive(ch: Chan)
  {
    ch.buf != [] || !ch.open
  }

  predicate ActEnabled(c: Conn, a: WriterAct)
  {
    match a
    case Receive => c.writer.Idle? && CanReceive(c.send)
    case NextWriterFails => c.writer.Idle? && c.send.buf != []
    case Snapshot => c.writer.Started?
    case Append => c.writer.Draining? && c.writer.left > 0 && CanReceive(c.send)
    case Flush | FlushFails => c.writer.Draining? && c.writer.left == 0
    case PingFails => c.writer.Idle?
  }

  function Act(c: Conn, a: WriterAct): Conn
    requires ActEnabled(c, a)
  {
    match a
    case Receive =>
      if c.send.buf != [] then Take(c, Started(c.send.buf[0])) else c.(writer := Closed)
    case NextWriterFails => Take(c, Failed)
    case Snapshot => c.(writer := Draining(|c.send.buf|, c.writer.message))
    case Append =>
      var Draining(left, text) := c.writer;
      if c.send.buf != [] then Take(c, Draining(left - 1, text + [NEWLINE] + c.send.buf[0]))
      else c.(writer := Draining(left - 1, text + [NEWLINE]))  // a nil message from a closed channel
    case Flush => c.(writer := Idle, frames := c.frames + [c.writer.text])
    case FlushFails | PingFails => c.(writer := Failed)
  }

  function CutOff(c: Conn, at: nat): Conn
  {
    c.(send := c.send.(open := false), until := Some(at))
  }

  /** The hub's send without waiting: a full channel is closed instead. */
  function Offer(ch: Chan, m: Message): Chan
  {
    if |ch.buf| < BUF_SIZE then ch.(buf := ch.buf + [m]) else ch.(open := false)
  }

  predicate HasRoom(c: Conn)
  {
    |c.send.buf| < BUF_SIZE
  }

  predicate Enabled(h: State, step: Step)
  {
    match step
    case Register(id) => h.todo == {} && id !in h.conns   // ServeWs registers each fresh client once
    case Unregister(id) => h.todo == {}
    case Broadcast(_) => h.todo == {}
    case Deliver(id) => id in h.todo && id in h.conns && h.log != []
    case Write(id, a) => id in h.conns && ActEnabled(h.conns[id], a)
  }

  function Next(h: State, step: Step): State
    requires Enabled(h, step)
  {
    match step
    case Register(id) =>
      h.(conns := h.conns[id := Conn(Chan([], true), Idle, [], [], |h.log|, None)],
         clients := h.clients + {id})
    case Unregister(id) =>
      if id in h.clients && id in h.conns then
        h.(conns := h.conns[id := CutOff(h.conns[id], |h.log|)], clients := h.clients - {id})
      else h
    case Broadcast(raw) =>
      h.(log := h.log + [Clean(raw)], todo := h.clients)
    case Deliver(id) =>
      var c := h.conns[id];
      var n := |h.log| - 1;
      if HasRoom(c) then
        h.(conns := h.conns[id := c.(send := Offer(c.send, h.log[n]))], todo := h.todo - {id})
      else
        h.(conns := h.conns[id := CutOff(c, n)], clients := h.clients - {id}, todo := h.todo - {id})
    case Write(id, a) =>
      h.(conns := h.conns[id := Act(h.conns[id], a)])
  }

  ghost predicate IsRun(h: State, steps: seq<Step>)
    decreases |steps|
  {
    steps == [] || (Enabled(h, steps[0]) && IsRun(Next(h, steps[0]), steps[1..]))
  }

  ghost function After(h: State, steps: seq<Step>): State
    requires IsRun(h, steps)
    decreases |steps|
  {
    if steps == [] then h else After(Next(h, steps[0]), steps[1..])
  }

  /** Go panics on a send to, or a close of, a channel that is closed already. */
  predicate Panics(h: State, step: Step)
  {
    match step
    case Deliver(id) => id in h.todo && id in h.conns && !h.conns[id].send.open
    case Unregister(id) => id in h.clients && id in h.conns && !h.conns[id].send.open
    case _ => false
  }

  /** The messages a run broadcasts, read off its steps alone. */
  function Broadcasts(steps: seq<Step>): seq<Message>
  {
    if steps == [] then []
    else (if steps[0].Broadcast? then [Clean(steps[0].raw)] else []) + Broadcasts(steps[1..])
  }

  /** What a peer reads that splits every frame on newline. */
  function Flatten(frames: seq<string>): seq<Message>
  {
    if frames == [] then []
    else Flatten(frames[..|frames| - 1]) + Split(frames[|frames| - 1], NEWLINE)
  }

  /** How much of the log has been offered to a client. */
  function End(h: State, id: ClientId): int
    requires id in h.conns
  {
    match h.conns[id].until
    case Some(n) => n
    case None => if id in h.todo then |h.log| - 1 else |h.log|
  }

  // ---------- Invariant ----------

  /** What the peer has received, will receive with the frame in progress, or has lost. */
  ghost predicate FramesOk(c: Conn)
  {
    match c.writer
    case Idle => c.taken == Flatten(c.frames)
    case Started(m) => c.taken == Flatten(c.frames) + [m] && Free(m, NEWLINE)
    case Draining(left, text) =>
      left <= |c.send.buf| && c.taken == Flatten(c.frames) + Split(text, NEWLINE)
    case Closed => c.taken == Flatten(c.frames) && c.send.buf == [] && !c.send.open
    case Failed => Flatten(c.frames) <= c.taken
  }

  ghost predicate ConnInv(c: Conn, log: seq<Message>, end: int)
  {
    && c.first <= end <= |log|
    && c.taken + c.send.buf == log[c.first..end]
    && |c.send.buf| <= BUF_SIZE
    && FramesOk(c)
  }

  /** A client is in the map exactly while its channel is open, and holds its slice. */
  ghost predicate MemberInv(h: State, id: ClientId)
    requires id in h.conns
  {
    && (id in h.clients <==> h.conns[id].send.open)
    && (id in h.clients <==> h.conns[id].until.None?)
    && ConnInv(h.conns[id], h.log, End(h, id))
  }

  ghost predicate Inv(h: State)
  {
    && h.todo <= h.clients <= h.conns.Keys
    && (h.todo != {} ==> h.log != [])
    && (forall m <- h.log :: Free(m, NEWLINE))
    && (forall id <- h.conns :: MemberInv(h, id))
  }

  ghost predicate White(s: string)
  {
    forall c <- s :: IsSpace(c)
  }

  /** t is raw without the white space at its ends, and with a space for every newline. */
  ghost predicate Cleaned(raw: string, t: Message)
  {
    && (t != "" ==> !IsSpace(t[0]) && !IsSpace(t[|t| - 1]))
    && exists l, r :: White(l) && White(r) && Framed(raw, l, t, r)
  }

  ghost predicate Framed(raw: string, l: string, t: string, r: string)
  {
    && |l| + |t| + |r| == |raw|
    && forall i :: 0 <= i < |raw| ==> (l + t + r)[i] == if raw[i] == '\n' then ' ' else raw[i]
  }

  lemma FramedIsSpacedOut(raw: string, l: string, t: string, r: string)
    ensures Framed(raw, l, t, r) <==> l + t + r == SpaceOut(raw)
  {
    assert l + t + r == SpaceOut(raw) ==> forall i :: 0 <= i < |raw| ==> (l + t + r)[i] == SpaceOut(raw)[i];
    if Framed(raw, l, t, r) {
      assert |l + t + r| == |raw| == |SpaceOut(raw)|;
      assert forall i :: 0 <= i < |raw| ==> (l + t + r)[i] == SpaceOut(raw)[i];
    }
  }

  /** What trimming drops. */
  lemma TrimDrops(s: string) returns (l: string, r: string)
    ensures White(l) && White(r) && s == l + TrimRight(TrimLeft(s)) + r
    ensures var t := TrimRight(TrimLeft(s)); t != "" ==> !IsSpace(t[0]) && !IsSpace(t[|t| - 1])
  {
    l := TrimLeftDrops(s);
    r := TrimRightDrops(TrimLeft(s));
    Regroup(l, TrimRight(TrimLeft(s)), r);
  }

  lemma CleanIsCleaned(raw: string)
    ensures Cleaned(raw, Clean(raw))
  {
    var l, r := TrimDrops(SpaceOut(raw));
    FramedIsSpacedOut(raw, l, Clean(raw), r);
  }

  /** The hub is handed exactly the cleaned text. */
  lemma CleanExactly(raw: string, t: Message)
    ensures Cleaned(raw, t) <==> t == Clean(raw)
  {
    CleanIsCleaned(raw);
    if Cleaned(raw, t) {
      var l, r :| White(l) && White(r) && Framed(raw, l, Clean(raw), r);
      var l', r' :| White(l') && White(r') && Framed(raw, l', t, r');
      FramedIsSpacedOut(raw, l, Clean(raw), r);
      FramedIsSpacedOut(raw, l', t, r');
      OneMiddle(l, Clean(raw), r, l', t, r');
    }
  }

  /** A text has one middle between white space that does not begin or end with white space. */
  lemma OneMiddle(l: string, t: string, r: string, l': string, t': string, r': string)
    requires l + t + r == l' + t' + r' && White(l) && White(r) && White(l') && White(r')
    requires t != "" ==> !IsSpace(t[0]) && !IsSpace(t[|t| - 1])
    requires t' != "" ==> !IsSpace(t'[0]) && !IsSpace(t'[|t'| - 1])
    ensures t == t'
  {
    if t != "" {
      Inside(l, t, r, l', t', r');
      Inside(l', t', r', l, t, r);
      assert t == (l + t + r)[|l|..|l| + |t|];
      assert t' == (l' + t' + r')[|l'|..|l'| + |t'|];
    } else if t' != "" {
      Inside(l', t', r', l, t, r);
    }
  }

  lemma Inside(l: string, t: string, r: string, l': string, t': string, r': string)
    requires l + t + r == l' + t' + r' && White(l') && White(r')
    requires t != "" && !IsSpace(t[0]) && !IsSpace(t[|t| - 1])
    ensures |l'| <= |l| && |l| + |t| <= |l'| + |t'| && t' != ""
  {
    var s := l + t + r;
    assert s[|l|] == t[0] && s[|l| + |t| - 1] == t[|t| - 1];
  }

  /** White space, by code point. */
  lemma WhiteSpaceExactly(c: char)
    ensures IsSpace(c) <==>
      var n := c as int;
      || n == 0x09 || n == 0x0A || n == 0x0B || n == 0x0C || n == 0x0D || n == 0x20 || n == 0x85 || n == 0xA0
      || n == 0x1680 || 0x2000 <= n <= 0x200A || n == 0x2028 || n == 0x2029 || n == 0x202F || n == 0x205F
      || n == 0x3000
  {
  }

  lemma CleanIsNewlineFree(raw: string)
    ensures Free(Clean(raw), NEWLINE)
  {
    TrimIsInfix(SpaceOut(raw));
  }

  /** Trimming removes exactly the white space at both ends. */
  lemma TrimIsInfix(s: string)
    ensures exists l, r :: s == l + TrimRight(TrimLeft(s)) + r
                          && (forall c <- l :: IsSpace(c)) && (forall c <- r :: IsSpace(c))
    ensures var t := TrimRight(TrimLeft(s));
            && (t != "" ==> !IsSpace(t[0]) && !IsSpace(t[|t| - 1]))
            && forall c <- t :: c in s
  {
    var l, r := TrimDrops(s);
    assert forall c <- TrimRight(TrimLeft(s)) :: c in l + TrimRight(TrimLeft(s)) + r;
  }

  lemma TrimLeftDrops(s: string) returns (l: string)
    ensures s == l + TrimLeft(s) && forall c <- l :: IsSpace(c)
    ensures TrimLeft(s) != "" ==> !IsSpace(TrimLeft(s)[0])
  {
    l := [];
    if s != "" && IsSpace(s[0]) {
      var l' := TrimLeftDrops(s[1..]);
      l := [s[0]] + l';
    }
  }

  lemma TrimRightDrops(s: string) returns (r: string)
    ensures s == TrimRight(s) + r && forall c <- r :: IsSpace(c)
    ensures TrimRight(s) != "" ==> !IsSpace(TrimRight(s)[|TrimRight(s)| - 1])
  {
    r := [];
    if s != "" && IsSpace(s[|s| - 1]) {
      var r' := TrimRightDrops(s[..|s| - 1]);
      r := r' + [s[|s| - 1]];
    }
  }

  lemma FlattenSnoc(frames: seq<string>, text: string)
    ensures Flatten(frames + [text]) == Flatten(frames) + Split(text, NEWLINE)
  {
  }

  /** Every step of a writer keeps its connection's invariant, whatever the hub did meanwhile. */
  lemma ActKeepsConn(c: Conn, a: WriterAct, log: seq<Message>, end: int)
    requires ConnInv(c, log, end) && ActEnabled(c, a)
    requires forall m <- log :: Free(m, NEWLINE)
    ensures ConnInv(Act(c, a), log, end)
  {
    if c.send.buf != [] {
      var m := c.send.buf[0];
      assert m == log[c.first..end][|c.taken|];
      assert Free(m, NEWLINE);
      assert c.taken + [m] + c.send.buf[1..] == c.taken + c.send.buf;
      SplitFree(m, NEWLINE);
      if a.Append? {
        SplitAtSeparator(c.writer.text, NEWLINE, m);
      }
    }
    match a
    case Snapshot => SplitFree(c.writer.message, NEWLINE);
    case Flush => FlattenSnoc(c.frames, c.writer.text);
    case _ =>
  }

  lemma OfferKeepsConn(c: Conn, log: seq<Message>)
    requires log != [] && c.send.open && ConnInv(c, log, |log| - 1)
    ensures HasRoom(c) ==>
      ConnInv(c.(send := Offer(c.send, log[|log| - 1])), log, |log|)
  {
    var m := log[|log| - 1];
    assert log[c.first..|log| - 1] + [m] == log[c.first..];
    assert c.taken + (c.send.buf + [m]) == c.taken + c.send.buf + [m];
  }

  /** A step that leaves a client and what was offered to it alone. */
  lemma UntouchedMember(h: State, h': State, id: ClientId)
    requires id in h.conns && MemberInv(h, id) && id in h'.conns && h'.conns[id] == h.conns[id]
    requires h'.log == h.log && (id in h'.clients <==> id in h.clients) && (id in h'.todo <==> id in h.todo)
    ensures MemberInv(h', id)
  {
  }

  lemma DeliveredMember(h: State, id: ClientId)
    requires Inv(h) && id in h.todo
    ensures MemberInv(Next(h, Deliver(id)), id)
  {
    assert MemberInv(h, id);
    assert ConnInv(h.conns[id], h.log, |h.log| - 1);
    OfferKeepsConn(h.conns[id], h.log);
  }

  lemma DeliverKeepsInv(h: State, id: ClientId)
    requires Inv(h) && id in h.todo
    ensures Inv(Next(h, Deliver(id)))
  {
    var h' := Next(h, Deliver(id));
    DeliveredMember(h, id);
    assert h'.conns.Keys == h.conns.Keys;
    forall k <- h'.conns | k != id
      ensures MemberInv(h', k)
    {
      UntouchedMember(h, h', k);
    }
  }

  /** A broadcast offers nothing yet: the log grows and every member's last message is still to come. */
  lemma BroadcastMember(h: State, raw: string, id: ClientId)
    requires Inv(h) && h.todo == {} && id in h.conns
    ensures MemberInv(Next(h, Broadcast(raw)), id)
  {
    var h', c := Next(h, Broadcast(raw)), h.conns[id];
    assert MemberInv(h, id);
    assert End(h', id) == End(h, id);
    assert h'.log[c.first..End(h, id)] == h.log[c.first..End(h, id)];
  }

  lemma BroadcastKeepsInv(h: State, raw: string)
    requires Inv(h) && h.todo == {}
    ensures Inv(Next(h, Broadcast(raw)))
  {
    CleanIsNewlineFree(raw);
    forall id <- h.conns
      ensures MemberInv(Next(h, Broadcast(raw)), id)
    {
      BroadcastMember(h, raw, id);
    }
  }

  lemma WriteKeepsInv(h: State, id: ClientId, a: WriterAct)
    requires Inv(h) && Enabled(h, Write(id, a))
    ensures Inv(Next(h, Write(id, a)))
  {
    var h' := Next(h, Write(id, a));
    assert MemberInv(h, id);
    ActKeepsConn(h.conns[id], a, h.log, End(h, id));
    assert MemberInv(h', id);
    assert h'.conns.Keys == h.conns.Keys;
    forall k <- h'.conns | k != id
      ensures MemberInv(h', k)
    {
      UntouchedMember(h, h', k);
    }
  }

  lemma MembershipKeepsInv(h: State, step: Step)
    requires Inv(h) && Enabled(h, step) && (step.Register? || step.Unregister?)
    ensures Inv(Next(h, step))
  {
    var h' := Next(h, step);
    assert step.id in h.conns ==> MemberInv(h, step.id);
    forall k <- h'.conns | k != step.id
      ensures MemberInv(h', k)
    {
      UntouchedMember(h, h', k);
    }
  }

  lemma StepKeepsInv(h: State, step: Step)
    requires Inv(h) && Enabled(h, step)
    ensures Inv(Next(h, step))
  {
    match step
    case Deliver(id) => DeliverKeepsInv(h, id);
    case Broadcast(raw) => BroadcastKeepsInv(h, raw);
    case Write(id, a) => WriteKeepsInv(h, id, a);
    case _ => MembershipKeepsInv(h, step);
  }

  /** While no fan-out is on, the hub takes every request; during one, exactly the deliveries still to do. */
  lemma HubIsReady(h: State, id: ClientId, raw: string)
    requires Inv(h)
    ensures h.todo == {} ==> Enabled(h, Broadcast(raw)) && Enabled(h, Unregister(id))
    ensures h.todo == {} && id !in h.conns ==> Enabled(h, Register(id))
    ensures id in h.todo <==> Enabled(h, Deliver(id))
    ensures h.todo != {} ==> !Enabled(h, Broadcast(raw)) && !Enabled(h, Unregister(id)) && !Enabled(h, Register(id))
  {
  }

  /** A writer whose connection fails sends nothing and does nothing more; only a failed NextWriter loses a message. */
  lemma FailuresEndTheWriter(c: Conn, a: WriterAct, next: WriterAct)
    requires ActEnabled(c, a) && (a.NextWriterFails? || a.FlushFails? || a.PingFails?)
    ensures var c' := Act(c, a);
            && c'.writer.Failed? && !ActEnabled(c', next) && c'.frames == c.frames
            && c'.first == c.first && c'.until == c.until && c'.send.open == c.send.open
            && if a.NextWriterFails? then c'.taken == c.taken + [c.send.buf[0]] && c'.send.buf == c.send.buf[1..]
               else c'.taken == c.taken && c'.send.buf == c.send.buf
  {
  }

  /** What a writer can do: it waits only for a message while it is idle, and never once it has returned. */
  lemma WriterIsReady(c: Conn, log: seq<Message>, end: int)
    requires ConnInv(c, log, end)
    ensures match c.writer
            case Idle => ActEnabled(c, PingFails) && (ActEnabled(c, Receive) <==> c.send.buf != [] || !c.send.open)
                         && (ActEnabled(c, NextWriterFails) <==> c.send.buf != [])
            case Started(_) => ActEnabled(c, Snapshot)
            case Draining(left, _) =>
              if left > 0 then ActEnabled(c, Append) else ActEnabled(c, Flush) && ActEnabled(c, FlushFails)
            case _ => forall a: WriterAct :: !ActEnabled(c, a)
  {
  }

  /** Go yields an empty message from a closed channel that has been drained, which no run comes to. */
  lemma ClosedChannelYieldsNothing(c: Conn)
    requires c.writer.Draining? && c.writer.left > 0 && c.send == Chan([], false)
    ensures ActEnabled(c, Append)
    ensures Act(c, Append) == c.(writer := Draining(c.writer.left - 1, c.writer.text + "\n"))
  {
  }
}
