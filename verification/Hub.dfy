/** The hub and its clients as objects: the branches of Hub.Run and one batch of writePump. */
module HubObjects {
  import opened Wrappers
  import opened Text
  import opened HubProtocol

  /** What one pass of writePump puts on the connection. */
  datatype Sent = Frame(text: string) | CloseFrame | Nothing

  /** A connection's bounded send channel, which is created with it and never shared. */
  class Client {
    var buf: seq<Message>
    var open: bool

    constructor ()
      ensures View() == Chan([], true)
    {
      buf, open := [], true;
    }

    ghost function View(): Chan
      reads this
    {
      Chan(buf, open)
    }

    /** Go panics on a send to a closed channel, and blocks on a full one. */
    method Send(m: Message)
      requires open && |buf| < BUF_SIZE
      modifies this
      ensures View() == Chan(old(buf) + [m], true)
    {
      buf := buf + [m];
    }

    /** Go panics when a closed channel is closed again. */
    method Close()
      requires open
      modifies this
      ensures View() == Chan(old(buf), false)
    {
      open := false;
    }

    method Receive() returns (m: Message)
      requires buf != []
      modifies this
      ensures m == old(buf)[0] && View() == Chan(old(buf)[1..], old(open))
    {
      m := buf[0];
      buf := buf[1..];
    }

    /** One pass of writePump that the hub does not interrupt; either connection call can fail. */
    method WriteBatch(nextWriterFails: bool, flushFails: bool) returns (sent: Sent)
      requires CanReceive(View())
      modifies this
      ensures open == old(open)
      ensures buf == if old(buf) != [] && nextWriterFails then old(buf)[1..] else []
      ensures sent == if old(buf) == [] then CloseFrame
                      else if nextWriterFails || flushFails then Nothing
                      else Frame(Join(old(buf), [NEWLINE]))
      ensures sent.Frame? && (forall m <- old(buf) :: Free(m, NEWLINE)) ==> Split(sent.text, NEWLINE) == old(buf)
    {
      if buf == [] {
        return CloseFrame;
      }
      var text := Receive();
      if nextWriterFails {
        return Nothing;
      }
      var n := |buf|;
      assert old(buf)[..1] == [text];
      for i := 0 to n
        invariant open == old(open)
        invariant buf == old(buf)[i + 1..]
        invariant text == Join(old(buf)[..i + 1], [NEWLINE])
      {
        var m := Receive();
        JoinSnoc(old(buf)[..i + 1], m, [NEWLINE]);
        assert old(buf)[..i + 2] == old(buf)[..i + 1] + [m];
        text := text + [NEWLINE] + m;
      }
      assert old(buf)[..n + 1] == old(buf);
      if flushFails {
        return Nothing;
      }
      if forall m <- old(buf) :: Free(m, NEWLINE) {
        SplitJoin(old(buf), NEWLINE);
      }
      sent := Frame(text);
    }
  }

  lemma {:induction false} JoinSnoc(parts: seq<string>, last: string, sep: string)
    requires |parts| > 0
    ensures Join(parts + [last], sep) == Join(parts, sep) + sep + last
  {
    if |parts| > 1 {
      JoinSnoc(parts[1..], last, sep);
      assert (parts + [last])[1..] == parts[1..] + [last];
    } else {
      assert (parts + [last])[1..] == [last];
    }
  }

  // ---------- The batch in the step system ----------

  ghost predicate ActsEnabled(c: Conn, acts: seq<WriterAct>)
    decreases |acts|
  {
    acts == [] || (ActEnabled(c, acts[0]) && ActsEnabled(Act(c, acts[0]), acts[1..]))
  }

  ghost function ActAll(c: Conn, acts: seq<WriterAct>): Conn
    requires ActsEnabled(c, acts)
    decreases |acts|
  {
    if acts == [] then c else ActAll(Act(c, acts[0]), acts[1..])
  }

  function Appends(n: nat, last: WriterAct): seq<WriterAct>
  {
    if n == 0 then [last] else [Append] + Appends(n - 1, last)
  }

  /** A connection that drained its queue after text and ended the batch with last. */
  ghost function Drained(c: Conn, text: string, last: WriterAct): Conn
    requires last.Flush? || last.FlushFails?
  {
    Act(c.(send := c.send.(buf := []), taken := c.taken + c.send.buf,
           writer := Draining(0, Join([text] + c.send.buf, [NEWLINE]))), last)
  }

  lemma DrainsOne(c: Conn, text: string, last: WriterAct)
    requires c.writer == Draining(|c.send.buf|, text) && c.send.buf != [] && (last.Flush? || last.FlushFails?)
    ensures Drained(Act(c, Append), text + [NEWLINE] + c.send.buf[0], last) == Drained(c, text, last)
  {
    var m, rest := c.send.buf[0], c.send.buf[1..];
    assert c.taken + [m] + rest == c.taken + c.send.buf;
    JoinCons(text, c.send.buf);
  }

  lemma {:induction false} AppendsDrain(c: Conn, n: nat, text: string, last: WriterAct)
    requires c.writer == Draining(n, text) && |c.send.buf| == n && (last.Flush? || last.FlushFails?)
    ensures ActsEnabled(c, Appends(n, last)) && ActAll(c, Appends(n, last)) == Drained(c, text, last)
    decreases n
  {
    var acts := Appends(n, last);
    if n == 0 {
      assert acts[1..] == [] && ActAll(Act(c, last), []) == Act(c, last);
      assert c.taken + [] == c.taken;
    } else {
      assert acts[1..] == Appends(n - 1, last);
      AppendsDrain(Act(c, Append), n - 1, text + [NEWLINE] + c.send.buf[0], last);
      DrainsOne(c, text, last);
    }
  }

  lemma JoinCons(text: string, rest: seq<Message>)
    requires rest != []
    ensures Join([text] + rest, [NEWLINE]) == Join([text + [NEWLINE] + rest[0]] + rest[1..], [NEWLINE])
  {
  }

  /** The writer's steps in one pass over n queued messages. */
  function BatchActs(n: nat, nextWriterFails: bool, flushFails: bool): seq<WriterAct>
  {
    if n == 0 then [Receive]
    else if nextWriterFails then [NextWriterFails]
    else [Receive, Snapshot] + Appends(n - 1, if flushFails then FlushFails else Flush)
  }

  lemma FirstAct(c: Conn, a: WriterAct, rest: seq<WriterAct>)
    requires ActEnabled(c, a) && ActsEnabled(Act(c, a), rest)
    ensures ActsEnabled(c, [a] + rest) && ActAll(c, [a] + rest) == ActAll(Act(c, a), rest)
  {
    assert ([a] + rest)[1..] == rest;
  }

  lemma WholeBatch(c: Conn, last: WriterAct)
    requires c.writer.Idle? && c.send.buf != [] && (last.Flush? || last.FlushFails?)
    ensures var acts := [Receive, Snapshot] + Appends(|c.send.buf| - 1, last);
            && ActsEnabled(c, acts)
            && ActAll(c, acts) ==
               Act(c.(send := c.send.(buf := []), taken := c.taken + c.send.buf,
                      writer := Draining(0, Join(c.send.buf, [NEWLINE]))), last)
  {
    var n, m := |c.send.buf| - 1, c.send.buf[0];
    var acts, c1 := [Receive, Snapshot] + Appends(n, last), Act(c, Receive);
    var c2 := Act(c1, Snapshot);
    AppendsDrain(c2, n, m, last);
    assert [m] + c2.send.buf == c.send.buf;
    assert c2.taken + c2.send.buf == c.taken + c.send.buf;
    FirstAct(c1, Snapshot, Appends(n, last));
    FirstAct(c, Receive, [Snapshot] + Appends(n, last));
    assert acts == [Receive] + ([Snapshot] + Appends(n, last));
  }

  /** The steps of a batch that no other goroutine interrupts do what WriteBatch does. */
  lemma BatchSteps(c: Conn, nextWriterFails: bool, flushFails: bool)
    requires c.writer.Idle? && CanReceive(c.send)
    ensures var n := |c.send.buf|;
            var acts := BatchActs(n, nextWriterFails, flushFails);
            && ActsEnabled(c, acts)
            && var c' := ActAll(c, acts);
               && c'.send == Chan(if n > 0 && nextWriterFails then c.send.buf[1..] else [], c.send.open)
               && c'.taken + c'.send.buf == c.taken + c.send.buf
               && c'.frames == (if n == 0 || nextWriterFails || flushFails then c.frames
                                else c.frames + [Join(c.send.buf, [NEWLINE])])
               && c'.writer == (if n == 0 then Closed else if nextWriterFails || flushFails then Failed else Idle)
  {
    if c.send.buf == [] {
    } else if nextWriterFails {
      assert c.taken + [c.send.buf[0]] + c.send.buf[1..] == c.taken + c.send.buf;
    } else {
      WholeBatch(c, if flushFails then FlushFails else Flush);
    }
  }

  class Hub {
    var clients: set<Client>

    /** What keeps every send and every close of Run from panicking. */
    ghost predicate Valid()
      reads this, clients
    {
      forall c <- clients :: c.open
    }

    constructor ()
      ensures Valid() && clients == {}
    {
      clients := {};
    }

    method Register(c: Client)
      requires Valid() && c.open
      modifies this
      ensures Valid() && clients == old(clients) + {c}
    {
      clients := clients + {c};
    }

    method Unregister(c: Client)
      requires Valid()
      modifies this, c
      ensures Valid() && clients == old(clients) - {c}
      ensures c.View() == if c in old(clients) then Chan(old(c.buf), false) else old(c.View())
    {
      if c in clients {
        clients := clients - {c};
        c.Close();
      }
    }

    /** Whatever order the map is visited in, every client is offered the message exactly once. */
    method Broadcast(m: Message)
      requires Valid()
      modifies this, clients
      ensures Valid()
      ensures clients == set c | c in old(clients) && old(|c.buf|) < BUF_SIZE
      ensures forall c <- old(clients) :: c.View() == Offer(old(c.View()), m)
    {
      var todo := clients;
      while todo != {}
        invariant todo <= clients <= old(clients)
        invariant clients == set c | c in old(clients) && (c in todo || old(|c.buf|) < BUF_SIZE)
        invariant forall c <- todo :: c.View() == old(c.View())
        invariant forall c <- old(clients) - todo :: c.View() == Offer(old(c.View()), m)
        decreases |todo|
      {
        var c :| c in todo;
        todo := todo - {c};
        if |c.buf| < BUF_SIZE {
          c.Send(m);
        } else {
          c.Close();
          clients := clients - {c};
        }
      }
    }
  }
}
