/** Which bytes the keyboard driver sends, and for which command. */
module KeyboardSends {
  import opened PhysicalMemory
  import opened KeyboardProtocol

  /** From `p` to `q` at most one byte was sent, for the command at the head of the queue afterwards. */
  ghost predicate SendsForHead(p: Protocol, q: Protocol) {
    q.sent == p.sent ||
    (&& q.queue != [] && |q.sent| == |p.sent| + 1 && q.sent[..|p.sent|] == p.sent
     && q.sent[|p.sent|].serial == q.queue[0].serial)
  }

  lemma CompleteSends(p: Protocol, success: bool, response: Byte)
    requires p.queue != []
    ensures SendsForHead(p, Complete(p, success, response)) && |Complete(p, success, response).completed| == |p.completed| + 1
  {
    var added := CompleteShape(p, success, response);
  }

  lemma ResendSends(p: Protocol)
    requires p.queue != []
    ensures SendsForHead(p, OnResend(p)) && |OnResend(p).completed| >= |p.completed|
  {
    CompleteSends(p.(queue := p.queue[0 := Resent(p.queue[0])]), false, 0);
  }

  lemma AckSends(p: Protocol)
    requires p.queue != []
    ensures SendsForHead(p, OnAck(p)) && |OnAck(p).completed| >= |p.completed|
  {
    CompleteSends(p.(queue := p.queue[0 := p.queue[0].(acknowledged := true)]), true, 0);
  }

  /** Every event sends at most one byte, for the command that is at the head of the queue after it,
      and so never for one that is completed or still waits. */
  lemma StepSends(p: Protocol, e: Event)
    requires Orderly(p)
    ensures SendsForHead(p, Handle(p, e))
    ensures |Handle(p, e).completed| >= |p.completed|
  {
    match e
    case Enqueue(r) =>
      if |p.queue| < MAX_COMMANDS {
        AddShape(p, r);
      }
    case Receive(b) =>
      if p.queue != [] {
        ResendSends(p);
        AckSends(p);
        CompleteSends(p, true, b);
      }
  }

  /** Bytes were sent for the commands in the order in which these were accepted, and for none behind
      the first that is not completed. */
  ghost predicate Forward(p: Protocol) {
    && (forall k :: 0 <= k < |p.sent| ==> p.sent[k].serial <= |p.completed| && p.sent[k].serial < |p.accepted|)
    && (forall j, k :: 0 <= j < k < |p.sent| ==> p.sent[j].serial <= p.sent[k].serial)
  }

  lemma StepForward(p: Protocol, q: Protocol)
    requires Forward(p) && Orderly(p) && Orderly(q) && SendsForHead(p, q)
    requires |q.completed| >= |p.completed|
    ensures Forward(q)
  {
    forall k | 0 <= k < |q.sent| ensures q.sent[k].serial <= |q.completed| && q.sent[k].serial < |q.accepted| {
      assert Permitted(q.sent[k], q.accepted);
      assert k < |p.sent| ==> q.sent[k] == p.sent[k];
    }
    forall j, k | 0 <= j < k < |q.sent| ensures q.sent[j].serial <= q.sent[k].serial {
      assert q.sent[j] == p.sent[j];
      assert if k < |p.sent| then q.sent[k] == p.sent[k] else q.sent[k].serial == |q.completed|;
    }
  }

  /** Over every run. */
  lemma {:induction false} RunForward(es: seq<Event>)
    ensures Forward(Run(IDLE, es))
  {
    if es != [] {
      var p := Run(IDLE, es[..|es| - 1]);
      var q := Handle(p, es[|es| - 1]);
      RunForward(es[..|es| - 1]);
      RunOrderly(es[..|es| - 1]);
      RunOrderly(es);
      StepSends(p, es[|es| - 1]);
      StepForward(p, q);
    }
  }

  /** A run after which a resend request is not answered with the byte sent last: with F0 acknowledged
      and its subcommand 02 sent, the keyboard asks for a resend and gets F0. */
  lemma {:induction false} ResendDiffers()
    ensures var es := [Enqueue(Request(CMD_SCAN_CODE_SET, true, 2, false, Client(0))), Receive(RESPONSE_ACK)];
            var (p, q) := (Run(IDLE, es), OnByte(Run(IDLE, es), RESPONSE_RESEND));
            p.sent == [Sent(0, 0xF0), Sent(0, 2)] && q.sent == [Sent(0, 0xF0), Sent(0, 2), Sent(0, 0xF0)]
  {
    var r := Request(CMD_SCAN_CODE_SET, true, 2, false, Client(0));
    var es := [Enqueue(r), Receive(RESPONSE_ACK)];
    assert es[..1] == [Enqueue(r)] && es[..1][..0] == [];
    var p := AddCommand(IDLE, r);
    assert Run(IDLE, es[..1]) == p;
    assert p.queue == [Command(r, 0, 0xF0, false, false, 0)] && p.sent == [Sent(0, 0xF0)];
    assert Run(IDLE, es) == OnAck(p);
  }
}
