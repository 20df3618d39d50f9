/** What becomes of every byte that the keyboard sends: part of the command protocol, or a scancode for the decoder. */
module KeyboardBytes {
  import opened PhysicalMemory
  import opened KeyboardProtocol
  import opened KeyboardInit
  import S = Scancodes

  /** The bytes received in a run, in order. */
  function Received(es: seq<Event>): seq<Byte> {
    if es == [] then []
    else Received(es[..|es| - 1]) + match es[|es| - 1] case Receive(b) => [b] case Enqueue(_) => []
  }

  /** The command at the head of the queue takes the byte: a resend request, an acknowledgement, or the
      answer it has been waiting for since it was acknowledged. */
  predicate Taken(p: Protocol, b: Byte) {
    p.queue != [] && (b == 0xFE || b == 0xFA || p.queue[0].acknowledged)
  }

  /** The received bytes that no command took, each judged by the moment at which it came. */
  function Passed(es: seq<Event>): seq<Byte> {
    if es == [] then []
    else
      var before := es[..|es| - 1];
      Passed(before) + match es[|es| - 1]
                       case Receive(b) => (if Taken(Run(IDLE, before), b) then [] else [b])
                       case Enqueue(_) => []
  }

  /** How many bytes commands took as resend requests, as acknowledgements and as answers. */
  function TakenAs(es: seq<Event>): (n: (nat, nat, nat)) {
    if es == [] then (0, 0, 0)
    else
      var (before, (resends, acks, answers)) := (es[..|es| - 1], TakenAs(es[..|es| - 1]));
      match es[|es| - 1]
      case Enqueue(_) => (resends, acks, answers)
      case Receive(b) =>
        if !Taken(Run(IDLE, before), b) then (resends, acks, answers)
        else if b == 0xFE then (resends + 1, acks, answers)
        else if b == 0xFA then (resends, acks + 1, answers)
        else (resends, acks, answers + 1)
  }

  lemma ByteKept(p: Protocol, b: Byte)
    ensures OnByte(p, b).scancodes == p.scancodes + if Taken(p, b) then [] else [b]
    ensures Taken(p, b) && b != 0xFE && b != 0xFA ==> |OnByte(p, b).completed| == |p.completed| + 1
    ensures |OnByte(p, b).completed| >= |p.completed|
  {
    if p.queue != [] {
      var (resent, acked) := (p.(queue := p.queue[0 := Resent(p.queue[0])]), p.(queue := p.queue[0 := p.queue[0].(acknowledged := true)]));
      var _ := CompleteShape(resent, false, 0);
      var _ := CompleteShape(acked, true, 0);
      var _ := CompleteShape(p, true, b);
    }
  }

  lemma PassedOrTaken(p: Protocol, b: Byte)
    ensures OnByte(p, b).scancodes == p.scancodes + if Taken(p, b) then [] else [b]
  {
    ByteKept(p, b);
  }

  lemma EventKept(p: Protocol, r: Request)
    ensures AddCommand(p, r).scancodes == p.scancodes && AddCommand(p, r).completed == p.completed
  {
  }

  /** Over every run the decoder gets, in order, exactly the received bytes that no command took. Every
      received byte is accounted for, and each answer taken completes a command. */
  lemma {:induction false} BytesAccountedFor(es: seq<Event>)
    ensures Run(IDLE, es).scancodes == Passed(es)
    ensures var (resends, acks, answers) := TakenAs(es);
            |Received(es)| == |Passed(es)| + resends + acks + answers && answers <= |Run(IDLE, es).completed|
  {
    if es != [] {
      var (before, e) := (es[..|es| - 1], es[|es| - 1]);
      BytesAccountedFor(before);
      match e
      case Receive(b) => ByteKept(Run(IDLE, before), b);
      case Enqueue(r) => EventKept(Run(IDLE, before), r);
    }
  }

  /** Without a command everything received is passed on. */
  lemma {:induction false} NothingTaken(es: seq<Event>)
    requires forall i :: 0 <= i < |es| ==> es[i].Receive?
    ensures Run(IDLE, es).queue == [] && Run(IDLE, es).scancodes == Received(es)
  {
    if es != [] {
      NothingTaken(es[..|es| - 1]);
    }
  }

  lemma PassedOn(p: Protocol, b: Byte)
    requires p.queue == []
    ensures OnByte(p, b) == p.(scancodes := p.scancodes + [b])
  {
  }

  lemma {:induction false} PassedIdle(bs: seq<Byte>, cs: seq<Byte>, p: Protocol)
    requires p == InitRun(bs) && p.queue == []
    ensures InitRun(bs + cs) == p.(scancodes := p.scancodes + cs)
    decreases |cs|
  {
    if cs == [] {
      assert bs + cs == bs && p.scancodes + cs == p.scancodes;
    } else {
      var (front, b) := (cs[..|cs| - 1], cs[|cs| - 1]);
      PassedIdle(bs, front, p);
      assert bs + cs == bs + front + [b] && p.scancodes + cs == p.scancodes + front + [b];
      InitRunAppend(bs + front, b);
      PassedOn(p.(scancodes := p.scancodes + front), b);
    }
  }

  /** Once the initialisation is over, every byte is passed on. */
  lemma PassedAfterwards(bs: seq<Byte>, cs: seq<Byte>)
    requires InitRun(bs).finished
    ensures InitRun(bs + cs) == InitRun(bs).(scancodes := InitRun(bs).scancodes + cs)
  {
    InitCommandsInOrder(bs);
    PassedIdle(bs, cs, InitRun(bs));
  }

  /** From then on keys pressed and released give one event each, with their keycode and direction, if
      the decoder was not left within a scancode. */
  lemma KeysAfterwards(bs: seq<Byte>, d: S.Decoder, cs: seq<S.Code>)
    requires InitRun(bs).finished && S.PressAll(d, InitRun(bs).scancodes).bytes == []
    requires forall i :: 0 <= i < |cs| ==> S.Distinct(cs[i])
    ensures var e := S.PressAll(d, InitRun(bs).scancodes);
            S.PressAll(d, InitRun(bs + S.EncodeAll(cs)).scancodes)
            == S.Decoder([], S.KeysAfter(e.keys, cs), e.events + S.EventsOf(e.keys, cs))
  {
    PassedAfterwards(bs, S.EncodeAll(cs));
    S.PressAllConcat(d, InitRun(bs).scancodes, S.EncodeAll(cs));
    S.StreamDecoded(S.PressAll(d, InitRun(bs).scancodes), cs);
  }

  // ----- one command from beginning to end -----

  /** What a keyboard sends that takes every byte of a command: an acknowledgement each, and the answer. */
  function Replies(r: Request, answer: Byte): seq<Byte> {
    [0xFA] + (if r.hasSub then [0xFA] else []) + (if r.hasResponse then [answer] else [])
  }

  function AllBytes(p: Protocol, bs: seq<Byte>): Protocol
    decreases |bs|
  {
    if bs == [] then p else AllBytes(OnByte(p, bs[0]), bs[1..])
  }

  /** The bytes of a command are sent one after the other, each when the one before was acknowledged; the
      command is then complete, with the answer if it has one, and no byte reaches the decoder. */
  lemma {:induction false} CommandServed(p: Protocol, r: Request, answer: Byte)
    requires p.queue == [] && r.onComplete.Client? && (r.hasResponse ==> answer != 0xFA && answer != 0xFE)
    ensures var (q, n) := (AllBytes(AddCommand(p, r), Replies(r, answer)), |p.accepted|);
            && q.queue == [] && q.scancodes == p.scancodes && q.accepted == p.accepted + [r]
            && q.sent == p.sent + [Sent(n, r.code)] + (if r.hasSub then [Sent(n, r.sub)] else [])
            && q.completed == p.completed + [Completion(n, r.onComplete, true, if r.hasResponse then answer else 0)]
  {
    var p1 := AddCommand(p, r);
    var head := p1.queue[0];
    assert p1.queue == [head] && head == Fresh(r, |p.accepted|);
    var rest := if r.hasResponse then [answer] else [];
    if r.hasSub {
      assert Replies(r, answer)[1..] == [0xFA] + rest;
      var p2 := OnByte(p1, 0xFA);
      assert p2.queue == [head.(subSent := true, resends := 0)];
      Acknowledged(p2, head.(subSent := true, resends := 0), answer);
    } else {
      assert Replies(r, answer) == [0xFA] + rest;
      Acknowledged(p1, head, answer);
    }
  }

  /** The last acknowledgement, and the answer. */
  lemma {:induction false} Acknowledged(p: Protocol, c: Command, answer: Byte)
    requires p.queue == [c] && c.request.onComplete.Client? && (c.request.hasSub ==> c.subSent)
    requires c.request.hasResponse ==> answer != 0xFA && answer != 0xFE
    ensures var r := c.request;
            AllBytes(p, [0xFA] + (if r.hasResponse then [answer] else []))
            == p.(queue := [], completed := p.completed + [Completion(c.serial, r.onComplete, true, if r.hasResponse then answer else 0)])
  {
    var done := p.(queue := [c.(acknowledged := true)]);
    if c.request.hasResponse {
      var bs := [0xFA] + [answer];
      assert bs[1..] == [answer] && [answer][1..] == [];
      assert p.queue[0 := c.(acknowledged := true)] == done.queue;
      assert OnByte(p, 0xFA) == done;
      assert AllBytes(p, bs) == AllBytes(OnByte(p, 0xFA), [answer]) == AllBytes(OnByte(done, answer), []);
    } else {
      assert ([0xFA] + [])[1..] == [];
      assert p.queue[0 := c.(acknowledged := true)] == done.queue;
      assert AllBytes(p, [0xFA] + []) == AllBytes(OnByte(p, 0xFA), []);
    }
  }

  /** Of a healthy keyboard, then, the decoder gets the keys and nothing else. */
  lemma KeysOfHealthyKeyboard(d: S.Decoder, cs: seq<S.Code>)
    requires d.bytes == [] && forall i :: 0 <= i < |cs| ==> S.Distinct(cs[i])
    ensures var bs := [0xFA, 0xFA] + [0xFA, 0xFA] + [0xFA, 2] + [0xFA];
            S.PressAll(d, InitRun(bs + S.EncodeAll(cs)).scancodes)
            == S.Decoder([], S.KeysAfter(d.keys, cs), d.events + S.EventsOf(d.keys, cs))
  {
    HealthyKeyboardInitialised();
    KeysAfterwards([0xFA, 0xFA] + [0xFA, 0xFA] + [0xFA, 2] + [0xFA], d, cs);
  }

  /** The fourth resend request in a row makes the driver give a command up: it was sent four times in
      all, and is complete without success. */
  lemma {:induction false} CommandGivenUp(p: Protocol, r: Request)
    requires p.queue == [] && r.onComplete.Client?
    ensures var (q, n) := (AllBytes(AddCommand(p, r), [0xFE, 0xFE, 0xFE, 0xFE]), |p.accepted|);
            && q.queue == [] && q.scancodes == p.scancodes
            && q.sent == p.sent + [Sent(n, r.code), Sent(n, r.code), Sent(n, r.code), Sent(n, r.code)]
            && q.completed == p.completed + [Completion(n, r.onComplete, false, 0)]
  {
    var p0 := AddCommand(p, r);
    var c := Fresh(r, |p.accepted|);
    var p1 := OnByte(p0, 0xFE);
    var p2 := OnByte(p1, 0xFE);
    var p3 := OnByte(p2, 0xFE);
    assert p0.queue == [c];
    ResentOnce(p0, c);
    ResentOnce(p1, c.(resends := 1));
    ResentOnce(p2, c.(resends := 2));
    var p4 := OnByte(p3, 0xFE);
    assert p4.queue == [];
    FourBytes(p0, 0xFE, 0xFE, 0xFE, 0xFE);
  }

  lemma {:induction false} ResentOnce(p: Protocol, c: Command)
    requires p.queue == [c] && c.resends < 3 && !c.subSent
    ensures OnByte(p, 0xFE) == p.(queue := [c.(resends := c.resends + 1)], sent := p.sent + [Sent(c.serial, c.code)])
  {
    assert p.queue[0 := Resent(c)] == [Resent(c)];
  }

  lemma {:induction false} FourBytes(p: Protocol, a: Byte, b: Byte, c: Byte, d: Byte)
    ensures AllBytes(p, [a, b, c, d]) == OnByte(OnByte(OnByte(OnByte(p, a), b), c), d)
  {
    assert [a, b, c, d][1..] == [b, c, d] && [b, c, d][1..] == [c, d] && [c, d][1..] == [d] && [d][1..] == [];
    assert AllBytes(OnByte(OnByte(OnByte(p, a), b), c), [d]) == OnByte(OnByte(OnByte(OnByte(p, a), b), c), d);
    assert AllBytes(OnByte(OnByte(p, a), b), [c, d]) == AllBytes(OnByte(OnByte(OnByte(p, a), b), c), [d]);
  }

  function Requests(rs: seq<Request>): (es: seq<Event>)
    ensures |es| == |rs|
  {
    if rs == [] then [] else Requests(rs[..|rs| - 1]) + [Enqueue(rs[|rs| - 1])]
  }

  /** Nothing but the first of the requests was sent, and those accepted wait. */
  ghost predicate Waits(p: Protocol, rs: seq<Request>) {
    && p.accepted == rs && |p.queue| == |rs| && (forall i :: 0 <= i < |rs| ==> p.queue[i].request == rs[i])
    && p.sent == (if rs == [] then [] else [Sent(0, rs[0].code)]) && p.completed == [] && p.scancodes == []
  }

  lemma {:induction false} OneMoreWaits(p: Protocol, rs: seq<Request>, r: Request)
    requires Waits(p, rs) && |rs| < 10
    ensures Waits(AddCommand(p, r), rs + [r])
  {
    AddShape(p, r);
  }

  lemma {:induction false} OneMoreRefused(p: Protocol, rs: seq<Request>, r: Request)
    requires Waits(p, rs) && |rs| == 10
    ensures AddCommand(p, r) == p
  {
  }

  lemma {:induction false} RequestsNext(rs: seq<Request>)
    requires rs != []
    ensures Run(IDLE, Requests(rs)) == AddCommand(Run(IDLE, Requests(rs[..|rs| - 1])), rs[|rs| - 1])
  {
    assert Requests(rs)[..|rs| - 1] == Requests(rs[..|rs| - 1]);
  }

  /** While the keyboard is silent ten requests are accepted and the others refused; only the first is sent. */
  lemma {:induction false} TenWait(rs: seq<Request>)
    ensures Waits(Run(IDLE, Requests(rs)), rs[..if |rs| < 10 then |rs| else 10])
  {
    if rs != [] {
      var (front, r) := (rs[..|rs| - 1], rs[|rs| - 1]);
      TenWait(front);
      RequestsNext(rs);
      var p := Run(IDLE, Requests(front));
      if |front| < 10 {
        assert front[..|front|] == front && rs[..|rs|] == front + [r];
        OneMoreWaits(p, front, r);
      } else {
        assert rs[..10] == front[..10];
        OneMoreRefused(p, front[..10], r);
      }
    }
  }
}
