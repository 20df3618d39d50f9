/** The initialisation of the keyboard, driven by whatever bytes the keyboard sends. */
module KeyboardInit {
  import opened PhysicalMemory
  import opened KeyboardProtocol

  /** The commands of a complete initialisation: F5, F0 02, F0 00 and F4. */
  const INIT_REQUESTS: seq<Request> :=
    [InitRequest(InitStart), InitRequest(DisableScan), InitRequest(SetScanSet2), InitRequest(GetScanSet)]

  /** kbd_initialize starts the first command; from then on only received bytes move things along. */
  function Started(): Protocol {
    ContinueInitialisation(IDLE, true, 0)
  }

  function InitRun(bs: seq<Byte>): Protocol {
    if bs == [] then Started() else OnByte(InitRun(bs[..|bs| - 1]), bs[|bs| - 1])
  }

  /** How many commands were queued by the time a state is entered. */
  function Queued(s: InitState): nat {
    match s
    case InitStart => 0
    case DisableScan => 1
    case SetScanSet2 => 2
    case GetScanSet => 3
    case EnableScan => 4
    case Initialized => 4
  }

  function Acks(bs: seq<Byte>): nat {
    if bs == [] then 0
    else Acks(bs[..|bs| - 1]) + if bs[|bs| - 1] == RESPONSE_ACK then 1 else 0
  }

  /** Acknowledgements it takes to get `n` commands of the initialisation done. */
  function AcksFor(n: nat): nat {
    if n == 0 then 0 else if n == 1 then 1 else if n == 2 then 3 else if n == 3 then 5 else 6
  }

  /** Acknowledgements the head command has had so far. */
  function HeadAcks(c: Command): nat {
    (if c.subSent then 1 else 0) + (if c.acknowledged then 1 else 0)
  }

  ghost predicate AllSucceeded(p: Protocol, n: nat) {
    |p.completed| == n && forall i :: 0 <= i < n ==> p.completed[i].success
  }

  ghost predicate InitSound(p: Protocol, acks: nat) {
    && !p.init.InitStart?
    && p.accepted == INIT_REQUESTS[..Queued(p.init)]
    && |p.queue| == (if p.finished then 0 else 1)
    && (!p.finished ==>
          && !p.init.Initialized? && AllSucceeded(p, Queued(p.init) - 1)
          && acks >= AcksFor(|p.completed|) + HeadAcks(p.queue[0]))
    && (p.finished && !p.init.Initialized? ==>
          && p.completed != []
          && var last := p.completed[|p.completed| - 1];
             !last.success || (p.init.GetScanSet? && last.response != 2))
    && (p.init.Initialized? ==> p.finished && AllSucceeded(p, 4) && acks >= 6)
    && (p.init.EnableScan? || p.init.Initialized? ==>
          |p.completed| >= 3 && p.completed[2].response == 2 && p.scanCodeSet == 2)
  }

  lemma QueuedPrefix(s: InitState)
    requires !s.InitStart? && !s.EnableScan? && !s.Initialized?
    ensures INIT_REQUESTS[..Queued(s)] + [InitRequest(s)] == INIT_REQUESTS[..Queued(s) + 1]
  {
  }

  /** The head command is the request its place in the sequence says. */
  lemma HeadRequest(p: Protocol, acks: nat)
    requires Orderly(p) && InitSound(p, acks) && !p.finished
    ensures |p.queue| == 1 && p.queue[0].request == INIT_REQUESTS[Queued(p.init) - 1]
    ensures p.queue[0].request.onComplete.ContinueInit?
  {
    assert p.queue[0].request == p.accepted[|p.completed| + 0];
  }

  lemma CompleteInit(p: Protocol, success: bool, response: Byte, before: nat, acks: nat)
    requires Orderly(p) && InitSound(p, before) && !p.finished
    requires success ==> acks >= AcksFor(Queued(p.init))
    ensures InitSound(Complete(p, success, response), acks)
  {
    HeadRequest(p, before);
    var q := Complete(p, success, response);
    var r := p.(completed := p.completed + [Completion(p.queue[0].serial, ContinueInit, success, response)]);
    assert q == NextCommand(ContinueInitialisation(r, success, response));
    if success && !p.init.EnableScan? && !(p.init.GetScanSet? && response != 2) {
      QueuedPrefix(p.init);
      var s := ContinueInitialisation(r, success, response);
      assert s.queue == p.queue + [Fresh(InitRequest(p.init), |p.accepted|)];
      assert q.queue == [Fresh(InitRequest(p.init), |p.accepted|)];
    }
  }

  lemma ResendStep(p: Protocol, acks: nat)
    requires Orderly(p) && InitSound(p, acks) && !p.finished
    ensures InitSound(OnResend(p), acks)
  {
    HeadRequest(p, acks);
    var c' := Resent(p.queue[0]);
    if c'.resends > MAX_RESENDS {
      CompleteInitHead(p.(queue := p.queue[0 := c']), false, 0, acks);
    }
  }

  lemma InitStep(p: Protocol, b: Byte, acks: nat)
    requires Orderly(p) && InitSound(p, acks)
    ensures InitSound(OnByte(p, b), acks + if b == RESPONSE_ACK then 1 else 0)
  {
    if !p.finished {
      HeadRequest(p, acks);
      if b == RESPONSE_RESEND {
        ResendStep(p, acks);
      } else if b == RESPONSE_ACK {
        AckStep(p, acks);
      } else if p.queue[0].acknowledged {
        CompleteInit(p, true, b, acks, acks);
      }
    }
  }

  lemma CompleteInitHead(p: Protocol, success: bool, response: Byte, acks: nat)
    requires InitSound(p, acks) && !p.finished && p.queue[0].request.onComplete.ContinueInit? && !success
    ensures InitSound(Complete(p, success, response), acks)
  {
    var r := p.(completed := p.completed + [Completion(p.queue[0].serial, ContinueInit, success, response)]);
    assert Complete(p, success, response) == NextCommand(r.(finished := true));
  }

  lemma AckStep(p: Protocol, acks: nat)
    requires Orderly(p) && InitSound(p, acks) && !p.finished
    ensures InitSound(OnAck(p), acks + 1)
  {
    HeadRequest(p, acks);
    var c := p.queue[0];
    if !(c.request.hasSub && !c.subSent) && !c.request.hasResponse {
      var q := p.(queue := p.queue[0 := c.(acknowledged := true)]);
      assert Complete(q, true, 0) == OnAck(p);
      CompleteAcked(p, q, acks);
    }
  }

  lemma CompleteAcked(p: Protocol, q: Protocol, acks: nat)
    requires Orderly(p) && InitSound(p, acks) && !p.finished
    requires var c := p.queue[0]; q == p.(queue := p.queue[0 := c.(acknowledged := true)]) && !c.request.hasResponse
    requires var c := p.queue[0]; c.request.hasSub ==> c.subSent
    ensures InitSound(Complete(q, true, 0), acks + 1)
  {
    HeadRequest(p, acks);
    CompleteInit(p, true, 0, acks, acks + 1);
    assert Complete(q, true, 0) == Complete(p, true, 0);
  }

  lemma IdleOrderly(s: InitState)
    ensures Orderly(IDLE.(init := s))
  {
    assert forall n: nat :: SendsOf(IDLE.sent, n) == 0;
  }

  lemma {:induction false} StartedSound()
    ensures Orderly(Started()) && InitSound(Started(), 0)
  {
    var (p, r) := (IDLE.(init := DisableScan), InitRequest(InitStart));
    IdleOrderly(DisableScan);
    AddPreserves(p, r);
    AddShape(p, r);
    assert Started() == AddCommand(p, r);
    FirstSound(AddCommand(p, r));
  }

  lemma FirstSound(p: Protocol)
    requires p.queue == [Fresh(InitRequest(InitStart), 0)] && p.accepted == [InitRequest(InitStart)]
    requires p.init == DisableScan && !p.finished && p.completed == []
    ensures InitSound(p, 0)
  {
    assert INIT_REQUESTS[..1] == [InitRequest(InitStart)];
  }

  lemma {:induction false} InitRunSound(bs: seq<Byte>)
    ensures Orderly(InitRun(bs)) && InitSound(InitRun(bs), Acks(bs))
  {
    if bs == [] {
      StartedSound();
    } else {
      var (p, b, acks) := (InitRun(bs[..|bs| - 1]), bs[|bs| - 1], Acks(bs[..|bs| - 1]));
      InitRunSound(bs[..|bs| - 1]);
      HandlePreserves(p, Receive(b));
      InitStep(p, b, acks);
    }
  }

  /** Over every byte stream: the commands queued are a prefix of the four, never more than one waits,
      and waiting ends only with all four done, with a command that failed, or with the keyboard
      reporting another scan code set than 2. */
  lemma {:induction false} InitCommandsInOrder(bs: seq<Byte>)
    ensures var p := InitRun(bs);
            && p.accepted <= INIT_REQUESTS && |p.queue| <= 1
            && (p.finished <==> p.queue == [])
            && (p.finished && !p.init.Initialized? ==>
                  && p.completed != []
                  && var last := p.completed[|p.completed| - 1];
                     !last.success || (p.init.GetScanSet? && last.response != 2))
  {
    InitRunSound(bs);
    SoundInOrder(InitRun(bs), Acks(bs));
  }

  lemma SoundInOrder(p: Protocol, acks: nat)
    requires InitSound(p, acks)
    ensures p.accepted <= INIT_REQUESTS && |p.queue| <= 1 && (p.finished <==> p.queue == [])
  {
    TakePrefix(INIT_REQUESTS, Queued(p.init));
  }

  lemma TakePrefix(rs: seq<Request>, n: nat)
    requires n <= |rs|
    ensures rs[..n] <= rs
  {
  }

  /** The driver counts as initialised only after all four commands succeeded, which took at least
      six acknowledgements, and the keyboard reported scan code set 2. */
  lemma {:induction false} InitializedOnlyWhenDone(bs: seq<Byte>)
    requires InitRun(bs).init.Initialized?
    ensures var p := InitRun(bs);
            && p.finished && p.accepted == INIT_REQUESTS && p.queue == []
            && AllSucceeded(p, 4) && Acks(bs) >= 6
            && p.completed[2].response == 2 && p.scanCodeSet == 2
  {
    InitRunSound(bs);
  }

  lemma InitRunAppend(bs: seq<Byte>, b: Byte)
    ensures InitRun(bs + [b]) == OnByte(InitRun(bs), b)
  {
    assert (bs + [b])[..|bs|] == bs;
  }

  /** The bytes sent to the keyboard. */
  function SentBytes(sent: seq<Sent>): (bs: seq<Byte>)
    ensures |bs| == |sent|
  {
    seq(|sent|, i requires 0 <= i < |sent| => sent[i].byte)
  }

  /** One command of the initialisation is under way, `bytes` were sent and none was taken for a scancode. */
  ghost predicate Underway(p: Protocol, s: InitState, r: Request, subSent: bool, acknowledged: bool, bytes: seq<Byte>) {
    && |p.queue| == 1 && p.init == s
    && p.queue[0].request == r && p.queue[0].subSent == subSent && p.queue[0].acknowledged == acknowledged
    && SentBytes(p.sent) == bytes && p.scancodes == []
  }

  function Following(s: InitState): InitState
    requires !s.Initialized?
  {
    match s
    case InitStart => DisableScan
    case DisableScan => SetScanSet2
    case SetScanSet2 => GetScanSet
    case GetScanSet => EnableScan
    case EnableScan => Initialized
  }

  lemma SubAcked(p: Protocol, s: InitState, r: Request, bytes: seq<Byte>)
    requires Underway(p, s, r, false, false, bytes) && r.hasSub
    ensures Underway(OnByte(p, 0xFA), s, r, true, false, bytes + [r.sub])
  {
    assert OnByte(p, 0xFA).sent == p.sent + [Sent(p.queue[0].serial, r.sub)];
  }

  lemma SentAppend(sent: seq<Sent>, x: Sent)
    ensures SentBytes(sent + [x]) == SentBytes(sent) + [x.byte]
  {
  }

  /** Done with one command, the driver goes on to the next. */
  lemma {:induction false} CompletedNext(p: Protocol, s: InitState, response: Byte, bytes: seq<Byte>)
    requires |p.queue| == 1 && p.init == s && p.queue[0].request.onComplete.ContinueInit? && SentBytes(p.sent) == bytes && p.scancodes == []
    requires s != EnableScan && s != Initialized && (s == GetScanSet ==> response == 2)
    ensures Underway(Complete(p, true, response), Following(s), InitRequest(s), false, false, bytes + [InitRequest(s).code])
  {
    var added := CompleteShape(p, true, response);
    var q := Complete(p, true, response);
    SentAppend(p.sent, Sent(q.queue[0].serial, q.queue[0].code));
  }

  lemma {:induction false} Answered(p: Protocol, s: InitState, r: Request, sub: bool, acknowledged: bool, b: Byte, bytes: seq<Byte>)
    requires Underway(p, s, r, sub, acknowledged, bytes) && r.onComplete.ContinueInit? && (r.hasSub ==> sub)
    requires if acknowledged then b == 2 else b == 0xFA && !r.hasResponse && s != GetScanSet
    requires s != EnableScan && s != Initialized
    ensures Underway(OnByte(p, b), Following(s), InitRequest(s), false, false, bytes + [InitRequest(s).code])
  {
    if acknowledged {
      CompletedNext(p, s, b, bytes);
    } else {
      CompletedNext(p.(queue := p.queue[0 := p.queue[0].(acknowledged := true)]), s, 0, bytes);
    }
  }

  lemma InitRunTwo(bs: seq<Byte>, x: Byte, y: Byte)
    ensures InitRun(bs + [x, y]) == OnByte(OnByte(InitRun(bs), x), y)
  {
    assert bs + [x, y] == bs + [x] + [y];
    InitRunAppend(bs, x);
    InitRunAppend(bs + [x], y);
  }

  /** A keyboard that acknowledges every byte and reports set 2 is initialised by its seven answers: it
      is sent F5, F0 02, F0 00 and F4, and none of its answers is taken for a scancode. */
  lemma HealthyKeyboardInitialised()
    ensures var p := InitRun([0xFA, 0xFA] + [0xFA, 0xFA] + [0xFA, 2] + [0xFA]);
            && p.init.Initialized? && p.finished && p.scancodes == []
            && SentBytes(p.sent) == [0xF5, 0xF0, 0x02, 0xF0, 0x00, 0xF4]
  {
    var two: seq<Byte> := [0xFA, 0xFA];
    var four := two + [0xFA, 0xFA];
    var six := four + [0xFA, 2];
    assert [] + two == two;
    InitRunTwo([], 0xFA, 0xFA);
    InitRunTwo(two, 0xFA, 0xFA);
    InitRunTwo(four, 0xFA, 2);
    InitRunAppend(six, 0xFA);
    var (p0, p2, p4, p6) := (InitRun([]), InitRun(two), InitRun(four), InitRun(six));
    SevenAnswers(p0, OnByte(p0, 0xFA), p2, OnByte(p2, 0xFA), p4, OnByte(p4, 0xFA), p6);
  }

  lemma {:induction false} SevenAnswers(p0: Protocol, p1: Protocol, p2: Protocol, p3: Protocol, p4: Protocol, p5: Protocol, p6: Protocol)
    requires p0 == Started()
    requires p1 == OnByte(p0, 0xFA) && p2 == OnByte(p1, 0xFA) && p3 == OnByte(p2, 0xFA)
    requires p4 == OnByte(p3, 0xFA) && p5 == OnByte(p4, 0xFA) && p6 == OnByte(p5, 2)
    ensures var p := OnByte(p6, 0xFA);
            && p.init.Initialized? && p.finished && p.scancodes == []
            && SentBytes(p.sent) == [0xF5, 0xF0, 0x02, 0xF0, 0x00, 0xF4]
  {
    ThreeAnswers(p0, p1, p2, p3);
    FourAnswers(p3, p4, p5, p6);
  }

  lemma {:induction false} ThreeAnswers(p0: Protocol, p1: Protocol, p2: Protocol, p3: Protocol)
    requires p0 == Started() && p1 == OnByte(p0, 0xFA) && p2 == OnByte(p1, 0xFA) && p3 == OnByte(p2, 0xFA)
    ensures Underway(p3, GetScanSet, InitRequest(SetScanSet2), false, false, [0xF5, 0xF0, 0x02, 0xF0])
  {
    var x0: seq<Byte> := [0xF5];
    assert Underway(p0, DisableScan, InitRequest(InitStart), false, false, x0);
    Answered(p0, DisableScan, InitRequest(InitStart), false, false, 0xFA, x0);
    SubAcked(p1, SetScanSet2, InitRequest(DisableScan), x0 + [0xF0]);
    Answered(p2, SetScanSet2, InitRequest(DisableScan), true, false, 0xFA, x0 + [0xF0] + [0x02]);
    assert x0 + [0xF0] + [0x02] + [0xF0] == [0xF5, 0xF0, 0x02, 0xF0];
  }

  lemma {:induction false} FourAnswers(p3: Protocol, p4: Protocol, p5: Protocol, p6: Protocol)
    requires Underway(p3, GetScanSet, InitRequest(SetScanSet2), false, false, [0xF5, 0xF0, 0x02, 0xF0])
    requires p4 == OnByte(p3, 0xFA) && p5 == OnByte(p4, 0xFA) && p6 == OnByte(p5, 2)
    ensures var p := OnByte(p6, 0xFA);
            && p.init.Initialized? && p.finished && p.scancodes == []
            && SentBytes(p.sent) == [0xF5, 0xF0, 0x02, 0xF0, 0x00, 0xF4]
  {
    var x3: seq<Byte> := [0xF5, 0xF0, 0x02, 0xF0];
    SubAcked(p3, GetScanSet, InitRequest(SetScanSet2), x3);
    ResponseAwaited(p4, GetScanSet, InitRequest(SetScanSet2), x3 + [0x00]);
    Answered(p5, GetScanSet, InitRequest(SetScanSet2), true, true, 2, x3 + [0x00]);
    LastAnswered(p6, InitRequest(GetScanSet), x3 + [0x00] + [0xF4]);
    assert x3 + [0x00] + [0xF4] == [0xF5, 0xF0, 0x02, 0xF0, 0x00, 0xF4];
  }

  lemma ResponseAwaited(p: Protocol, s: InitState, r: Request, bytes: seq<Byte>)
    requires Underway(p, s, r, true, false, bytes) && r.hasResponse
    ensures Underway(OnByte(p, 0xFA), s, r, true, true, bytes)
  {
  }

  lemma LastAnswered(p: Protocol, r: Request, bytes: seq<Byte>)
    requires Underway(p, EnableScan, r, false, false, bytes) && r.onComplete.ContinueInit? && !r.hasSub && !r.hasResponse
    ensures var q := OnByte(p, 0xFA); q.init.Initialized? && q.finished && q.scancodes == [] && SentBytes(q.sent) == bytes
  {
  }
}
