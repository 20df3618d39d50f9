/**
 The command protocol of the keyboard driver, on values: commands wait in a
 queue, the head one is sent, resent, acknowledged and completed byte by byte.
 */
module KeyboardProtocol {
  import opened PhysicalMemory

  const MAX_COMMANDS: int := 10
  const MAX_RESENDS: int := 3

  const RESPONSE_ACK: Byte := 0xFA
  const RESPONSE_RESEND: Byte := 0xFE

  const CMD_SCAN_CODE_SET: Byte := 0xF0
  const CMD_ENABLE_SCAN: Byte := 0xF4
  const CMD_DISABLE_SCAN: Byte := 0xF5

  datatype InitState = InitStart | DisableScan | SetScanSet2 | GetScanSet | EnableScan | Initialized

  /** What a command does when it is done: drive the initialisation on, or tell some other client. */
  datatype Callback = ContinueInit | Client(id: int)

  datatype Request = Request(code: Byte, hasSub: bool, sub: Byte, hasResponse: bool, onComplete: Callback)

  /** A queued command. `code` may be overwritten; `request` is what was asked for and `serial` how
      many commands were accepted before it. */
  datatype Command = Command(request: Request, serial: nat, code: Byte, subSent: bool, acknowledged: bool, resends: nat)

  datatype Sent = Sent(serial: nat, byte: Byte)

  datatype Completion = Completion(serial: nat, callback: Callback, success: bool, response: Byte)

  datatype Protocol = Protocol(
    queue: seq<Command>,
    init: InitState, finished: bool, scanCodeSet: int,
    accepted: seq<Request>, sent: seq<Sent>, completed: seq<Completion>, scancodes: seq<Byte>)

  const IDLE: Protocol := Protocol([], InitStart, false, 0, [], [], [], [])

  function SendTo(p: Protocol, serial: nat, b: Byte): Protocol {
    p.(sent := p.sent + [Sent(serial, b)])
  }

  /** Queues a command, and starts it when it is the only one. A full queue refuses it. */
  function AddCommand(p: Protocol, r: Request): Protocol {
    if |p.queue| == MAX_COMMANDS then p
    else
      var c := Command(r, |p.accepted|, r.code, false, false, 0);
      var q := p.(queue := p.queue + [c], accepted := p.accepted + [r]);
      if |q.queue| == 1 then SendTo(q, c.serial, r.code) else q
  }

  /** Drops the head command and starts the next one. */
  function NextCommand(p: Protocol): Protocol
    requires p.queue != []
  {
    var q := p.(queue := p.queue[1..]);
    if q.queue != [] then SendTo(q, q.queue[0].serial, q.queue[0].code) else q
  }

  function InitRequest(s: InitState): Request
    requires !s.Initialized? && !s.EnableScan?
  {
    match s
    case InitStart => Request(CMD_DISABLE_SCAN, false, 0, false, ContinueInit)
    case DisableScan => Request(CMD_SCAN_CODE_SET, true, 2, false, ContinueInit)
    case SetScanSet2 => Request(CMD_SCAN_CODE_SET, true, 0, true, ContinueInit)
    case GetScanSet => Request(CMD_ENABLE_SCAN, false, 0, false, ContinueInit)
  }

  /** The next step of initialisation once a command of it is done. */
  function ContinueInitialisation(p: Protocol, success: bool, response: Byte): Protocol {
    if !success then p.(finished := true)
    else
      match p.init
      case InitStart => AddCommand(p.(init := DisableScan), InitRequest(InitStart))
      case DisableScan => AddCommand(p.(init := SetScanSet2), InitRequest(DisableScan))
      case SetScanSet2 => AddCommand(p.(init := GetScanSet), InitRequest(SetScanSet2))
      case GetScanSet =>
        if response != 2 then p.(finished := true)
        else AddCommand(p.(scanCodeSet := response, init := EnableScan), InitRequest(GetScanSet))
      case EnableScan => p.(init := Initialized, finished := true)
      case Initialized => p
  }

  /** Runs the head command's callback, which may queue further commands, and then drops it. */
  function Complete(p: Protocol, success: bool, response: Byte): Protocol
    requires p.queue != []
  {
    var c := p.queue[0];
    var q := p.(completed := p.completed + [Completion(c.serial, c.request.onComplete, success, response)]);
    NextCommand(if c.request.onComplete.ContinueInit? then ContinueInitialisation(q, success, response) else q)
  }

  function OnResend(p: Protocol): Protocol
    requires p.queue != []
  {
    var c := p.queue[0];
    var c' := c.(code := if c.subSent then c.request.sub else c.code, resends := c.resends + 1);
    var q := p.(queue := p.queue[0 := c']);
    if c'.resends <= MAX_RESENDS then SendTo(q, c.serial, c.code) else Complete(q, false, 0)
  }

  function OnAck(p: Protocol): Protocol
    requires p.queue != []
  {
    var c := p.queue[0];
    if c.request.hasSub && !c.subSent then
      SendTo(p.(queue := p.queue[0 := c.(subSent := true, resends := 0)]), c.serial, c.request.sub)
    else
      var q := p.(queue := p.queue[0 := c.(acknowledged := true)]);
      if c.request.hasResponse then q else Complete(q, true, 0)
  }

  /** One byte from the keyboard. */
  function OnByte(p: Protocol, b: Byte): Protocol {
    if p.queue == [] then p.(scancodes := p.scancodes + [b])
    else if b == RESPONSE_RESEND then OnResend(p)
    else if b == RESPONSE_ACK then OnAck(p)
    else if p.queue[0].acknowledged then Complete(p, true, b)
    else p.(scancodes := p.scancodes + [b])
  }

  /** What may happen to the driver: a byte arrives, or a client queues a command. */
  datatype Event = Receive(b: Byte) | Enqueue(r: Request)

  function Handle(p: Protocol, e: Event): Protocol {
    match e
    case Receive(b) => OnByte(p, b)
    case Enqueue(r) => AddCommand(p, r)
  }

  function Run(p: Protocol, es: seq<Event>): Protocol {
    if es == [] then p else Handle(Run(p, es[..|es| - 1]), es[|es| - 1])
  }

  // ----- every run -----

  /** How often a command was sent. */
  function SendsOf(sent: seq<Sent>, serial: nat): nat {
    if sent == [] then 0
    else SendsOf(sent[..|sent| - 1], serial) + if sent[|sent| - 1].serial == serial then 1 else 0
  }

  lemma SendsAppend(sent: seq<Sent>, x: Sent, serial: nat)
    ensures SendsOf(sent + [x], serial) == SendsOf(sent, serial) + if x.serial == serial then 1 else 0
  {
    assert (sent + [x])[..|sent|] == sent;
  }

  /** Commands leave the queue in the order they were accepted, each with exactly one completion. */
  ghost predicate InOrder(p: Protocol) {
    && |p.queue| <= MAX_COMMANDS
    && |p.accepted| == |p.completed| + |p.queue|
    && (forall i :: 0 <= i < |p.completed| ==>
          p.completed[i].serial == i && p.completed[i].callback == p.accepted[i].onComplete)
    && (forall j :: 0 <= j < |p.queue| ==>
          p.queue[j].serial == |p.completed| + j && p.queue[j].request == p.accepted[|p.completed| + j])
  }

  /** Commands behind the head one have not been touched. */
  ghost predicate Waiting(p: Protocol) {
    forall j :: 1 <= j < |p.queue| ==> p.queue[j] == Command(p.queue[j].request, p.queue[j].serial, p.queue[j].request.code, false, false, 0)
  }

  /** A byte sent for a command is its code or its subcommand. */
  predicate Permitted(s: Sent, accepted: seq<Request>) {
    s.serial < |accepted| &&
    var r := accepted[s.serial];
    s.byte == r.code || (r.hasSub && s.byte == r.sub)
  }

  ghost predicate AllPermitted(sent: seq<Sent>, accepted: seq<Request>) {
    forall k :: 0 <= k < |sent| ==> Permitted(sent[k], accepted)
  }

  /** Never more than eight bytes were sent for a command, and none for those behind the first `done`,
      or the one behind that if there is a head command. */
  ghost predicate SendsWithin(sent: seq<Sent>, done: int, idle: bool) {
    && (forall s: nat :: SendsOf(sent, s) <= 2 * (1 + MAX_RESENDS))
    && (forall s: nat :: s > done || (s == done && idle) ==> SendsOf(sent, s) == 0)
  }

  /** Nothing is sent for a command that is not yet the head one, and never more than eight bytes. */
  ghost predicate SendsBounded(p: Protocol) {
    AllPermitted(p.sent, p.accepted) && SendsWithin(p.sent, |p.completed|, p.queue == [])
  }

  /** The byte the head command sent last: the first resend of a subcommand sends the command byte. */
  function LastByte(c: Command): Byte {
    if !c.subSent || c.resends == 1 then c.request.code else c.request.sub
  }

  /** The head command agrees with what was asked and with how often it was sent. */
  ghost predicate HeadSound(p: Protocol) {
    p.queue != [] ==>
      var c := p.queue[0];
      && CommandSound(c, SendsOf(p.sent, c.serial))
      && p.sent != [] && p.sent[|p.sent| - 1] == Sent(c.serial, LastByte(c))
  }

  ghost predicate Orderly(p: Protocol) {
    InOrder(p) && Waiting(p) && SendsBounded(p) && HeadSound(p)
  }

  function Fresh(r: Request, serial: nat): Command {
    Command(r, serial, r.code, false, false, 0)
  }

  /** Accepting a request; `started` when the queue was empty. */
  lemma AddShape(p: Protocol, r: Request)
    requires |p.queue| < MAX_COMMANDS
    ensures var q := AddCommand(p, r);
            && q.queue == p.queue + [Fresh(r, |p.accepted|)] && q.accepted == p.accepted + [r]
            && q.completed == p.completed && q.scancodes == p.scancodes
            && q.sent == p.sent + (if p.queue == [] then [Sent(|p.accepted|, r.code)] else [])
  {
  }

  lemma PermittedLater(sent: seq<Sent>, accepted: seq<Request>, accepted': seq<Request>)
    requires accepted <= accepted' && AllPermitted(sent, accepted)
    ensures AllPermitted(sent, accepted')
  {
    forall k | 0 <= k < |sent|
      ensures Permitted(sent[k], accepted')
    {
      assert Permitted(sent[k], accepted);
    }
  }

  lemma PermittedMore(sent: seq<Sent>, x: Sent, accepted: seq<Request>)
    requires AllPermitted(sent, accepted) && Permitted(x, accepted)
    ensures AllPermitted(sent + [x], accepted)
  {
  }

  lemma SendsAppendAll(sent: seq<Sent>, x: Sent)
    ensures forall s: nat :: SendsOf(sent + [x], s) == SendsOf(sent, s) + if x.serial == s then 1 else 0
  {
    forall s: nat
      ensures SendsOf(sent + [x], s) == SendsOf(sent, s) + if x.serial == s then 1 else 0
    {
      SendsAppend(sent, x, s);
    }
  }

  /** One more byte for the head command. */
  lemma WithinMore(sent: seq<Sent>, done: nat, x: Sent)
    requires SendsWithin(sent, done, false) && x.serial == done && SendsOf(sent, done) < 2 * (1 + MAX_RESENDS)
    ensures SendsWithin(sent + [x], done, false) && SendsOf(sent + [x], done) == SendsOf(sent, done) + 1
  {
    SendsAppendAll(sent, x);
  }

  /** The first byte for a command that has become the head one. */
  lemma WithinFirst(sent: seq<Sent>, done: nat, x: Sent)
    requires SendsWithin(sent, done, true) && x.serial == done
    ensures SendsWithin(sent + [x], done, false) && SendsOf(sent + [x], done) == 1
  {
    SendsAppendAll(sent, x);
  }

  /** The head command is done. */
  lemma WithinDone(sent: seq<Sent>, done: nat)
    requires SendsWithin(sent, done, false)
    ensures SendsWithin(sent, done + 1, true)
  {
  }

  lemma AddSends(p: Protocol, r: Request, q: Protocol)
    requires SendsBounded(p) && |p.accepted| == |p.completed| + |p.queue|
    requires q.queue != [] && q.completed == p.completed && q.accepted == p.accepted + [r]
    requires q.sent == p.sent + (if p.queue == [] then [Sent(|p.accepted|, r.code)] else [])
    ensures SendsBounded(q)
    ensures p.queue == [] ==> SendsOf(q.sent, |p.accepted|) == 1
  {
    PermittedLater(p.sent, p.accepted, q.accepted);
    if p.queue == [] {
      var x := Sent(|p.accepted|, r.code);
      PermittedMore(p.sent, x, q.accepted);
      WithinFirst(p.sent, |p.completed|, x);
    } else {
      assert q.sent == p.sent;
    }
  }

  lemma AddPreserves(p: Protocol, r: Request)
    requires Orderly(p)
    ensures Orderly(AddCommand(p, r))
  {
    if |p.queue| < MAX_COMMANDS {
      var q := AddCommand(p, r);
      AddShape(p, r);
      AddSends(p, r, q);
      AddInOrder(p, r, q);
    }
  }

  lemma AddInOrder(p: Protocol, r: Request, q: Protocol)
    requires InOrder(p) && Waiting(p) && |p.queue| < MAX_COMMANDS
    requires q.queue == p.queue + [Fresh(r, |p.accepted|)] && q.accepted == p.accepted + [r] && q.completed == p.completed
    ensures InOrder(q) && Waiting(q)
  {
  }

  /** What the callback does while the finished command is still at the head: it may queue a request. */
  lemma ContinueShape(p: Protocol, success: bool, response: Byte) returns (added: seq<Request>)
    requires p.queue != []
    ensures |added| <= 1 && (|p.queue| == MAX_COMMANDS ==> added == [])
    ensures var q := ContinueInitialisation(p, success, response);
            && q.queue == p.queue + (if added == [] then [] else [Fresh(added[0], |p.accepted|)])
            && q.accepted == p.accepted + added
            && q.completed == p.completed && q.sent == p.sent && q.scancodes == p.scancodes
  {
    var q := ContinueInitialisation(p, success, response);
    if q.queue == p.queue {
      added := [];
      assert p.queue + [] == p.queue && p.accepted + added == p.accepted;
    } else {
      added := [InitRequest(p.init)];
      assert added != [];
    }
  }

  /** What completing the head command amounts to: it leaves, at most one new command joins at the
      tail, and the next one is started. */
  lemma CompleteShape(p: Protocol, success: bool, response: Byte) returns (added: seq<Request>)
    requires p.queue != []
    ensures |added| <= 1 && (|p.queue| == MAX_COMMANDS ==> added == [])
    ensures var q := Complete(p, success, response);
            && q.queue == p.queue[1..] + (if added == [] then [] else [Fresh(added[0], |p.accepted|)])
            && q.accepted == p.accepted + added
            && q.completed == p.completed + [Completion(p.queue[0].serial, p.queue[0].request.onComplete, success, response)]
            && q.sent == p.sent + (if q.queue == [] then [] else [Sent(q.queue[0].serial, q.queue[0].code)])
            && q.scancodes == p.scancodes
  {
    var c := p.queue[0];
    var q := p.(completed := p.completed + [Completion(c.serial, c.request.onComplete, success, response)]);
    if c.request.onComplete.ContinueInit? {
      added := ContinueShape(q, success, response);
      assert ContinueInitialisation(q, success, response).queue[1..] ==
        p.queue[1..] + (if added == [] then [] else [Fresh(added[0], |p.accepted|)]);
    } else {
      added := [];
    }
  }

  /** The invariant except for what only concerns the head command's own progress. */
  ghost predicate OrderlyTail(p: Protocol) {
    InOrder(p) && Waiting(p) && SendsBounded(p)
  }

  /** The sends after the next head command, if any, was started. */
  lemma StartSends(p: Protocol, q: Protocol)
    requires SendsBounded(p) && p.queue != []
    requires |q.completed| == |p.completed| + 1 && p.accepted <= q.accepted
    requires q.queue != [] ==> q.queue[0].serial == |q.completed| < |q.accepted| && q.queue[0].code == q.accepted[|q.completed|].code
    requires q.sent == p.sent + (if q.queue == [] then [] else [Sent(q.queue[0].serial, q.queue[0].code)])
    ensures SendsBounded(q)
    ensures q.queue != [] ==> SendsOf(q.sent, q.queue[0].serial) == 1
  {
    PermittedLater(p.sent, p.accepted, q.accepted);
    WithinDone(p.sent, |p.completed|);
    if q.queue == [] {
      assert q.sent == p.sent;
    } else {
      var x := Sent(q.queue[0].serial, q.queue[0].code);
      PermittedMore(p.sent, x, q.accepted);
      WithinFirst(p.sent, |q.completed|, x);
    }
  }

  lemma CompletePreserves(p: Protocol, success: bool, response: Byte)
    requires OrderlyTail(p) && p.queue != []
    ensures Orderly(Complete(p, success, response))
  {
    var added := CompleteShape(p, success, response);
    var q := Complete(p, success, response);
    LeaveInOrder(p, q, added);
    StartSends(p, q);
  }

  lemma LeaveInOrder(p: Protocol, q: Protocol, added: seq<Request>)
    requires InOrder(p) && Waiting(p) && p.queue != [] && |added| <= 1 && (|p.queue| == MAX_COMMANDS ==> added == [])
    requires q.queue == p.queue[1..] + (if added == [] then [] else [Fresh(added[0], |p.accepted|)])
    requires q.accepted == p.accepted + added && |q.completed| == |p.completed| + 1
    requires p.completed <= q.completed
    requires q.completed[|p.completed|].serial == p.queue[0].serial
    requires q.completed[|p.completed|].callback == p.queue[0].request.onComplete
    ensures InOrder(q) && Waiting(q)
    ensures q.queue != [] ==> q.queue[0] == Fresh(q.queue[0].request, |q.completed|)
  {
    forall j | 0 <= j < |q.queue|
      ensures q.queue[j] == Fresh(q.accepted[|q.completed| + j], |q.completed| + j)
    {
      if j < |p.queue| - 1 {
        assert q.queue[j] == p.queue[j + 1];
      }
    }
    forall i | 0 <= i < |q.completed|
      ensures q.completed[i].serial == i && q.completed[i].callback == q.accepted[i].onComplete
    {
      if i < |p.completed| {
        assert q.completed[i] == p.completed[i];
      }
    }
  }

  /** Replacing the head command by a later state of itself. */
  lemma HeadReplaced(p: Protocol, c: Command)
    requires OrderlyTail(p) && p.queue != [] && c.serial == p.queue[0].serial && c.request == p.queue[0].request
    ensures OrderlyTail(p.(queue := p.queue[0 := c]))
  {
  }

  /** Sending one more byte for the head command. */
  lemma SendingKeepsOrder(p: Protocol, serial: nat, b: Byte)
    requires InOrder(p) && Waiting(p)
    ensures InOrder(SendTo(p, serial, b)) && Waiting(SendTo(p, serial, b))
  {
  }

  lemma HeadSends(p: Protocol, b: Byte)
    requires OrderlyTail(p) && p.queue != []
    requires var x := Sent(p.queue[0].serial, b);
             Permitted(x, p.accepted) && SendsOf(p.sent, x.serial) < 2 * (1 + MAX_RESENDS)
    ensures var q := SendTo(p, p.queue[0].serial, b);
            OrderlyTail(q) && SendsOf(q.sent, p.queue[0].serial) == SendsOf(p.sent, p.queue[0].serial) + 1
  {
    var x := Sent(p.queue[0].serial, b);
    SendingKeepsOrder(p, x.serial, b);
    PermittedMore(p.sent, x, p.accepted);
    WithinMore(p.sent, |p.completed|, x);
  }

  /** The head command's own progress, whatever the rest of the state is. */
  ghost predicate CommandSound(c: Command, sends: nat) {
    && c.resends <= MAX_RESENDS
    && (c.subSent ==> c.request.hasSub)
    && (c.acknowledged ==> c.request.hasResponse && (c.request.hasSub ==> c.subSent))
    && c.code == (if c.subSent && c.resends > 0 then c.request.sub else c.request.code)
    && sends <= (if c.subSent then 2 + MAX_RESENDS else 1) + c.resends
  }

  function Resent(c: Command): Command {
    c.(code := if c.subSent then c.request.sub else c.code, resends := c.resends + 1)
  }

  lemma ResentSound(c: Command, sends: nat)
    requires CommandSound(c, sends) && c.resends < MAX_RESENDS
    ensures CommandSound(Resent(c), sends + 1) && c.code == LastByte(Resent(c)) && sends < 2 * (1 + MAX_RESENDS)
    ensures c.code == c.request.code || (c.request.hasSub && c.code == c.request.sub)
  {
  }

  /** The head command after a byte was sent for it. */
  lemma HeadSent(p: Protocol, c: Command, b: Byte)
    requires OrderlyTail(p) && p.queue != [] && c.serial == p.queue[0].serial && c.request == p.queue[0].request
    requires Permitted(Sent(c.serial, b), p.accepted) && SendsOf(p.sent, c.serial) < 2 * (1 + MAX_RESENDS)
    requires CommandSound(c, SendsOf(p.sent, c.serial) + 1) && b == LastByte(c)
    ensures Orderly(SendTo(p.(queue := p.queue[0 := c]), c.serial, b))
  {
    HeadReplaced(p, c);
    HeadSends(p.(queue := p.queue[0 := c]), b);
  }

  lemma HeadPermitted(p: Protocol, b: Byte)
    requires Orderly(p) && p.queue != []
    requires var r := p.queue[0].request; b == r.code || (r.hasSub && b == r.sub)
    ensures Permitted(Sent(p.queue[0].serial, b), p.accepted)
    ensures CommandSound(p.queue[0], SendsOf(p.sent, p.queue[0].serial))
  {
    assert p.queue[0].request == p.accepted[p.queue[0].serial];
  }

  lemma {:induction false} SentAgain(p: Protocol)
    requires Orderly(p) && p.queue != [] && p.queue[0].resends < MAX_RESENDS
    ensures var c := p.queue[0]; Orderly(SendTo(p.(queue := p.queue[0 := Resent(c)]), c.serial, c.code))
  {
    var c := p.queue[0];
    ResentSound(c, SendsOf(p.sent, c.serial));
    HeadPermitted(p, c.code);
    HeadSent(p, Resent(c), c.code);
  }

  lemma {:induction false} GivenUp(p: Protocol)
    requires Orderly(p) && p.queue != []
    ensures Orderly(Complete(p.(queue := p.queue[0 := Resent(p.queue[0])]), false, 0))
  {
    HeadReplaced(p, Resent(p.queue[0]));
    CompletePreserves(p.(queue := p.queue[0 := Resent(p.queue[0])]), false, 0);
  }

  lemma {:induction false} ResendPreserves(p: Protocol)
    requires Orderly(p) && p.queue != []
    ensures Orderly(OnResend(p))
  {
    if p.queue[0].resends < MAX_RESENDS {
      SentAgain(p);
    } else {
      GivenUp(p);
    }
  }

  lemma {:induction false} AckPreserves(p: Protocol)
    requires Orderly(p) && p.queue != []
    ensures Orderly(OnAck(p))
  {
    var c := p.queue[0];
    if c.request.hasSub && !c.subSent {
      HeadPermitted(p, c.request.sub);
      HeadSent(p, c.(subSent := true, resends := 0), c.request.sub);
    } else {
      HeadReplaced(p, c.(acknowledged := true));
      if !c.request.hasResponse {
        CompletePreserves(p.(queue := p.queue[0 := c.(acknowledged := true)]), true, 0);
      }
    }
  }

  lemma HandlePreserves(p: Protocol, e: Event)
    requires Orderly(p)
    ensures Orderly(Handle(p, e))
  {
    match e
    case Enqueue(r) => AddPreserves(p, r);
    case Receive(b) =>
      if p.queue != [] {
        if b == RESPONSE_RESEND {
          ResendPreserves(p);
        } else if b == RESPONSE_ACK {
          AckPreserves(p);
        } else if p.queue[0].acknowledged {
          CompletePreserves(p, true, b);
        }
      }
  }

  /** Over every run: at most ten commands wait; commands complete in the order they were accepted,
      each once and exactly when it leaves; only the head command's bytes are sent, and no command
      is sent more than eight times. */
  lemma {:induction false} RunOrderly(es: seq<Event>)
    ensures Orderly(Run(IDLE, es))
  {
    if es == [] {
      assert forall s: nat :: SendsOf(IDLE.sent, s) == 0;
    } else {
      RunOrderly(es[..|es| - 1]);
      HandlePreserves(Run(IDLE, es[..|es| - 1]), es[|es| - 1]);
    }
  }

  /** Asked to resend, the driver repeats the byte it sent last exactly when no subcommand is out,
      or two resends of it were already made, or the two bytes are the same. */
  lemma {:induction false} ResendRepeatsExactlyWhen(es: seq<Event>)
    requires var p := Run(IDLE, es); p.queue != [] && p.queue[0].resends < MAX_RESENDS
    ensures var p := Run(IDLE, es);
            var q := OnByte(p, RESPONSE_RESEND);
            var c := p.queue[0];
            && p.sent != [] && |q.sent| == |p.sent| + 1
            && (q.sent[|p.sent|] == p.sent[|p.sent| - 1] <==>
                !c.subSent || c.resends >= 2 || c.request.code == c.request.sub)
  {
    RunOrderly(es);
  }
}
