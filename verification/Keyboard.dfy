/** The keyboard driver's command queue: ten slots used as a ring. */
module Keyboard {
  import opened PhysicalMemory
  import opened KeyboardProtocol
  import opened KeyboardBytes

  class Keyboard {
    const cmdQueue: array<Command>
    var queueMin: int
    var queueCount: int
    var initState: InitState
    var initialized: bool
    var scanCodeSet: int
    /** What was accepted, sent to the device, completed and passed on to the decoder so far. */
    ghost var accepted: seq<Request>
    ghost var sent: seq<Sent>
    ghost var completed: seq<Completion>
    ghost var scancodes: seq<Byte>
    /** Serial number of the next command. */
    var nextSerial: nat

    ghost predicate RingValid()
      reads this
    {
      && cmdQueue.Length == MAX_COMMANDS && 0 <= queueMin < MAX_COMMANDS && 0 <= queueCount <= MAX_COMMANDS
      && nextSerial == |accepted|
    }

    /** The queued commands, head first. */
    ghost function Queue(): (q: seq<Command>)
      requires RingValid()
      reads this, cmdQueue
      ensures |q| == queueCount
    {
      seq(queueCount, i requires 0 <= i < queueCount && RingValid() reads this, cmdQueue =>
        cmdQueue[(queueMin + i) % MAX_COMMANDS])
    }

    ghost function View(): Protocol
      requires RingValid()
      reads this, cmdQueue
    {
      Protocol(Queue(), initState, initialized, scanCodeSet, accepted, sent, completed, scancodes)
    }

    constructor ()
      ensures RingValid() && fresh(cmdQueue) && View() == IDLE
    {
      var blank := Command(Request(0, false, 0, false, Client(0)), 0, 0, false, false, 0);
      cmdQueue := new Command[MAX_COMMANDS](_ => blank);
      queueMin, queueCount := 0, 0;
      initState, initialized, scanCodeSet := InitStart, false, 0;
      accepted, sent, completed, scancodes, nextSerial := [], [], [], [], 0;
    }

    method SendByte(serial: nat, b: Byte)
      requires RingValid()
      modifies `sent
      ensures RingValid() && View() == SendTo(old(View()), serial, b)
    {
      sent := sent + [Sent(serial, b)];
    }

    /** Queues a command; false when the ring is full. */
    method AddCommand(r: Request) returns (added: bool)
      requires RingValid()
      modifies this, cmdQueue
      ensures RingValid() && View() == KeyboardProtocol.AddCommand(old(View()), r)
      ensures added <==> old(queueCount) < MAX_COMMANDS
    {
      if queueCount == MAX_COMMANDS {
        return false;
      }
      ghost var before := Queue();
      var serial := nextSerial;
      cmdQueue[(queueMin + queueCount) % MAX_COMMANDS] := Command(r, serial, r.code, false, false, 0);
      nextSerial := nextSerial + 1;
      accepted := accepted + [r];
      queueCount := queueCount + 1;
      assert Queue() == before + [Command(r, serial, r.code, false, false, 0)];
      if queueCount == 1 {
        SendByte(serial, r.code);
      }
      added := true;
    }

    /** Takes the head command off the ring; a command left in it is sent its first byte. */
    method NextCommand()
      requires RingValid() && queueCount > 0
      modifies this
      ensures RingValid() && View() == KeyboardProtocol.NextCommand(old(View()))
    {
      ghost var before := Queue();
      queueMin := (queueMin + 1) % MAX_COMMANDS;
      queueCount := queueCount - 1;
      assert Queue() == before[1..];
      if queueCount > 0 {
        SendByte(cmdQueue[queueMin].serial, cmdQueue[queueMin].code);
      }
    }

    /** Advances the initialisation; runs as the callback of its commands, before they leave the ring. */
    method ContinueInit(success: bool, response: Byte)
      requires RingValid()
      modifies this, cmdQueue
      ensures RingValid() && View() == ContinueInitialisation(old(View()), success, response)
    {
      if !success {
        Finish();
      } else {
        match initState
        case InitStart =>
          SetState(DisableScan, scanCodeSet);
          var _ := AddCommand(Request(CMD_DISABLE_SCAN, false, 0, false, Callback.ContinueInit));
        case DisableScan =>
          SetState(SetScanSet2, scanCodeSet);
          var _ := AddCommand(Request(CMD_SCAN_CODE_SET, true, 2, false, Callback.ContinueInit));
        case SetScanSet2 =>
          SetState(GetScanSet, scanCodeSet);
          var _ := AddCommand(Request(CMD_SCAN_CODE_SET, true, 0, true, Callback.ContinueInit));
        case GetScanSet =>
          if response != 2 {
            Finish();
          } else {
            SetState(EnableScan, response);
            var _ := AddCommand(Request(CMD_ENABLE_SCAN, false, 0, false, Callback.ContinueInit));
          }
        case EnableScan =>
          SetState(Initialized, scanCodeSet);
          Finish();
        case Initialized =>
      }
    }

    method SetState(s: InitState, codeSet: int)
      requires RingValid()
      modifies `initState, `scanCodeSet
      ensures RingValid() && View() == old(View()).(init := s, scanCodeSet := codeSet)
    {
      initState, scanCodeSet := s, codeSet;
    }

    method Finish()
      requires RingValid()
      modifies `initialized
      ensures RingValid() && View() == old(View()).(finished := true)
    {
      initialized := true;
    }

    method Record(c: Completion)
      requires RingValid()
      modifies `completed
      ensures RingValid() && View() == old(View()).(completed := old(View()).completed + [c])
    {
      completed := completed + [c];
    }

    /** Calls the current command's callback. */
    method OnComplete(success: bool, response: Byte)
      requires RingValid() && queueCount > 0
      modifies this, cmdQueue
      ensures RingValid() && queueCount > 0
      ensures var (p, c) := (old(View()), old(View()).queue[0]);
              var q := p.(completed := p.completed + [Completion(c.serial, c.request.onComplete, success, response)]);
              View() == if c.request.onComplete.ContinueInit? then ContinueInitialisation(q, success, response) else q
    {
      var c := cmdQueue[queueMin];
      assert c == Queue()[0];
      Record(Completion(c.serial, c.request.onComplete, success, response));
      if c.request.onComplete.ContinueInit? {
        ContinueInit(success, response);
      }
    }

    method SetHead(c: Command)
      requires RingValid() && queueCount > 0
      modifies cmdQueue
      ensures RingValid() && View() == old(View()).(queue := old(View()).queue[0 := c])
    {
      ghost var before := Queue();
      cmdQueue[queueMin] := c;
      assert Queue() == before[0 := c];
    }

    /** One byte from the keyboard. */
    method OnKeyboardSendByte(b: Byte)
      requires RingValid()
      modifies this, cmdQueue
      ensures RingValid() && View() == OnByte(old(View()), b)
      ensures scancodes == old(scancodes) + if Taken(old(View()), b) then [] else [b]
    {
      PassedOrTaken(View(), b);
      if queueCount == 0 {
        scancodes := scancodes + [b];
        return;
      }
      var cmd := cmdQueue[queueMin];
      assert cmd == Queue()[0];
      if b == RESPONSE_RESEND {
        var code := cmd.code;
        if cmd.subSent {
          cmd := cmd.(code := cmd.request.sub);
        }
        cmd := cmd.(resends := cmd.resends + 1);
        SetHead(cmd);
        if cmd.resends <= MAX_RESENDS {
          SendByte(cmd.serial, code);
        } else {
          OnComplete(false, 0);
          NextCommand();
        }
      } else if b == RESPONSE_ACK {
        if cmd.request.hasSub && !cmd.subSent {
          SetHead(cmd.(subSent := true, resends := 0));
          SendByte(cmd.serial, cmd.request.sub);
        } else {
          SetHead(cmd.(acknowledged := true));
          if !cmd.request.hasResponse {
            OnComplete(true, 0);
            NextCommand();
          }
        }
      } else if cmd.acknowledged {
        OnComplete(true, b);
        NextCommand();
      } else {
        scancodes := scancodes + [b];
      }
    }
  }
}
