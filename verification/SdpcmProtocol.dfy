/** The host side of the SDPCM protocol of src/plan9_ether4330.c as a state
    machine: credit-window flow control modulo 256 with flow-stop and restart,
    and the matching of firmware responses to the one outstanding command.

    A step is one frame put on the wire, one packet taken from it, or one
    acquisition of a lock.  The transmit lock `tlock` is the flag `draining`;
    `waiting` counts the tasks that have decided to call `txstart` and have not
    got the lock yet. */
module SdpcmProtocol {
  import opened Common
  import opened Numerals

  type Frame = seq<byte>

  /** The fields of a received packet that the receiver looks at. */
  datatype Packet = Packet(window: byte, fcmask: byte, channel: nat, length: nat, id: nat)

  /** One frame on the wire: an Ethernet frame or a command, with its sequence byte. */
  datatype Sent = Data(seqno: byte, frame: Frame) | Command(seqno: byte, id: nat)

  datatype State = State(
    oq: seq<Frame>,
    txseq: byte,
    txwindow: byte,
    fcmask: byte,
    draining: bool,
    waiting: nat,
    flowstart: bool,
    reqid: int,
    commandBusy: bool,
    rsp: Option<nat>,
    // what an observer of the wire and of the callers has seen so far
    wire: seq<Sent>,
    submitted: seq<Frame>,
    completed: seq<(int, nat)>)

  datatype Event =
    | Submit(frame: Frame)   // qpass, the caller then calls txstart
    | Restart                // rproc clears flowstart and calls txstart
    | EnterDrain             // a waiting task gets tlock
    | DrainStep              // one iteration of txstart's loop
    | Receive(packet: Packet)
    | IssueCommand           // wlcmd, up to its sleep
    | FinishCommand          // wlcmd, from its wake-up

  const RESPONSE_SIZE := 28  // sizeof(Sdpcm) + sizeof(Cmd)

  /** A `Ctlr` as allocated: every counter zero, so the window starts closed. */
  const INITIAL := State([], 0, 0, 0, false, 0, false, 0, false, None, [], [], [])

  predicate Closed(s: State) { s.txseq == s.txwindow }

  /** `fcmask & 1 << 2` */
  predicate Stopped(mask: byte) { mask / 4 % 2 == 1 }

  /** The number of frames the window still admits. */
  function Credit(s: State): nat { (s.txwindow - s.txseq) % 256 }

  function Next(b: byte): byte { (b + 1) % 256 }

  /** `++ctl->reqid` on a signed 16-bit field. */
  function NextId(id: int): int { if id == 32767 then -32768 else id + 1 }

  /** The id as `put2` writes it: two's complement in 16 bits. */
  function WireId(id: int): nat
    requires -32768 <= id <= 32767
  {
    id % 65536
  }

  /** rproc's test of a channel-0 packet: an unsigned 16-bit value compared
      with a signed 16-bit field, both promoted to int. */
  predicate Accepts(p: Packet, reqid: int) {
    p.channel == 0 && p.length >= RESPONSE_SIZE && p.id == reqid
  }

  predicate Enabled(s: State, e: Event) {
    match e
    case Submit(_) => true
    case Restart => s.flowstart
    case EnterDrain => s.waiting > 0 && !s.draining
    case DrainStep => s.draining
    case Receive(p) => p.id < 65536
    case IssueCommand => !s.commandBusy && -32768 <= s.reqid <= 32767
    case FinishCommand => s.commandBusy && s.rsp.Some?
  }

  function Drained(s: State): State
    requires s.draining
  {
    if Closed(s) || Stopped(s.fcmask) || s.oq == [] then s.(draining := false)
    else s.(oq := s.oq[1..], txseq := Next(s.txseq), wire := s.wire + [Data(s.txseq, s.oq[0])])
  }

  function Received(s: State, p: Packet): State {
    var reopened := p.window != s.txwindow && Closed(s);
    var released := p.fcmask != s.fcmask && !Stopped(p.fcmask);
    s.(txwindow := p.window,
       fcmask := p.fcmask,
       flowstart := s.flowstart || reopened || released,
       rsp := if Accepts(p, s.reqid) then Some(p.id) else s.rsp)
  }

  function Apply(s: State, e: Event): State
    requires Enabled(s, e)
  {
    match e
    case Submit(f) => s.(oq := s.oq + [f], submitted := s.submitted + [f], waiting := s.waiting + 1)
    case Restart => s.(flowstart := false, waiting := s.waiting + 1)
    case EnterDrain => s.(draining := true, waiting := s.waiting - 1)
    case DrainStep => Drained(s)
    case Receive(p) => Received(s, p)
    case IssueCommand =>
      var id := NextId(s.reqid);
      s.(reqid := id, commandBusy := true, txseq := Next(s.txseq),
         wire := s.wire + [Command(s.txseq, WireId(id))])
    case FinishCommand =>
      s.(commandBusy := false, rsp := None, completed := s.completed + [(s.reqid, s.rsp.value)])
  }

  predicate ValidRun(s: State, es: seq<Event>)
    decreases |es|
  {
    es == [] || (Enabled(s, es[0]) && ValidRun(Apply(s, es[0]), es[1..]))
  }

  function Run(s: State, es: seq<Event>): State
    requires ValidRun(s, es)
    decreases |es|
  {
    if es == [] then s else Run(Apply(s, es[0]), es[1..])
  }

  // ---------------------------------------------------------------- no lost restart

  /** Frames are queued and nothing that is pending will ever send them. */
  predicate Stalled(s: State) {
    && s.oq != []
    && !s.draining && s.waiting == 0 && !s.flowstart
    && !Closed(s) && !Stopped(s.fcmask)
  }

  /** Every command of the run was issued with credit left, or at a moment
      when nothing was queued or something else was going to restart the queue. */
  predicate CommandsSafe(s: State, es: seq<Event>)
    requires ValidRun(s, es)
    decreases |es|
  {
    es == [] ||
    (&& (es[0].IssueCommand? ==> CommandSafe(s))
     && CommandsSafe(Apply(s, es[0]), es[1..]))
  }

  predicate CommandSafe(s: State) {
    Closed(s) ==> s.oq == [] || s.draining || s.waiting > 0 || s.flowstart || Stopped(s.fcmask)
  }

  predicate NeverStalls(s: State, es: seq<Event>)
    requires ValidRun(s, es)
    decreases |es|
  {
    !Stalled(s) && (es != [] ==> NeverStalls(Apply(s, es[0]), es[1..]))
  }

  lemma StepStalls(s: State, e: Event)
    requires Enabled(s, e) && !Stalled(s)
    ensures Stalled(Apply(s, e)) <==> e.IssueCommand? && !CommandSafe(s)
  {
    if e.IssueCommand? {
      assert Apply(s, e).txseq != s.txseq;
    }
  }

  /** No lost restart, exactly: a run never leaves a queued frame without a
      closed window, a flow stop or a pending restart if and only if each of
      its commands was issued in a safe state. */
  lemma {:induction false} NoLostRestart(s: State, es: seq<Event>)
    requires ValidRun(s, es) && !Stalled(s)
    ensures NeverStalls(s, es) <==> CommandsSafe(s, es)
    decreases |es|
  {
    if es != [] {
      StepStalls(s, es[0]);
      var s' := Apply(s, es[0]);
      if !Stalled(s') {
        NoLostRestart(s', es[1..]);
      } else {
        assert !NeverStalls(s', es[1..]);
      }
    }
  }

  /** In particular, commands issued only with credit left never lose a restart. */
  lemma {:induction false} CreditedCommandsNeverStall(s: State, es: seq<Event>)
    requires ValidRun(s, es) && !Stalled(s) && CommandsCredited(s, es)
    ensures NeverStalls(s, es)
    decreases |es|
  {
    NoLostRestart(s, es);
    CreditedIsSafe(s, es);
  }

  predicate CommandsCredited(s: State, es: seq<Event>)
    requires ValidRun(s, es)
    decreases |es|
  {
    es == [] ||
    (&& (es[0].IssueCommand? ==> !Closed(s))
     && CommandsCredited(Apply(s, es[0]), es[1..]))
  }

  lemma {:induction false} CreditedIsSafe(s: State, es: seq<Event>)
    requires ValidRun(s, es) && CommandsCredited(s, es)
    ensures CommandsSafe(s, es)
    decreases |es|
  {
    if es != [] {
      CreditedIsSafe(Apply(s, es[0]), es[1..]);
    }
  }

  /** The events that end a stall: the next submit, a packet with another flow mask or one
      whose window meets `txseq`, and a command that steps `txseq` up to the window. */
  predicate Wakes(s: State, e: Event) {
    match e
    case Submit(_) => true
    case Receive(p) => p.fcmask != s.fcmask || p.window == s.txseq
    case IssueCommand => Next(s.txseq) == s.txwindow
    case _ => false
  }

  lemma StallEnds(s: State, e: Event)
    requires Stalled(s) && Enabled(s, e)
    ensures Stalled(Apply(s, e)) <==> !Wakes(s, e)
    ensures !Wakes(s, e) ==> Apply(s, e).oq == s.oq && DataFrames(Apply(s, e).wire) == DataFrames(s.wire)
  {
    if e.IssueCommand? {
      AppendedCommand(s.wire, s.txseq, WireId(NextId(s.reqid)));
    }
  }

  lemma AppendedCommand(w: seq<Sent>, seqno: byte, id: nat)
    ensures DataFrames(w + [Command(seqno, id)]) == DataFrames(w)
  {
    assert (w + [Command(seqno, id)])[..|w|] == w;
  }

  predicate AlwaysStalled(s: State, es: seq<Event>)
    requires ValidRun(s, es)
    decreases |es|
  {
    Stalled(s) && (es == [] || AlwaysStalled(Apply(s, es[0]), es[1..]))
  }

  predicate NoneWakes(s: State, es: seq<Event>)
    requires ValidRun(s, es)
    decreases |es|
  {
    es == [] || (!Wakes(s, es[0]) && NoneWakes(Apply(s, es[0]), es[1..]))
  }

  /** A stall lasts exactly until one of those events; until then no frame of the queue
      is sent. */
  lemma {:induction false} StallPersists(s: State, es: seq<Event>)
    requires Stalled(s) && ValidRun(s, es)
    ensures AlwaysStalled(s, es) <==> NoneWakes(s, es)
    ensures NoneWakes(s, es) ==> Run(s, es).oq == s.oq && DataFrames(Run(s, es).wire) == DataFrames(s.wire)
    decreases |es|
  {
    if es != [] {
      StallEnds(s, es[0]);
      if !Wakes(s, es[0]) {
        StallPersists(Apply(s, es[0]), es[1..]);
      } else {
        assert !Stalled(Apply(s, es[0]));
      }
    }
  }

  /** The run that loses a restart: the window is closed, a frame waits for it,
      and a command steps `txseq` past it. */
  lemma LostRestartWitness(f: Frame)
    ensures var es := [Submit(f), EnterDrain, DrainStep, IssueCommand];
            ValidRun(INITIAL, es) && Stalled(Run(INITIAL, es))
  {
    var s1 := Apply(INITIAL, Submit(f));
    var s2 := Apply(s1, EnterDrain);
    var s3 := Apply(s2, DrainStep);
    var s4 := Apply(s3, IssueCommand);
    var es := [Submit(f), EnterDrain, DrainStep, IssueCommand];
    assert es[1..] == [EnterDrain, DrainStep, IssueCommand];
    assert es[1..][1..] == [DrainStep, IssueCommand];
    assert es[1..][1..][1..] == [IssueCommand];
    assert ValidRun(s4, []) && Run(s4, []) == s4;
    assert ValidRun(s3, [IssueCommand]) && Run(s3, [IssueCommand]) == s4;
    assert ValidRun(s2, [DrainStep, IssueCommand]) && Run(s2, [DrainStep, IssueCommand]) == s4;
    assert ValidRun(s1, [EnterDrain, DrainStep, IssueCommand]);
    assert Run(s1, [EnterDrain, DrainStep, IssueCommand]) == s4;
  }

  // ---------------------------------------------------------------- what the firmware admits

  /** Bit 2 of the flow mask, as the source tests it. */
  lemma StopBit(mask: byte)
    ensures Stopped(mask) <==> BitAnd(mask, 4) != 0
  {
    assert BitAnd(mask, 4) == 2 * BitAnd(mask / 2, 2);
    assert BitAnd(mask / 2, 2) == 2 * BitAnd(mask / 2 / 2, 1);
    assert BitAnd(mask / 2 / 2, 1) == mask / 2 / 2 % 2;
  }

  /** The last packet of a run. */
  function LastPacket(es: seq<Event>): Option<Packet> {
    if es == [] then None
    else if es[|es| - 1].Receive? then Some(es[|es| - 1].packet)
    else LastPacket(es[..|es| - 1])
  }

  lemma {:induction false} LastPacketOf(e: Event, es: seq<Event>)
    ensures LastPacket([e] + es) ==
              if LastPacket(es).Some? then LastPacket(es) else if e.Receive? then Some(e.packet) else None
    decreases |es|
  {
    if es == [] {
      assert [e] + es == [e] && [e][..0] == [];
    } else {
      assert ([e] + es)[..|es|] == [e] + es[..|es| - 1];
      LastPacketOf(e, es[..|es| - 1]);
    }
  }

  /** Over every run window and flow mask are those of the last packet received. */
  lemma {:induction false} WindowIsTheFirmwares(s: State, es: seq<Event>)
    requires ValidRun(s, es)
    ensures var t := Run(s, es);
            match LastPacket(es)
            case None => t.txwindow == s.txwindow && t.fcmask == s.fcmask
            case Some(p) => t.txwindow == p.window && t.fcmask == p.fcmask
    decreases |es|
  {
    if es != [] {
      WindowIsTheFirmwares(Apply(s, es[0]), es[1..]);
      LastPacketOf(es[0], es[1..]);
      assert es == [es[0]] + es[1..];
    }
  }

  /** After a packet with window w at sequence byte q, and until the next one, at most
      (w - q) mod 256 frames go out if commands wait for credit; and while the mask of
      that packet has bit 2 no frame of the queue does. */
  lemma AdmittedByPacket(s: State, p: Packet, es: seq<Event>)
    requires p.id < 65536 && ValidRun(Received(s, p), es)
    requires forall e <- es :: !e.Receive?
    ensures var t := Run(Received(s, p), es);
            && (CommandsCredited(Received(s, p), es) ==> |t.wire| - |s.wire| <= (p.window - s.txseq) % 256)
            && (BitAnd(p.fcmask, 4) != 0 ==> DataFrames(t.wire) == DataFrames(s.wire))
  {
    var r := Received(s, p);
    if CommandsCredited(r, es) {
      CreditIsConserved(r, es);
    }
    if BitAnd(p.fcmask, 4) != 0 {
      StopBit(p.fcmask);
      StoppedSendsNothing(r, es);
    }
  }

  lemma {:induction false} StoppedSendsNothing(s: State, es: seq<Event>)
    requires ValidRun(s, es) && Stopped(s.fcmask)
    requires forall e <- es :: !e.Receive?
    ensures DataFrames(Run(s, es).wire) == DataFrames(s.wire)
    decreases |es|
  {
    if es != [] {
      assert es[0] in es;
      if es[0].IssueCommand? {
        AppendedCommand(s.wire, s.txseq, WireId(NextId(s.reqid)));
      }
      forall e <- es[1..] ensures e in es {}
      StoppedSendsNothing(Apply(s, es[0]), es[1..]);
    }
  }

  /** A packet asks for a restart exactly when it reopens a closed window or changes the
      flow mask to one that does not stop; it is kept as a response exactly when it is
      one to the outstanding id, and it sends nothing and queues nothing itself. */
  lemma ReceiveExact(s: State, p: Packet)
    ensures var t := Received(s, p);
            && (t.flowstart <==> s.flowstart || (Closed(s) && !Closed(t))
                                 || (t.fcmask != s.fcmask && BitAnd(t.fcmask, 4) == 0))
            && t.rsp == (if p.channel == 0 && p.length >= 28 && p.id == s.reqid then Some(p.id) else s.rsp)
            && t.oq == s.oq && t.wire == s.wire && t.txseq == s.txseq && t.reqid == s.reqid
            && t.submitted == s.submitted && t.completed == s.completed
  {
    StopBit(p.fcmask);
  }

  // ---------------------------------------------------------------- order and sequence numbers

  function DataFrames(w: seq<Sent>): seq<Frame> {
    if w == [] then []
    else DataFrames(w[..|w| - 1]) + (if w[|w| - 1].Data? then [w[|w| - 1].frame] else [])
  }

  /** The i-th frame on the wire carries i modulo 256. */
  predicate SeqnosCount(w: seq<Sent>) {
    forall i :: 0 <= i < |w| ==> w[i].seqno == i % 256
  }

  /** Nothing is lost, duplicated or reordered, and the wire numbers its frames. */
  ghost predicate Ordered(s: State) {
    && DataFrames(s.wire) + s.oq == s.submitted
    && s.txseq == |s.wire| % 256
    && SeqnosCount(s.wire)
  }

  lemma AppendToWire(w: seq<Sent>, c: Sent)
    requires SeqnosCount(w) && c.seqno == |w| % 256
    ensures SeqnosCount(w + [c]) && Next(c.seqno) == |w + [c]| % 256
    ensures DataFrames(w + [c]) == DataFrames(w) + (if c.Data? then [c.frame] else [])
  {
    assert (w + [c])[..|w + [c]| - 1] == w;
  }

  lemma DrainKeepsOrder(s: State)
    requires s.draining && Ordered(s)
    ensures Ordered(Drained(s))
  {
    if s.oq != [] {
      AppendToWire(s.wire, Data(s.txseq, s.oq[0]));
      assert s.oq == [s.oq[0]] + s.oq[1..];
      assert DataFrames(s.wire) + s.oq == DataFrames(s.wire) + [s.oq[0]] + s.oq[1..];
    }
  }

  lemma StepKeepsOrder(s: State, e: Event)
    requires Enabled(s, e) && Ordered(s)
    ensures Ordered(Apply(s, e))
  {
    match e
    case DrainStep => DrainKeepsOrder(s);
    case IssueCommand => IssueKeepsOrder(s);
    case Submit(f) => SubmitKeepsOrder(s, f);
    case _ =>
  }

  lemma IssueKeepsOrder(s: State)
    requires Enabled(s, IssueCommand) && Ordered(s)
    ensures Ordered(Apply(s, IssueCommand))
  {
    AppendToWire(s.wire, Command(s.txseq, WireId(NextId(s.reqid))));
  }

  lemma SubmitKeepsOrder(s: State, f: Frame)
    requires Enabled(s, Submit(f)) && Ordered(s)
    ensures Ordered(Apply(s, Submit(f)))
  {
    assert DataFrames(s.wire) + (s.oq + [f]) == (DataFrames(s.wire) + s.oq) + [f];
  }

  lemma {:induction false} RunKeepsOrder(s: State, es: seq<Event>)
    requires ValidRun(s, es) && Ordered(s)
    ensures Ordered(Run(s, es))
    decreases |es|
  {
    if es != [] {
      StepKeepsOrder(s, es[0]);
      RunKeepsOrder(Apply(s, es[0]), es[1..]);
    }
  }

  /** For every run from start-up: frames sent, then frames queued, are the frames
      submitted in order, and the i-th frame on the wire carries i modulo 256. */
  lemma FifoOnTheWire(es: seq<Event>)
    requires ValidRun(INITIAL, es)
    ensures var s := Run(INITIAL, es);
            && DataFrames(s.wire) + s.oq == s.submitted
            && SeqnosCount(s.wire)
  {
    RunKeepsOrder(INITIAL, es);
  }

  // ---------------------------------------------------------------- credit

  lemma NextSpendsOne(s: State, s': State)
    requires !Closed(s) && s'.txseq == Next(s.txseq) && s'.txwindow == s.txwindow
    ensures Credit(s') == Credit(s) - 1
  {
  }

  /** Between two window updates every frame sent costs exactly one credit, so
      never more frames go out than the firmware admitted. */
  lemma {:induction false} CreditIsConserved(s: State, es: seq<Event>)
    requires ValidRun(s, es) && CommandsCredited(s, es)
    requires forall e <- es :: !e.Receive?
    ensures Credit(Run(s, es)) + |Run(s, es).wire| == Credit(s) + |s.wire|
    decreases |es|
  {
    if es != [] {
      var s' := Apply(s, es[0]);
      assert es[0] in es;
      forall e <- es[1..] ensures e in es {}
      if |s'.wire| != |s.wire| {
        NextSpendsOne(s, s');
      }
      CreditIsConserved(s', es[1..]);
    }
  }

  // ---------------------------------------------------------------- commands

  /** The commands of a wire log, in order. */
  function CommandIds(w: seq<Sent>): seq<nat> {
    if w == [] then []
    else CommandIds(w[..|w| - 1]) + (if w[|w| - 1].Command? then [w[|w| - 1].id] else [])
  }

  predicate IsResponse(e: Event) {
    e.Receive? && e.packet.channel == 0 && e.packet.length >= RESPONSE_SIZE
  }

  /** The firmware answers only ids it was sent, each at most once. */
  predicate AnswersOnce(s: State, answered: set<nat>, es: seq<Event>)
    requires ValidRun(s, es)
    decreases |es|
  {
    es == [] ||
    (if IsResponse(es[0])
     then
       && es[0].packet.id in CommandIds(s.wire)
       && es[0].packet.id !in answered
       && AnswersOnce(Apply(s, es[0]), answered + {es[0].packet.id}, es[1..])
     else AnswersOnce(Apply(s, es[0]), answered, es[1..]))
  }

  /** The wire id of the i-th command is i, and each finished command got its own id. */
  ghost predicate Matched(s: State, answered: set<nat>) {
    var ids := CommandIds(s.wire);
    && |ids| <= 32768
    && s.reqid == (if |ids| == 32768 then -32768 else |ids|)
    && (forall i :: 0 <= i < |ids| ==> ids[i] == i + 1)
    && |s.completed| == (if s.commandBusy then |ids| - 1 else |ids|)
    && (forall i :: 0 <= i < |s.completed| ==> s.completed[i] == (i + 1, i + 1))
    && (forall i :: 1 <= i <= |s.completed| ==> i in answered)
    && (s.rsp.Some? ==> s.commandBusy && s.rsp.value == s.reqid && s.rsp.value in answered)
    && (|ids| == 32768 ==> s.commandBusy)
  }

  lemma IssueAppendsId(w: seq<Sent>, c: Sent)
    ensures CommandIds(w + [c]) == CommandIds(w) + (if c.Command? then [c.id] else [])
  {
    assert (w + [c])[..|w + [c]| - 1] == w;
  }

  lemma IssueKeepsMatch(s: State, answered: set<nat>)
    requires Enabled(s, IssueCommand) && Matched(s, answered)
    ensures Matched(Apply(s, IssueCommand), answered)
  {
    var ids := CommandIds(s.wire);
    NextWireId(|ids|);
    IssueAppendsId(s.wire, Command(s.txseq, WireId(NextId(s.reqid))));
    assert CommandIds(Apply(s, IssueCommand).wire) == ids + [|ids| + 1];
  }

  lemma NextWireId(n: nat)
    requires n <= 32767
    ensures WireId(NextId(n)) == n + 1 && NextId(n) == if n + 1 == 32768 then -32768 else n + 1
  {
  }

  lemma ReceiveKeepsMatch(s: State, answered: set<nat>, p: Packet)
    requires Matched(s, answered)
    requires IsResponse(Receive(p)) ==> p.id in CommandIds(s.wire) && p.id !in answered
    ensures Matched(Received(s, p), if IsResponse(Receive(p)) then answered + {p.id} else answered)
  {
    if Accepts(p, s.reqid) && !s.commandBusy {
      assert false;  // every issued id is already answered
    }
  }

  lemma StepKeepsMatch(s: State, answered: set<nat>, e: Event)
    requires Enabled(s, e) && Matched(s, answered)
    requires IsResponse(e) ==> e.packet.id in CommandIds(s.wire) && e.packet.id !in answered
    ensures Matched(Apply(s, e), if IsResponse(e) then answered + {e.packet.id} else answered)
  {
    match e
    case IssueCommand => IssueKeepsMatch(s, answered);
    case Receive(p) => ReceiveKeepsMatch(s, answered, p);
    case DrainStep => DrainKeepsMatch(s, answered);
    case _ =>
  }

  lemma DrainKeepsMatch(s: State, answered: set<nat>)
    requires s.draining && Matched(s, answered)
    ensures Matched(Drained(s), answered)
  {
    if s.oq != [] {
      IssueAppendsId(s.wire, Data(s.txseq, s.oq[0]));
    }
  }

  /** Over every run in which the firmware answers each id at most once: at most
      32768 commands are ever issued, the i-th command that finishes is the i-th
      issued and consumes the response with its own id i, and command 32768,
      whose signed id is negative, never finishes. */
  lemma {:induction false} ResponsesMatch(s: State, answered: set<nat>, es: seq<Event>)
    requires ValidRun(s, es) && Matched(s, answered) && AnswersOnce(s, answered, es)
    ensures var t := Run(s, es);
            && |CommandIds(t.wire)| <= 32768
            && |t.completed| <= 32767
            && |CommandIds(t.wire)| - 1 <= |t.completed| <= |CommandIds(t.wire)|
            && (forall i :: 0 <= i < |t.completed| ==> t.completed[i] == (i + 1, i + 1))
    decreases |es|
  {
    if es != [] {
      var e := es[0];
      StepKeepsMatch(s, answered, e);
      ResponsesMatch(Apply(s, e), if IsResponse(e) then answered + {e.packet.id} else answered, es[1..]);
    }
  }

  lemma ResponsesMatchFromStart(es: seq<Event>)
    requires ValidRun(INITIAL, es) && AnswersOnce(INITIAL, {}, es)
    ensures var t := Run(INITIAL, es);
            && |CommandIds(t.wire)| <= 32768 && |t.completed| <= 32767
            && (forall i :: 0 <= i < |t.completed| ==> t.completed[i] == (i + 1, i + 1))
  {
    assert Matched(INITIAL, {});
    ResponsesMatch(INITIAL, {}, es);
  }

  /** A firmware's faithful answer is recognised exactly while the signed id is not negative. */
  lemma OwnResponseAccepted(p: Packet, reqid: int)
    requires -32768 <= reqid <= 32767 && p.channel == 0 && p.length >= RESPONSE_SIZE
    requires p.id == WireId(reqid)
    ensures Accepts(p, reqid) <==> reqid >= 0
  {
  }

  /** A second answer to command 1 arriving between two commands is what command 2 consumes. */
  lemma DuplicateAnswerWitness()
    ensures var r := Receive(Packet(0, 0, 0, RESPONSE_SIZE, 1));
            var es := [IssueCommand, r, FinishCommand, r, IssueCommand, FinishCommand];
            ValidRun(INITIAL, es) && Run(INITIAL, es).completed == [(1, 1), (2, 1)]
  {
    var r := Receive(Packet(0, 0, 0, RESPONSE_SIZE, 1));
    var es := [IssueCommand, r, FinishCommand, r, IssueCommand, FinishCommand];
    var s1 := Apply(INITIAL, IssueCommand);
    var s2 := Apply(s1, r);
    var s3 := Apply(s2, FinishCommand);
    var s4 := Apply(s3, r);
    var s5 := Apply(s4, IssueCommand);
    var s6 := Apply(s5, FinishCommand);
    assert ValidRun(s6, es[6..]) && Run(s6, es[6..]) == s6;
    assert es[5..][1..] == es[6..];
    assert ValidRun(s5, es[5..]) && Run(s5, es[5..]) == s6;
    assert es[4..][1..] == es[5..];
    assert ValidRun(s4, es[4..]) && Run(s4, es[4..]) == s6;
    assert es[3..][1..] == es[4..];
    assert ValidRun(s3, es[3..]) && Run(s3, es[3..]) == s6;
    assert es[2..][1..] == es[3..];
    assert ValidRun(s2, es[2..]) && Run(s2, es[2..]) == s6;
    assert es[1..][1..] == es[2..];
    assert ValidRun(s1, es[1..]) && Run(s1, es[1..]) == s6;
  }

  // ---------------------------------------------------------------- the driver itself

  /** What a drain run to its end sends: as much of the queue as the credit admits. */
  function Sendable(s: State): nat {
    if Stopped(s.fcmask) then 0 else if |s.oq| < Credit(s) then |s.oq| else Credit(s)
  }

  function Numbered(first: byte, frames: seq<Frame>): (w: seq<Sent>)
    ensures |w| == |frames|
  {
    seq(|frames|, i requires 0 <= i < |frames| => Data((first + i) % 256, frames[i]))
  }

  /** The state after the first n queued frames have gone out. */
  function SendFirst(s: State, n: nat): State
    requires n <= |s.oq|
  {
    s.(oq := s.oq[n..], txseq := (s.txseq + n) % 256, wire := s.wire + Numbered(s.txseq, s.oq[..n]))
  }

  function Drain(s: State): State { SendFirst(s, Sendable(s)) }

  lemma DrainLeavesWaiting(s: State, w: nat)
    ensures Drain(s.(waiting := w)) == Drain(s).(waiting := w)
  {
  }

  lemma SendFirstMeets(s: State, n: nat)
    requires n <= Sendable(s)
    ensures var t := SendFirst(s, n);
            (Closed(t) || Stopped(t.fcmask) || t.oq == []) <==> n == Sendable(s)
  {
  }

  lemma SendOneMore(s: State, n: nat)
    requires n < |s.oq|
    ensures var t := SendFirst(s, n);
            SendFirst(s, n + 1) ==
            t.(oq := t.oq[1..], txseq := Next(t.txseq), wire := t.wire + [Data(t.txseq, t.oq[0])])
  {
    assert s.oq[..n + 1] == s.oq[..n] + [s.oq[n]];
    NumberedSnoc(s.txseq, s.oq[..n], s.oq[n]);
    var w, c := Numbered(s.txseq, s.oq[..n]), Data((s.txseq + n) % 256, s.oq[n]);
    assert s.wire + (w + [c]) == (s.wire + w) + [c];
    assert s.oq[n..][1..] == s.oq[n + 1..];
    NextCounts(s.txseq, n);
  }

  lemma NextCounts(b: byte, n: nat)
    ensures Next((b + n) % 256) == (b + (n + 1)) % 256
  {
  }

  lemma NumberedSnoc(first: byte, frames: seq<Frame>, f: Frame)
    ensures Numbered(first, frames + [f]) == Numbered(first, frames) + [Data((first + |frames|) % 256, f)]
  {
  }

  /** A drain that is not interleaved with anything: its loop, iterated to the end,
      sends exactly the first Sendable(s) frames and leaves nothing stalled. */
  lemma {:induction false} DrainRunsToEnd(s: State, n: nat)
    requires s.draining && n <= Sendable(s)
    ensures var es := seq(Sendable(s) - n + 1, _ => DrainStep);
            && ValidRun(SendFirst(s, n), es)
            && Run(SendFirst(s, n), es) == Drain(s).(draining := false)
    decreases Sendable(s) - n
  {
    var es := seq(Sendable(s) - n + 1, _ => DrainStep);
    SendFirstMeets(s, n);
    if n == Sendable(s) {
      assert es == [DrainStep];
    } else {
      SendOneMore(s, n);
      DrainRunsToEnd(s, n + 1);
      assert es[1..] == seq(Sendable(s) - n, _ => DrainStep);
    }
  }

  /** The `Ctlr` with its output queue. */
  class Controller {
    var oq: seq<Frame>
    var txseq: byte
    var txwindow: byte
    var fcmask: byte
    var flowstart: bool
    var reqid: int
    var commandBusy: bool
    var rsp: Option<nat>
    var wire: seq<Sent>
    ghost var submitted: seq<Frame>
    ghost var completed: seq<(int, nat)>

    ghost predicate Valid()
      reads this
    {
      -32768 <= reqid <= 32767
    }

    /** The controller between calls, `waiting` tasks being about to call TxStart. */
    ghost function Value(waiting: nat): State
      reads this
    {
      State(oq, txseq, txwindow, fcmask, false, waiting, flowstart, reqid, commandBusy, rsp,
            wire, submitted, completed)
    }

    constructor ()
      ensures Valid() && Value(0) == INITIAL
    {
      oq, txseq, txwindow, fcmask, flowstart := [], 0, 0, 0, false;
      reqid, commandBusy, rsp, wire := 0, false, None, [];
      submitted, completed := [], [];
    }

    method Submit(frame: Frame)
      requires Valid()
      modifies this
      ensures Valid()
      ensures forall w: nat :: Value(w + 1) == Apply(old(Value(w)), Event.Submit(frame))
    {
      oq := oq + [frame];
      submitted := submitted + [frame];
    }

    /** txstart: sends exactly the admitted part of the queue, in order and
        consecutively numbered, and stops closed, stopped or empty. */
    method TxStart()
      requires Valid()
      modifies this`oq, this`txseq, this`wire
      ensures Valid() && !Stalled(Value(0))
      ensures forall w: nat :: Value(w) == Drain(old(Value(w)))
    {
      ghost var before := Value(0);
      ghost var n := 0;
      while true
        invariant 0 <= n <= Sendable(before)
        invariant Value(0) == SendFirst(before, n)
        decreases |oq|
      {
        SendFirstMeets(before, n);
        if txseq == txwindow || Stopped(fcmask) || oq == [] {
          break;
        }
        SendOneMore(before, n);
        var frame := oq[0];
        oq := oq[1..];
        wire := wire + [Data(txseq, frame)];
        txseq := Next(txseq);
        n := n + 1;
      }
      forall w: nat ensures Value(w) == Drain(old(Value(w))) {
        DrainLeavesWaiting(before, w);
        assert old(Value(w)) == before.(waiting := w) && Value(w) == Value(0).(waiting := w);
      }
    }

    /** One packet through rproc, up to the hand-over of its contents. */
    method Receive(p: Packet)
      requires Valid() && p.id < 65536
      modifies this
      ensures Valid()
      ensures forall w: nat :: Value(w) == Apply(old(Value(w)), Event.Receive(p))
    {
      if p.window != txwindow || p.fcmask != fcmask {
        if p.window != txwindow {
          if txseq == txwindow {
            flowstart := true;
          }
          txwindow := p.window;
        }
        if p.fcmask != fcmask {
          if !Stopped(p.fcmask) {
            flowstart := true;
          }
          fcmask := p.fcmask;
        }
      }
      if p.channel == 0 && p.length >= RESPONSE_SIZE && p.id == reqid {
        rsp := Some(p.id);
      }
    }

    /** rproc's restart: one whole drain, after which nothing is left stalled. */
    method Restart()
      requires Valid() && flowstart
      modifies this
      ensures Valid() && !flowstart && !Stalled(Value(0))
      ensures forall w: nat :: Value(w) == Drain(old(Value(w)).(flowstart := false))
    {
      flowstart := false;
      TxStart();
    }

    method IssueCommand() returns (id: nat)
      requires Valid() && !commandBusy
      modifies this
      ensures Valid() && id == WireId(reqid)
      ensures forall w: nat :: Value(w) == Apply(old(Value(w)), Event.IssueCommand)
    {
      reqid := NextId(reqid);
      id := WireId(reqid);
      wire := wire + [Command(txseq, id)];
      txseq := Next(txseq);
      commandBusy := true;
    }

    method FinishCommand() returns (r: nat)
      requires Valid() && commandBusy && rsp.Some?
      modifies this
      ensures Valid() && Some(r) == old(rsp)
      ensures forall w: nat :: Value(w) == Apply(old(Value(w)), Event.FinishCommand)
    {
      r := rsp.value;
      completed := completed + [(reqid, r)];
      rsp := None;
      commandBusy := false;
    }
  }
}
