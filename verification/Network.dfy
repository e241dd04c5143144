/** code/machine/network.cc, code/network/post.cc: from the socket through the one-packet inbox to the mailboxes, and out again. */
module Networks {
  import opened ThreadIds
  import opened Semaphores
  import D = DeviceProtocols

  /** What follows the packet header: the mailbox it is for, and the text. */
  datatype Body = Body(to: nat, text: seq<int>)

  datatype Packet = Packet(length: nat, body: Body)

  const POSTAL_WORKER: Tid := 0

  /** Where the postal worker is in its endless loop. */
  datatype Worker = Waits | Sleeps | Receives | Delivers

  datatype Input = Input(
    socket: seq<Packet>,               // on the wire, not yet read
    length: nat, inbox: Body,          // the network's buffer; length 0 stands for an empty one
    messageAvailable: Sem, worker: Worker,
    buffer: Body,                      // the worker's copy
    boxes: seq<seq<Body>>,             // everything put into each mailbox
    taken: seq<Packet>, delivered: seq<Body>)

  datatype Action = Arrive(packet: Packet) | Poll | Work

  predicate Possible(s: Input, a: Action) {
    a.Work? ==> s.worker != Sleeps && (s.worker == Delivers ==> s.buffer.to < |s.boxes|)
  }

  /** `NetworkInput::CallBack`: the inbox is filled only if it counts as empty and a packet is there. */
  function Polled(s: Input): Input {
    if s.length != 0 || s.socket == [] then s
    else
      s.(socket := s.socket[1..], length := s.socket[0].length,
         inbox := if s.socket[0].length != 0 then s.socket[0].body else s.inbox,
         taken := s.taken + [s.socket[0]],
         messageAvailable := Post(s.messageAvailable),
         worker := if s.worker == Sleeps then Waits else s.worker)
  }

  /** One step of `PostalDelivery`; `Receive` leaves the buffer as it is if the header says length 0. */
  function Worked(s: Input): Input
    requires Possible(s, Work)
  {
    match s.worker
    case Waits =>
      s.(messageAvailable := Attempt(s.messageAvailable, POSTAL_WORKER),
         worker := if s.messageAvailable.value == 0 then Sleeps else Receives)
    case Receives => s.(buffer := if s.length != 0 then s.inbox else s.buffer, length := 0, worker := Delivers)
    case Delivers =>
      s.(boxes := s.boxes[s.buffer.to := s.boxes[s.buffer.to] + [s.buffer]], delivered := s.delivered + [s.buffer], worker := Waits)
    case Sleeps => s
  }

  function Step(s: Input, a: Action): Input
    requires Possible(s, a)
  {
    match a
    case Arrive(p) => s.(socket := s.socket + [p])
    case Poll => Polled(s)
    case Work => Worked(s)
  }

  predicate AtStart(s: Input) {
    && s.length == 0 && s.messageAvailable == Sem(0, []) && s.worker == Waits
    && s.taken == [] && s.delivered == [] && forall b | 0 <= b < |s.boxes| :: s.boxes[b] == []
  }

  ghost predicate IsRun(run: seq<Input>, actions: seq<Action>) {
    && |run| == |actions| + 1 && AtStart(run[0])
    && forall i | 0 <= i < |actions| :: Possible(run[i], actions[i]) && run[i + 1] == Step(run[i], actions[i])
  }

  /** The inbox is full exactly when somebody has been told and not yet fetched. */
  predicate Balanced(s: Input) {
    s.messageAvailable.value + One(s.worker == Receives) == One(s.length != 0)
  }

  predicate AllPositive(packets: seq<Packet>) {
    forall p <- packets :: p.length > 0
  }

  function Bodies(packets: seq<Packet>): seq<Body> {
    if packets == [] then [] else Bodies(packets[..|packets| - 1]) + [packets[|packets| - 1].body]
  }

  function For(bodies: seq<Body>, box: nat): seq<Body> {
    if bodies == [] then []
    else
      var last := bodies[|bodies| - 1];
      For(bodies[..|bodies| - 1], box) + (if last.to == box then [last] else [])
  }

  lemma BodiesSnoc(packets: seq<Packet>, p: Packet)
    ensures Bodies(packets + [p]) == Bodies(packets) + [p.body]
  {
    assert (packets + [p])[..|packets|] == packets;
  }

  lemma ForSnoc(bodies: seq<Body>, b: Body, box: nat)
    ensures For(bodies + [b], box) == For(bodies, box) + (if b.to == box then [b] else [])
  {
    assert (bodies + [b])[..|bodies|] == bodies;
  }

  /** What has been read off the socket is what has been delivered, and what is still in hand. */
  ghost predicate InOrder(s: Input) {
    Bodies(s.taken) ==
    s.delivered + (if s.worker == Delivers then [s.buffer] else []) + (if s.length != 0 then [s.inbox] else [])
  }

  ghost predicate Inv(s: Input) {
    && s.messageAvailable.value >= 0 && Balanced(s) && InOrder(s)
    && s.messageAvailable.queue == (if s.worker == Sleeps then [POSTAL_WORKER] else [])
    && (s.worker == Sleeps ==> s.messageAvailable.value == 0)
  }

  ghost predicate BoxesOk(s: Input) {
    forall b | 0 <= b < |s.boxes| :: s.boxes[b] == For(s.delivered, b)
  }

  lemma StepKeepsInv(s: Input, a: Action)
    requires Inv(s) && Possible(s, a) && AllPositive(Step(s, a).taken)
    ensures Inv(Step(s, a))
  {
    hide For;
    var s' := Step(s, a);
    if a.Poll? && s.length == 0 && s.socket != [] {
      BodiesSnoc(s.taken, s.socket[0]);
      assert s'.taken[|s.taken|] == s.socket[0];
      assert s.socket[0] in s'.taken;
    }
  }

  lemma StepKeepsBoxes(s: Input, a: Action)
    requires BoxesOk(s) && Possible(s, a)
    ensures BoxesOk(Step(s, a))
  {
    hide For;
    if a.Work? && s.worker == Delivers {
      forall b | 0 <= b < |s.boxes|
        ensures Step(s, a).boxes[b] == For(Step(s, a).delivered, b)
      {
        ForSnoc(s.delivered, s.buffer, b);
      }
    }
  }

  /** Each mailbox gets exactly the deliveries addressed to it, in order. */
  lemma {:induction false} RunKeepsBoxes(run: seq<Input>, actions: seq<Action>, i: nat)
    requires IsRun(run, actions) && i < |run|
    ensures BoxesOk(run[i])
  {
    hide Step, Possible;
    if i > 0 {
      RunKeepsBoxes(run, actions, i - 1);
      StepKeepsBoxes(run[i - 1], actions[i - 1]);
    }
  }

  /** The packets that have come in, in order. */
  function Arrivals(actions: seq<Action>): seq<Packet> {
    if actions == [] then []
    else
      var last := actions[|actions| - 1];
      Arrivals(actions[..|actions| - 1]) + (if last.Arrive? then [last.packet] else [])
  }

  /** Packets are read off the socket in the order in which they came in. */
  lemma {:induction false} TakenInOrder(run: seq<Input>, actions: seq<Action>, i: nat)
    requires IsRun(run, actions) && i < |run|
    ensures run[0].socket + Arrivals(actions[..i]) == run[i].taken + run[i].socket
  {
    if i > 0 {
      TakenInOrder(run, actions, i - 1);
      assert actions[..i][..i - 1] == actions[..i - 1];
      var s, s' := run[i - 1], run[i];
      assert s' == Step(s, actions[i - 1]);
      if actions[i - 1].Arrive? {
        assert s.taken + (s.socket + [actions[i - 1].packet]) == s.taken + s.socket + [actions[i - 1].packet];
      } else {
        assert s'.taken + s'.socket == s.taken + s.socket;
      }
    }
  }

  /** A poll takes the first packet if there is one and the inbox counts as empty, and the worker then need not sleep. */
  lemma PollTakes(s: Input)
    ensures s.length == 0 && s.socket != [] ==> Step(s, Poll).taken == s.taken + [s.socket[0]] && Step(s, Poll).worker != Sleeps
    ensures !(s.length == 0 && s.socket != []) ==> Step(s, Poll) == s
  {
  }

  lemma TakenGrows(s: Input, a: Action)
    requires Possible(s, a)
    ensures s.taken <= Step(s, a).taken
  {
  }

  /** As long as no packet of length 0 has been read, everything read is delivered once and in order. */
  lemma {:induction false} RunDelivers(run: seq<Input>, actions: seq<Action>, i: nat)
    requires IsRun(run, actions) && i < |run| && AllPositive(run[i].taken)
    ensures Inv(run[i])
  {
    hide Step, Possible, Inv;
    if i > 0 {
      TakenGrows(run[i - 1], actions[i - 1]);
      assert forall p | p in run[i - 1].taken :: p in run[i].taken;
      RunDelivers(run, actions, i - 1);
      StepKeepsInv(run[i - 1], actions[i - 1]);
    } else {
      StartHasInv(run[0]);
    }
  }

  lemma StartHasInv(s: Input)
    requires AtStart(s)
    ensures Inv(s)
  {
  }

  /** Reading a packet of length 0 signals a message while the inbox still counts as empty. */
  lemma ZeroLengthUnbalances(s: Input)
    requires Balanced(s) && s.length == 0 && s.socket != [] && s.socket[0].length == 0
    ensures !Balanced(Step(s, Poll))
  {
  }

  lemma {:induction false} BalancedNeedsPositive(run: seq<Input>, actions: seq<Action>, i: nat)
    requires IsRun(run, actions) && i < |run| && forall j | 0 <= j <= i :: Balanced(run[j])
    ensures AllPositive(run[i].taken)
  {
    if i > 0 {
      BalancedNeedsPositive(run, actions, i - 1);
      var s, s' := run[i - 1], run[i];
      if s'.taken != s.taken {
        assert actions[i - 1] == Poll && s.length == 0 && s.socket != [];
        assert s.socket[0].length > 0 by {
          if s.socket[0].length == 0 { ZeroLengthUnbalances(s); }
        }
      }
    }
  }

  /** The handshake of inbox and semaphore holds throughout a run exactly when every packet read has a positive length. */
  lemma HandshakeIffPositive(run: seq<Input>, actions: seq<Action>)
    requires IsRun(run, actions)
    ensures (forall i | 0 <= i < |run| :: Balanced(run[i])) <==> AllPositive(run[|actions|].taken)
  {
    if forall i | 0 <= i < |run| :: Balanced(run[i]) {
      BalancedNeedsPositive(run, actions, |actions|);
    }
    if AllPositive(run[|actions|].taken) {
      forall i | 0 <= i < |run|
        ensures Balanced(run[i])
      {
        TakenPrefix(run, actions, i, |actions|);
        assert forall p | p in run[i].taken :: p in run[|actions|].taken;
        RunDelivers(run, actions, i);
      }
    }
  }

  lemma {:induction false} TakenPrefix(run: seq<Input>, actions: seq<Action>, i: nat, j: nat)
    requires IsRun(run, actions) && i <= j < |run|
    ensures run[i].taken <= run[j].taken
    decreases j - i
  {
    hide Step, Possible, AtStart;
    if i < j {
      TakenPrefix(run, actions, i, j - 1);
      TakenGrows(run[j - 1], actions[j - 1]);
    }
  }

  /** The worker never fetches from an empty inbox, and never sleeps beside a full one. */
  lemma WorkerAndInbox(run: seq<Input>, actions: seq<Action>, i: nat)
    requires IsRun(run, actions) && i < |run| && AllPositive(run[i].taken)
    ensures run[i].worker == Receives ==> run[i].length != 0
    ensures run[i].worker == Sleeps ==> run[i].length == 0 && Bodies(run[i].taken) == run[i].delivered
  {
    RunDelivers(run, actions, i);
  }

  /** The input side as an object: the device's callback, and the steps of the postal worker between two sleeps. */
  class PostOfficeInput {
    var socket: seq<Packet>
    var length: nat
    var inbox: Body
    const messageAvailable: Semaphore
    var worker: Worker
    var buffer: Body
    var boxes: seq<seq<Body>>
    ghost var taken: seq<Packet>
    ghost var delivered: seq<Body>

    ghost function Now(): Input
      reads this, messageAvailable
    {
      Input(socket, length, inbox, messageAvailable.State(), worker, buffer, boxes, taken, delivered)
    }

    constructor (nBoxes: nat, wire: seq<Packet>, garbage: Body)
      ensures AtStart(Now()) && |boxes| == nBoxes && socket == wire && fresh(messageAvailable)
    {
      socket, length, inbox, worker, buffer := wire, 0, garbage, Waits, garbage;
      boxes := seq(nBoxes, i => []);
      messageAvailable := new Semaphore(0);
      taken, delivered := [], [];
    }

    /** `NetworkInput::CallBack`, which the device runs at every poll. */
    method CallBack()
      requires (messageAvailable.queue != []) == (worker == Sleeps)
      modifies this, messageAvailable
      ensures Now() == Polled(old(Now()))
    {
      if length != 0 {
        return;
      }
      if socket == [] {
        return;
      }
      var packet := socket[0];
      socket := socket[1..];
      length := packet.length;
      if length != 0 {
        inbox := packet.body;
      }
      taken := taken + [packet];
      var readied := messageAvailable.V();
      if readied.Some? {
        worker := Waits;
      }
    }

    /**
     * `PostalDelivery`, from one possible switch to the next; a sleeping worker is not run. `false` is the failed ASSERT
     * that the mailbox exists.
     */
    method PostalDelivery() returns (ok: bool)
      requires worker != Sleeps
      modifies this, messageAvailable
      ensures ok <==> !(old(worker) == Delivers && old(buffer).to >= |old(boxes)|)
      ensures ok <==> old(Possible(Now(), Work))
      ensures Now() == if ok then Worked(old(Now())) else old(Now())
    {
      ok := true;
      match worker
      case Waits =>
        var slept := messageAvailable.TryP(POSTAL_WORKER);
        worker := if slept then Sleeps else Receives;
      case Receives =>
        if length != 0 {
          buffer := inbox;
        }
        length := 0;
        worker := Delivers;
      case Delivers =>
        if buffer.to >= |boxes| {
          return false;
        }
        boxes := boxes[buffer.to := boxes[buffer.to] + [buffer]];
        delivered := delivered + [buffer];
        worker := Waits;
    }
  }

  // Output.

  /** `handed` is what the network was given, with whether it lost it; `wire` is what reached the socket. */
  datatype Output = Output(device: D.Device<Packet>, sendBusy: bool, handed: seq<(Packet, bool)>, wire: seq<Packet>)

  predicate CanSend(s: Output, t: Tid) {
    D.CanStep(s.device, t)
  }

  /** A step of a sending thread; `sendBusy` is cleared by the interrupt and never set. */
  function SendStep(s: Output, t: Tid, packet: Packet, lost: bool): Output
    requires CanSend(s, t)
  {
    var pc := s.device.pcs[t];
    s.(device := D.Step(s.device, t, packet, true),
       handed := if pc.Issuing? then s.handed + [(pc.request, lost)] else s.handed,
       wire := if pc.Issuing? && !lost then s.wire + [pc.request] else s.wire)
  }

  function SendDone(s: Output): Output {
    s.(device := D.Interrupted(s.device), sendBusy := false)
  }

  ghost predicate NextOutput(s: Output, s': Output) {
    || (exists t: Tid, p: Packet, lost: bool :: CanSend(s, t) && s' == SendStep(s, t, p, lost))
    || (s.device.active && s' == SendDone(s))
  }

  ghost predicate IsOutputRun(run: seq<Output>) {
    && |run| > 0 && D.Init(run[0].device) && !run[0].sendBusy && run[0].handed == [] && run[0].wire == []
    && forall i | 0 <= i < |run| - 1 :: NextOutput(run[i], run[i + 1])
  }

  function Kept(handed: seq<(Packet, bool)>): seq<Packet> {
    if handed == [] then []
    else
      var last := handed[|handed| - 1];
      Kept(handed[..|handed| - 1]) + (if last.1 then [] else [last.0])
  }

  lemma {:induction false} OutputRunKeepsInv(run: seq<Output>, i: nat)
    requires IsOutputRun(run) && i < |run|
    ensures D.Inv(run[i].device) && !run[i].sendBusy && run[i].wire == Kept(run[i].handed)
  {
    hide D.Inv, D.Step, D.Interrupted, D.Init;
    if i == 0 {
      D.InitHasInv(run[0].device);
    } else {
      OutputRunKeepsInv(run, i - 1);
      var s, s' := run[i - 1], run[i];
      assert NextOutput(s, run[i - 1 + 1]);
      if s.device.active && s' == SendDone(s) {
        D.InterruptKeepsInv(s.device);
      } else {
        var t: Tid, p: Packet, lost: bool :| CanSend(s, t) && s' == SendStep(s, t, p, lost);
        D.StepKeepsInv(s.device, t, p, true);
        if s.device.pcs[t].Issuing? {
          assert s'.handed[..|s.handed|] == s.handed;
        }
      }
    }
  }

  /**
   * With any number of senders, a packet goes to the network only when no other is under way, though `sendBusy`,
   * which nothing sets, does not see to that; and the wire carries what was handed over and not lost, in order.
   */
  lemma SendsNeverOverlap(run: seq<Output>, i: nat, t: Tid)
    requires IsOutputRun(run) && i < |run| && CanSend(run[i], t)
    ensures run[i].device.pcs[t].Issuing? ==> !run[i].device.active
    ensures run[i].device.semaphore.value + One(run[i].device.active) == |D.Waiting(run[i].device)| <= 1
    ensures !run[i].sendBusy && run[i].wire == Kept(run[i].handed)
  {
    hide D.Inv, D.Step;
    OutputRunKeepsInv(run, i);
    D.OneRequest(run[i].device);
    if run[i].device.pcs[t].Issuing? {
      D.StepKeepsInv(run[i].device, t, run[i].device.pcs[t].request, true);
    }
  }
}
