/** The lossy and half-duplex proxy: the receiving thread and the delay worker share a bounded queue and two globals. */
module LossyProxy {
  import opened CText

  const MS_MODULUS: int := 0x1_0000_0000  // csp_get_ms() is a uint32_t
  const QUEUE_SIZE := 1024

  datatype Message = Message(id: nat, data: seq<byte>)

  /** `due` is the time asked for; the code stores it modulo 2^32. `accepted` is when it was computed. */
  datatype Delayed = Delayed(msg: Message, due: int, hdx: bool, accepted: nat)

  /** A message handed to the backend, at which time, and the delay it served if any. */
  datatype Sent = Sent(msg: Message, time: nat, served: Option<Delayed>)

  const INT_MODULUS: int := 0x8000_0000

  type Int32 = x: int | -INT_MODULUS <= x < INT_MODULUS

  /** The command line's settings, each a C int. */
  datatype Config = Config(hdxNode: Int32, powerup: Int32, powerdown: Int32, delay: Int32)

  /** Where the receiving thread is. Each value is a point between two accesses to shared state. */
  datatype Front =
    | Polling
    | HdxTest(msg: Message, src: int, dst: int)
    | HdxStart(msg: Message)
    | HdxStamp(msg: Message)
    | HdxSetLast(msg: Message, dst: int)
    | HdxDropTest(msg: Message, dst: int)
    | Filtering(msg: Message)
    | Stamping(msg: Message)
    | Enqueuing(d: Delayed)
    | Sending(msg: Message)

  /** Where the delay worker is. */
  datatype Worker =
    | Sizing
    | Looping(i: nat, count: nat)
    | Holding(i: nat, count: nat, d: Delayed)
    | SettingLast
    | ClearingStart

  datatype State = State(
    now: nat, lastTx: int, powerupStart: int,
    queue: seq<Delayed>, front: Front, worker: Worker,
    received: seq<seq<byte>>, sent: seq<Sent>, dropped: seq<Message>, overflowed: seq<Message>,
    dequeuedEmpty: bool)

  datatype Flip = Flip(at: nat, bit: nat)

  datatype Fate = Drop | Delay | Forward

  datatype Event =
    | Tick
    | Receive(data: seq<byte>, src: int, dst: int)
    | Filter(flip: Option<Flip>, fate: Fate)
    | Front
    | Work

  function Start(now: nat): State {
    State(now, 0, 0, [], Polling, Sizing, [], [], [], [], false)
  }

  /** data[at] ^= 1 << bit */
  function FlipBit(data: seq<byte>, f: Flip): seq<byte>
    requires f.at < |data| && f.bit < 8
  {
    data[f.at := data[f.at] ^ Mask(f.bit)]
  }

  function Mask(bit: nat): byte
    requires bit < 8
  {
    (1 as byte) << bit
  }

  predicate Enabled(s: State, e: Event) {
    match e
    case Tick => true
    case Receive(_, _, _) => s.front.Polling?
    case Filter(flip, _) =>
      // rand() % size and rand() % 8; an empty message is never flipped
      s.front.Filtering? && (flip.Some? ==> flip.value.at < |s.front.msg.data| && flip.value.bit < 8)
    case Front => !s.front.Polling? && !s.front.Filtering?
    case Work => true
  }

  /** Comparisons of times are made on 32-bit unsigned values. */
  predicate After(a: int, b: int) { a % MS_MODULUS > b % MS_MODULUS }

  /** csp_queue_enqueue() on a full queue returns an error nobody looks at. */
  function Enqueue(s: State, d: Delayed): State {
    if |s.queue| < QUEUE_SIZE then s.(queue := s.queue + [d])
    else s.(overflowed := s.overflowed + [d.msg])
  }

  function FrontStep(c: Config, s: State): State
    requires Enabled(s, Event.Front)
  {
    match s.front
    case HdxTest(m, src, dst) =>
      if src == c.hdxNode && After(s.now, s.lastTx + c.powerdown) then s.(front := HdxStart(m))
      else if src == c.hdxNode then s.(front := HdxSetLast(m, dst))
      else s.(front := HdxDropTest(m, dst))
    case HdxStart(m) =>
      s.(front := HdxStamp(m), powerupStart := if s.powerupStart % MS_MODULUS == 0 then s.now else s.powerupStart)
    case HdxStamp(m) =>
      s.(front := Enqueuing(Delayed(m, s.powerupStart + c.powerup, true, s.now)))
    case HdxSetLast(m, dst) =>
      s.(front := HdxDropTest(m, dst), lastTx := s.now)
    case HdxDropTest(m, dst) =>
      if dst == c.hdxNode && After(s.lastTx + c.powerdown, s.now) then
        s.(front := Polling, dropped := s.dropped + [m])
      else s.(front := Filtering(m))
    case Stamping(m) =>
      s.(front := Enqueuing(Delayed(m, s.now + c.delay, false, s.now)))
    case Enqueuing(d) =>
      Enqueue(s.(front := Polling), d)
    case Sending(m) =>
      s.(front := Polling, sent := s.sent + [Sent(m, s.now, None)])
  }

  function WorkStep(s: State): State {
    match s.worker
    case Sizing => s.(worker := Looping(0, |s.queue|))
    case Looping(i, count) =>
      if i >= count then s.(worker := Sizing)
      else if s.queue == [] then s.(dequeuedEmpty := true)
      else s.(worker := Holding(i, count, s.queue[0]), queue := s.queue[1..])
    case Holding(i, count, d) =>
      if After(s.now, d.due) then
        s.(sent := s.sent + [Sent(d.msg, s.now, Some(d))], worker := if d.hdx then SettingLast else Sizing)
      else Enqueue(s.(worker := Looping(i + 1, count)), d)
    case SettingLast => s.(lastTx := s.now, worker := ClearingStart)
    case ClearingStart => s.(powerupStart := 0, worker := Sizing)
  }

  function Step(c: Config, s: State, e: Event): State
    requires Enabled(s, e)
  {
    match e
    case Tick => s.(now := s.now + 1)
    case Receive(data, src, dst) =>
      var m := Message(|s.received|, data);
      s.(received := s.received + [data],
         front := if c.hdxNode != 0 then HdxTest(m, src, dst) else Filtering(m))
    case Filter(flip, fate) =>
      var m := s.front.msg;
      var m' := if flip.Some? then m.(data := FlipBit(m.data, flip.value)) else m;
      (match fate
       case Drop => s.(front := Polling, dropped := s.dropped + [m'])
       case Delay => s.(front := Stamping(m'))
       case Forward => s.(front := Sending(m')))
    case Front => FrontStep(c, s)
    case Work => WorkStep(s)
  }

  // ----- Where each received message is

  function InQueue(q: seq<Delayed>, id: nat): nat {
    if q == [] then 0 else (if q[0].msg.id == id then 1 else 0) + InQueue(q[1..], id)
  }

  function InMessages(l: seq<Message>, id: nat): nat {
    if l == [] then 0 else InMessages(l[..|l| - 1], id) + if l[|l| - 1].id == id then 1 else 0
  }

  function InSent(l: seq<Sent>, id: nat): nat {
    if l == [] then 0 else InSent(l[..|l| - 1], id) + if l[|l| - 1].msg.id == id then 1 else 0
  }

  function FrontMessage(f: Front): Option<Message> {
    match f
    case Polling => None
    case Enqueuing(d) => Some(d.msg)
    case _ => Some(f.msg)
  }

  function WorkerMessage(w: Worker): Option<Message> {
    if w.Holding? then Some(w.d.msg) else None
  }

  function Held(m: Option<Message>, id: nat): nat {
    if m.Some? && m.value.id == id then 1 else 0
  }

  /** How many times the message with this id was sent, dropped, lost to a full queue, or is still inside. */
  function Places(s: State, id: nat): nat {
    InSent(s.sent, id) + InMessages(s.dropped, id) + InMessages(s.overflowed, id)
    + InQueue(s.queue, id) + Held(FrontMessage(s.front), id) + Held(WorkerMessage(s.worker), id)
  }

  ghost predicate Conserved(s: State) {
    forall id: nat :: Places(s, id) == if id < |s.received| then 1 else 0
  }

  lemma {:induction false} InQueueSnoc(q: seq<Delayed>, d: Delayed, id: nat)
    ensures InQueue(q + [d], id) == InQueue(q, id) + if d.msg.id == id then 1 else 0
  {
    if q == [] {
      assert (q + [d])[1..] == [];
    } else {
      assert (q + [d])[1..] == q[1..] + [d];
      InQueueSnoc(q[1..], d, id);
    }
  }

  lemma InQueueHead(q: seq<Delayed>, id: nat)
    requires q != []
    ensures InQueue(q, id) == InQueue(q[1..], id) + if q[0].msg.id == id then 1 else 0
  {
  }

  lemma InMessagesSnoc(l: seq<Message>, m: Message, id: nat)
    ensures InMessages(l + [m], id) == InMessages(l, id) + if m.id == id then 1 else 0
  {
    assert (l + [m])[..|l|] == l;
  }

  lemma InSentSnoc(l: seq<Sent>, x: Sent, id: nat)
    ensures InSent(l + [x], id) == InSent(l, id) + if x.msg.id == id then 1 else 0
  {
    assert (l + [x])[..|l|] == l;
  }

  lemma EnqueuePlaces(s: State, d: Delayed, id: nat)
    ensures Places(Enqueue(s, d), id) == Places(s, id) + if d.msg.id == id then 1 else 0
  {
    hide InQueue, InMessages, InSent, After;
    InQueueSnoc(s.queue, d, id);
    InMessagesSnoc(s.overflowed, d.msg, id);
  }

  lemma FrontPlaces(c: Config, s: State, id: nat)
    requires Enabled(s, Event.Front)
    ensures Places(FrontStep(c, s), id) == Places(s, id)
  {
    hide InQueue, InMessages, InSent, After;
    match s.front
    case HdxDropTest(m, dst) => InMessagesSnoc(s.dropped, m, id);
    case Enqueuing(d) => EnqueuePlaces(s.(front := Polling), d, id);
    case Sending(m) => InSentSnoc(s.sent, Sent(m, s.now, None), id);
    case _ =>
  }

  lemma WorkPlaces(s: State, id: nat)
    ensures Places(WorkStep(s), id) == Places(s, id)
  {
    hide InQueue, InMessages, InSent, After;
    match s.worker
    case Holding(i, count, d) =>
      if After(s.now, d.due) {
        InSentSnoc(s.sent, Sent(d.msg, s.now, Some(d)), id);
      } else {
        EnqueuePlaces(s.(worker := Looping(i + 1, count)), d, id);
      }
    case Looping(i, count) =>
      if s.queue != [] { InQueueHead(s.queue, id); }
    case _ =>
  }

  lemma StepPlaces(c: Config, s: State, e: Event, id: nat)
    requires Enabled(s, e)
    ensures Places(Step(c, s, e), id) == Places(s, id) + if e.Receive? && id == |s.received| then 1 else 0
  {
    hide InQueue, InMessages, InSent, After;
    match e
    case Tick =>
    case Receive(data, src, dst) =>
    case Filter(flip, fate) =>
      if fate.Drop? { InMessagesSnoc(s.dropped, Step(c, s, e).dropped[|s.dropped|], id); }
    case Front => FrontPlaces(c, s, id);
    case Work => WorkPlaces(s, id);
  }

  lemma StepConserves(c: Config, s: State, e: Event)
    requires Enabled(s, e) && Conserved(s)
    ensures Conserved(Step(c, s, e))
  {
    hide Places, After;
    forall id: nat ensures Places(Step(c, s, e), id) == if id < |Step(c, s, e).received| then 1 else 0 {
      StepPlaces(c, s, e, id);
    }
  }

  // ----- What a message may look like, and when it may leave

  predicate OneBitOff(a: seq<byte>, b: seq<byte>) {
    exists at, bit :: 0 <= at < |a| && 0 <= bit < 8 && b == FlipBit(a, Flip(at, bit))
  }

  /** A flip changes the byte, and the same flip again undoes it. */
  lemma FlipTwice(data: seq<byte>, f: Flip)
    requires f.at < |data| && f.bit < 8
    ensures FlipBit(data, f) != data && FlipBit(FlipBit(data, f), f) == data
  {
    SingleBit(f.bit);
    hide Mask;
    var b, mask := data[f.at], Mask(f.bit);
    XorTwice(b, mask);
    UpdateTwice(data, f.at, b ^ mask);
    assert FlipBit(data, f)[f.at] == b ^ mask;
  }

  lemma UpdateTwice<T>(s: seq<T>, at: nat, x: T)
    requires at < |s|
    ensures s[at := x][at := s[at]] == s
  {
  }

  lemma XorTwice(b: byte, x: byte)
    requires x != 0
    ensures b ^ x != b && (b ^ x) ^ x == b
  {
  }

  lemma SingleBit(bit: nat)
    requires bit < 8
    ensures Mask(bit) != 0
  {
    assert bit == 0 || bit == 1 || bit == 2 || bit == 3 || bit == 4 || bit == 5 || bit == 6 || bit == 7;
  }

  /** The message is what was received under its id, up to one flipped bit. */
  predicate Genuine(s: State, m: Message) {
    m.id < |s.received| && |m.data| == |s.received[m.id]|
    && (m.data == s.received[m.id] || OneBitOff(s.received[m.id], m.data))
  }

  predicate Untouched(s: State, m: Message) {
    m.id < |s.received| && m.data == s.received[m.id]
  }

  predicate GenuineDelayed(s: State, d: Delayed) {
    Genuine(s, d.msg) && (d.hdx ==> Untouched(s, d.msg)) && d.accepted <= s.now
  }

  predicate GenuineSent(s: State, x: Sent) {
    && Genuine(s, x.msg) && x.time <= s.now
    && (x.served.Some? ==>
          var d := x.served.value; d.msg == x.msg && d.accepted <= x.time && After(x.time, d.due))
  }

  predicate FrontInv(s: State) {
    match s.front
    case Polling => true
    case Enqueuing(d) => GenuineDelayed(s, d)
    case Stamping(m) => Genuine(s, m)
    case Sending(m) => Genuine(s, m)
    case _ => Untouched(s, s.front.msg)  // corruption comes after the half-duplex tests
  }

  /** The worker counted at least as many entries as it will take out. */
  predicate WorkerInv(s: State) {
    match s.worker
    case Looping(i, count) => count <= i + |s.queue|
    case Holding(i, count, d) => count <= i + 1 + |s.queue| && GenuineDelayed(s, d)
    case _ => true
  }

  ghost predicate Inv(s: State) {
    && |s.queue| <= QUEUE_SIZE && !s.dequeuedEmpty
    && Conserved(s)
    && FrontInv(s) && WorkerInv(s) && MessagesInv(s)
  }

  lemma StartInv(now: nat)
    ensures Inv(Start(now))
  {
  }

  /** Nothing about a message already inside changes as time passes and others arrive. */
  lemma StillGenuine(s: State, s': State)
    requires s.received <= s'.received && s.now <= s'.now
    ensures forall m :: Genuine(s, m) ==> Genuine(s', m)
    ensures forall m :: Untouched(s, m) ==> Untouched(s', m)
    ensures forall d :: GenuineDelayed(s, d) ==> GenuineDelayed(s', d)
    ensures forall x :: GenuineSent(s, x) ==> GenuineSent(s', x)
  {
    forall m | Genuine(s, m) ensures Genuine(s', m) {
      assert s'.received[m.id] == s.received[m.id];
    }
    forall m | Untouched(s, m) ensures Untouched(s', m) {
      assert s'.received[m.id] == s.received[m.id];
    }
  }

  lemma FilterGenuine(s: State, flip: Option<Flip>, fate: Fate)
    requires Enabled(s, Filter(flip, fate)) && FrontInv(s)
    ensures var m := s.front.msg;
            Genuine(s, if flip.Some? then m.(data := FlipBit(m.data, flip.value)) else m)
  {
    var m := s.front.msg;
    if flip.Some? {
      var Flip(at, bit) := flip.value;
      assert FlipBit(m.data, Flip(at, bit)) == FlipBit(s.received[m.id], Flip(at, bit));
    }
  }

  predicate MessagesInv(s: State) {
    && (forall i :: 0 <= i < |s.queue| ==> GenuineDelayed(s, s.queue[i]))
    && (forall i :: 0 <= i < |s.sent| ==> GenuineSent(s, s.sent[i]))
    && (forall i :: 0 <= i < |s.dropped| ==> Genuine(s, s.dropped[i]))
    && (forall i :: 0 <= i < |s.overflowed| ==> Genuine(s, s.overflowed[i]))
  }

  lemma EnqueueInv(s: State, d: Delayed)
    requires MessagesInv(s) && GenuineDelayed(s, d) && |s.queue| <= QUEUE_SIZE
    ensures MessagesInv(Enqueue(s, d)) && |Enqueue(s, d).queue| <= QUEUE_SIZE
  {
  }

  lemma FrontStepInv(c: Config, s: State)
    requires Inv(s) && Enabled(s, Event.Front)
    ensures var s' := FrontStep(c, s); FrontInv(s') && WorkerInv(s') && MessagesInv(s') && |s'.queue| <= QUEUE_SIZE
  {
    UntouchedIsGenuine(s);
    StillGenuine(s, FrontStep(c, s));
    hide Genuine, Untouched, Conserved, After;
    if s.front.Enqueuing? {
      var idle := s.(front := Polling);
      StillGenuine(s, idle);
      EnqueueInv(idle, s.front.d);
    }
  }

  lemma UntouchedIsGenuine(s: State)
    ensures forall m :: Untouched(s, m) ==> Genuine(s, m)
  {
  }

  lemma WorkStepInv(s: State)
    requires Inv(s)
    ensures var s' := WorkStep(s);
            FrontInv(s') && WorkerInv(s') && MessagesInv(s') && |s'.queue| <= QUEUE_SIZE && !s'.dequeuedEmpty
  {
    StillGenuine(s, WorkStep(s));
    hide Genuine, Untouched, Conserved, After;
    match s.worker
    case Holding(i, count, d) =>
      if !After(s.now, d.due) {
        var free := s.(worker := Looping(i + 1, count));
        StillGenuine(s, free);
        EnqueueInv(free, d);
      }
    case _ =>
  }

  lemma StepInv(c: Config, s: State, e: Event)
    requires Inv(s) && Enabled(s, e)
    ensures Inv(Step(c, s, e))
  {
    hide Places, After;
    StepConserves(c, s, e);
    match e
    case Filter(flip, fate) =>
      FilterGenuine(s, flip, fate);
      StillGenuine(s, Step(c, s, e));
    case Front => FrontStepInv(c, s);
    case Work => WorkStepInv(s);
    case _ => StillGenuine(s, Step(c, s, e));
  }

  // ----- Whole runs

  predicate Runs(c: Config, s: State, run: seq<Event>)
    decreases |run|
  {
    run == [] || (Enabled(s, run[0]) && Runs(c, Step(c, s, run[0]), run[1..]))
  }

  function Execute(c: Config, s: State, run: seq<Event>): State
    requires Runs(c, s, run)
    decreases |run|
  {
    if run == [] then s else Execute(c, Step(c, s, run[0]), run[1..])
  }

  lemma {:induction false} RunInv(c: Config, s: State, run: seq<Event>)
    requires Inv(s) && Runs(c, s, run)
    ensures Inv(Execute(c, s, run))
    decreases |run|
  {
    if run != [] {
      StepInv(c, s, run[0]);
      RunInv(c, Step(c, s, run[0]), run[1..]);
    }
  }

  /** Every interleaving: each received message is at exactly one place, at most one bit off, and the worker never finds the queue empty. */
  lemma NothingDuplicatedOrForged(c: Config, now: nat, run: seq<Event>)
    requires Runs(c, Start(now), run)
    ensures var end := Execute(c, Start(now), run);
            && (forall id: nat :: Places(end, id) == if id < |end.received| then 1 else 0)
            && (forall i :: 0 <= i < |end.sent| ==> Genuine(end, end.sent[i].msg))
            && !end.dequeuedEmpty
  {
    StartInv(now);
    RunInv(c, Start(now), run);
  }

  // ----- Half duplex

  /** What becomes of a message at the half-duplex tests when nothing else runs meanwhile. */
  datatype Gate = DelayedUntil(due: int) | DroppedThere | PassedOn

  function Result(s: State): Gate
    requires s.front.Enqueuing? || s.front.Polling? || s.front.Filtering?
  {
    match s.front
    case Enqueuing(d) => DelayedUntil(d.due)
    case Polling => DroppedThere
    case _ => PassedOn
  }

  /** The node's transmitter is still on after its last packet. */
  predicate TransmitterOn(c: Config, now: int, lastTx: int) { !After(now, lastTx + c.powerdown) }

  /** From the node with its transmitter off: delayed until it has powered up, counted from the first packet that waits.
      To the node while it transmits, by its own clock or because it sends this very packet: lost. Anything else passes. */
  lemma HalfDuplexGate(c: Config, s: State, m: Message, src: int, dst: int)
    requires s.front == HdxTest(m, src, dst)
    ensures var busy := After((if src == c.hdxNode then s.now else s.lastTx) + c.powerdown, s.now);
            var waiting := if s.powerupStart % MS_MODULUS == 0 then s.now else s.powerupStart;
            var steps := if src == c.hdxNode then 3 else 2;
            && Runs(c, s, seq(steps, _ => Event.Front))
            && var end := Execute(c, s, seq(steps, _ => Event.Front));
               && (end.front.Enqueuing? || end.front.Polling? || end.front.Filtering?)
               && Result(end) == (if src == c.hdxNode && !TransmitterOn(c, s.now, s.lastTx) then DelayedUntil(waiting + c.powerup)
                                  else if dst == c.hdxNode && busy then DroppedThere else PassedOn)
               && end.lastTx == (if src == c.hdxNode && TransmitterOn(c, s.now, s.lastTx) then s.now else s.lastTx)
  {
    hide After;
    var one := FrontStep(c, s);
    var two := FrontStep(c, one);
    FrontRun(c, s, if src == c.hdxNode then 3 else 2);
    FrontRun(c, one, if src == c.hdxNode then 2 else 1);
    if src == c.hdxNode { FrontRun(c, two, 1); }
  }

  /** Steps of the receiving thread alone. */
  lemma FrontRun(c: Config, s: State, n: nat)
    requires n > 0 && Enabled(s, Event.Front)
    ensures var run, rest := seq(n, _ => Event.Front), seq(n - 1, _ => Event.Front);
            && Runs(c, s, run) == Runs(c, FrontStep(c, s), rest)
            && (Runs(c, s, run) ==> Execute(c, s, run) == Execute(c, FrontStep(c, s), rest))
  {
    assert seq(n, _ => Event.Front)[1..] == seq(n - 1, _ => Event.Front);
  }

  /** The idle receiver takes a message to the half-duplex tests, and from there where they say, with the data received.
      Without a half-duplex node it goes on at once. */
  lemma ReceivedMeetsGate(c: Config, s: State, data: seq<byte>, src: int, dst: int)
    requires s.front.Polling?
    ensures var m := Message(|s.received|, data);
            var on := TransmitterOn(c, s.now, s.lastTx);
            var busy := After((if src == c.hdxNode then s.now else s.lastTx) + c.powerdown, s.now);
            var waiting := if s.powerupStart % MS_MODULUS == 0 then s.now else s.powerupStart;
            var steps := if c.hdxNode == 0 then 0 else if src == c.hdxNode then 3 else 2;
            var run := [Receive(data, src, dst)] + seq(steps, _ => Event.Front);
            && Runs(c, s, run)
            && var end := Execute(c, s, run);
               && end.received == s.received + [data] && end.queue == s.queue && end.sent == s.sent
               && if c.hdxNode != 0 && src == c.hdxNode && !on then
                    && end.front == Enqueuing(Delayed(m, waiting + c.powerup, true, s.now)) && end.dropped == s.dropped
                    && end.powerupStart == waiting && end.lastTx == s.lastTx
                  else if c.hdxNode != 0 && dst == c.hdxNode && busy then
                    && end.front == Polling && end.dropped == s.dropped + [m] && end.powerupStart == s.powerupStart
                    && end.lastTx == if src == c.hdxNode then s.now else s.lastTx
                  else
                    && end.front == Filtering(m) && end.dropped == s.dropped && end.powerupStart == s.powerupStart
                    && end.lastTx == if c.hdxNode != 0 && src == c.hdxNode then s.now else s.lastTx
  {
    hide After;
    var e := Receive(data, src, dst);
    var zero := Step(c, s, e);
    var steps := if c.hdxNode == 0 then 0 else if src == c.hdxNode then 3 else 2;
    var fronts := seq(steps, _ => Event.Front);
    if steps == 0 {
      assert fronts == [];
    } else {
      var one := FrontStep(c, zero);
      var two := FrontStep(c, one);
      FrontRun(c, zero, steps);
      FrontRun(c, one, steps - 1);
      if steps == 3 { FrontRun(c, two, 1); }
    }
    RunsStep(c, s, e, fronts, zero);
  }

  predicate BitAt(b: byte, bit: nat)
    requires bit < 8
  {
    (b >> bit) & 1 == 1
  }

  /** The message as it leaves the corruption: as it was, or with one bit of one byte turned over. */
  predicate Corrupted(data: seq<byte>, flip: Option<Flip>, r: seq<byte>) {
    match flip
    case None => r == data
    case Some(f) =>
      && |r| == |data| && (forall i :: 0 <= i < |r| && i != f.at ==> r[i] == data[i])
      && (f.at < |r| ==> forall bit :: 0 <= bit < 8 ==> BitAt(r[f.at], bit) == (BitAt(data[f.at], bit) != (bit == f.bit)))
  }

  /** A flip turns over the bit it names, and no other. */
  lemma FlipsNamedBit(data: seq<byte>, f: Flip)
    requires f.at < |data| && f.bit < 8
    ensures Corrupted(data, Some(f), FlipBit(data, f))
  {
    var b, r := data[f.at], FlipBit(data, f);
    forall bit | 0 <= bit < 8 ensures BitAt(r[f.at], bit) == (BitAt(b, bit) != (bit == f.bit)) {
      XorOneBit(b, f.bit, bit);
    }
  }

  lemma XorOneBit(b: byte, flipped: nat, bit: nat)
    requires flipped < 8 && bit < 8
    ensures BitAt(b ^ Mask(flipped), bit) == (BitAt(b, bit) != (bit == flipped))
  {
    assert flipped == 0 || flipped == 1 || flipped == 2 || flipped == 3
        || flipped == 4 || flipped == 5 || flipped == 6 || flipped == 7;
    assert bit == 0 || bit == 1 || bit == 2 || bit == 3 || bit == 4 || bit == 5 || bit == 6 || bit == 7;
  }

  /** What the filter decides, carried out: dropped at once, sent by the next step, or queued by the next two, due after the delay. */
  lemma FatesCarriedOut(c: Config, s: State, m: Message, flip: Option<Flip>, fate: Fate)
    requires s.front == Filtering(m) && Enabled(s, Filter(flip, fate))
    ensures var steps := if fate.Drop? then 0 else if fate.Forward? then 1 else 2;
            var run := [Filter(flip, fate)] + seq(steps, _ => Event.Front);
            && Runs(c, s, run)
            && var end := Execute(c, s, run);
               && end.front.Polling? && end.received == s.received
               && exists data :: Corrupted(m.data, flip, data)
                    && var out := Message(m.id, data);
                       match fate
                       case Drop => end.dropped == s.dropped + [out] && end.sent == s.sent && end.queue == s.queue
                       case Forward =>
                         end.sent == s.sent + [Sent(out, s.now, None)] && end.dropped == s.dropped && end.queue == s.queue
                       case Delay =>
                         && end.sent == s.sent && end.dropped == s.dropped
                         && (|s.queue| < 1024 ==> end.queue == s.queue + [Delayed(out, s.now + c.delay, false, s.now)])
                         && (|s.queue| >= 1024 ==> end.queue == s.queue && end.overflowed == s.overflowed + [out])
  {
    hide Corrupted, FlipBit;
    var e := Filter(flip, fate);
    var data := if flip.Some? then FlipBit(m.data, flip.value) else m.data;
    if flip.Some? { FlipsNamedBit(m.data, flip.value); } else { Unflipped(m.data); }
    var zero := Step(c, s, e);
    var steps := if fate.Drop? then 0 else if fate.Forward? then 1 else 2;
    var fronts := seq(steps, _ => Event.Front);
    if steps == 0 {
      assert fronts == [];
    } else {
      FrontRun(c, zero, steps);
      if steps == 2 { FrontRun(c, FrontStep(c, zero), 1); }
    }
    RunsStep(c, s, e, fronts, zero);
    assert Corrupted(m.data, flip, data);
  }

  lemma Unflipped(data: seq<byte>)
    ensures Corrupted(data, None, data)
  {
  }

  /** The clock runs. */
  lemma {:induction false} TicksPass(c: Config, s: State, n: nat)
    ensures var run := seq(n, _ => Tick);
            Runs(c, s, run) && Execute(c, s, run) == s.(now := s.now + n)
    decreases n
  {
    var run := seq(n, _ => Tick);
    if n > 0 {
      assert run[1..] == seq(n - 1, _ => Tick);
      TicksPass(c, s.(now := s.now + 1), n - 1);
    }
  }

  /** The worker sends what it holds once that is due; for a half-duplex packet it then notes the time and ends the power-up. */
  lemma DueIsSent(s: State, d: Delayed)
    requires s.worker.Holding? && s.worker.d == d && s.now % 0x1_0000_0000 > d.due % 0x1_0000_0000
    ensures var one := WorkStep(s);
            && one.sent == s.sent + [Sent(d.msg, s.now, Some(d))] && one.queue == s.queue
            && (!d.hdx ==> one.worker.Sizing? && one.lastTx == s.lastTx && one.powerupStart == s.powerupStart)
            && (d.hdx ==> var three := WorkStep(WorkStep(one));
                          three.worker.Sizing? && three.lastTx == s.now && three.powerupStart == 0 && three.sent == one.sent)
  {
  }

  // ----- Due times

  /** The 32-bit clock does not wrap between accepting a message and its due time. */
  predicate SameEpoch(accepted: int, due: int) {
    due < accepted || due / MS_MODULUS == accepted / MS_MODULUS
  }

  /** Released at a moment when the 32-bit comparison said so. */
  lemma ReleaseAfterDue(accepted: nat, due: int, time: nat)
    requires accepted <= time && After(time, due) && SameEpoch(accepted, due)
    ensures time > due
  {
    assert time / MS_MODULUS >= accepted / MS_MODULUS;
  }

  /** No delayed message leaves before its due time has strictly passed, unless the 32-bit clock wrapped. */
  lemma NoEarlyRelease(c: Config, now: nat, run: seq<Event>, i: nat)
    requires Runs(c, Start(now), run) && i < |Execute(c, Start(now), run).sent|
    ensures var x := Execute(c, Start(now), run).sent[i];
            x.served.Some? && SameEpoch(x.served.value.accepted, x.served.value.due) ==> x.time > x.served.value.due
  {
    StartInv(now);
    RunInv(c, Start(now), run);
    var end := Execute(c, Start(now), run);
    var x := end.sent[i];
    assert GenuineSent(end, x);
    if x.served.Some? && SameEpoch(x.served.value.accepted, x.served.value.due) {
      ReleaseAfterDue(x.served.value.accepted, x.served.value.due, x.time);
    }
  }

  /** Whatever was accepted and due at these times left after its due time, if it left. */
  predicate OnTime(s: State, accepted: nat, due: int) {
    forall i :: 0 <= i < |s.sent| && ServedFrom(s.sent[i], accepted, due) ==> s.sent[i].time > due
  }

  predicate ServedFrom(x: Sent, accepted: nat, due: int) {
    x.served.Some? && x.served.value.accepted == accepted && x.served.value.due == due
  }

  /** Accept one message, delay it, and let the worker take it at once. */
  const DELAY_ONE := [Receive([], 0, 0), Filter(None, Delay), Event.Front, Event.Front, Work, Work, Work]

  /** When the clock wraps before the due time, the worker that looks at once sends at once. */
  lemma LeavesEarly(accepted: nat, due: int)
    requires accepted <= due < accepted + INT_MODULUS && !SameEpoch(accepted, due)
    ensures var c := Config(0, 0, 0, due - accepted);
            && Runs(c, Start(accepted), DELAY_ONE)
            && var d := Delayed(Message(0, []), due, false, accepted);
               Execute(c, Start(accepted), DELAY_ONE).sent == [Sent(d.msg, accepted, Some(d))]
  {
    var c := Config(0, 0, 0, due - accepted);
    var m := Message(0, []);
    var d := Delayed(m, due, false, accepted);
    assert After(accepted, due) by {
      assert due / MS_MODULUS == accepted / MS_MODULUS + 1;
    }
    hide After;
    var s0 := Start(accepted);
    var s1 := s0.(received := [[]], front := Filtering(m));
    var s2 := s1.(front := Stamping(m));
    var s3 := s2.(front := Enqueuing(d));
    var s4 := s3.(front := Polling, queue := [d]);
    var s5 := s4.(worker := Looping(0, 1));
    var s6 := s5.(worker := Holding(0, 1, d), queue := []);
    var s7 := s6.(sent := [Sent(m, accepted, Some(d))], worker := Sizing);
    RunsStep(c, s6, Work, [], s7);
    RunsStep(c, s5, Work, [Work], s6);
    RunsStep(c, s4, Work, [Work, Work], s5);
    RunsStep(c, s3, Event.Front, [Work, Work, Work], s4);
    RunsStep(c, s2, Event.Front, [Event.Front, Work, Work, Work], s3);
    RunsStep(c, s1, Filter(None, Delay), [Event.Front, Event.Front, Work, Work, Work], s2);
    RunsStep(c, s0, Receive([], 0, 0), [Filter(None, Delay), Event.Front, Event.Front, Work, Work, Work], s1);
  }

  lemma RunsStep(c: Config, s: State, e: Event, rest: seq<Event>, next: State)
    requires Enabled(s, e) && Step(c, s, e) == next && Runs(c, next, rest)
    ensures Runs(c, s, [e] + rest) && Execute(c, s, [e] + rest) == Execute(c, next, rest)
  {
    hide Step, Enabled;
    assert ([e] + rest)[1..] == rest;
  }

  /** No setting delays a message by 2^31 ms or more. */
  predicate Near(d: Delayed) { d.due < d.accepted + INT_MODULUS }

  predicate DueInv(s: State) {
    && s.powerupStart <= s.now
    && (s.front.Enqueuing? ==> Near(s.front.d)) && (s.worker.Holding? ==> Near(s.worker.d))
    && (forall i :: 0 <= i < |s.queue| ==> Near(s.queue[i]))
    && (forall i :: 0 <= i < |s.sent| ==> s.sent[i].served.Some? ==> Near(s.sent[i].served.value))
  }

  lemma DueStep(c: Config, s: State, e: Event)
    requires DueInv(s) && Enabled(s, e)
    ensures DueInv(Step(c, s, e))
  {
    hide After;
  }

  lemma {:induction false} DueRun(c: Config, s: State, run: seq<Event>)
    requires DueInv(s) && Runs(c, s, run)
    ensures DueInv(Execute(c, s, run))
    decreases |run|
  {
    hide DueInv, Step, Enabled;
    if run != [] {
      DueStep(c, s, run[0]);
      DueRun(c, Step(c, s, run[0]), run[1..]);
    }
  }

  /** Over all configurations, starts and interleavings: no message accepted and due at these times ever leaves early
      exactly when the 32-bit clock does not wrap between the two, or no setting can delay a message for so long. */
  lemma NeverEarlyIffSameEpoch(accepted: nat, due: int)
    ensures (forall c: Config, now: nat, run: seq<Event> :: Runs(c, Start(now), run) ==>
               OnTime(Execute(c, Start(now), run), accepted, due))
            <==> SameEpoch(accepted, due) || due >= accepted + INT_MODULUS
  {
    hide Runs, Execute, Start;
    if SameEpoch(accepted, due) || due >= accepted + INT_MODULUS {
      forall c: Config, now: nat, run: seq<Event> | Runs(c, Start(now), run)
        ensures OnTime(Execute(c, Start(now), run), accepted, due)
      {
        var end := Execute(c, Start(now), run);
        StartDue(now);
        DueRun(c, Start(now), run);
        forall i | 0 <= i < |end.sent| && ServedFrom(end.sent[i], accepted, due) ensures end.sent[i].time > due {
          NoEarlyRelease(c, now, run, i);
          assert Near(end.sent[i].served.value);
        }
      }
    } else {
      LeavesEarly(accepted, due);
      var c := Config(0, 0, 0, due - accepted);
      var end := Execute(c, Start(accepted), DELAY_ONE);
      assert ServedFrom(end.sent[0], accepted, due) && !OnTime(end, accepted, due);
    }
  }

  lemma StartDue(now: nat)
    ensures DueInv(Start(now))
  {
  }

  // ----- The queue overflows only beyond 1024 messages in flight

  /** Delayed messages queued, held by the worker, or about to be queued. */
  function InFlight(s: State): nat {
    |s.queue| + (if s.worker.Holding? then 1 else 0) + (if s.front.Enqueuing? then 1 else 0)
  }

  predicate NeverBeyond(c: Config, s: State, run: seq<Event>, limit: nat)
    requires Runs(c, s, run)
    decreases |run|
  {
    InFlight(s) <= limit && (run == [] || NeverBeyond(c, Step(c, s, run[0]), run[1..], limit))
  }

  lemma {:induction false} NoneLostWithinCapacity(c: Config, s: State, run: seq<Event>)
    requires Runs(c, s, run) && NeverBeyond(c, s, run, QUEUE_SIZE)
    ensures Execute(c, s, run).overflowed == s.overflowed
    decreases |run|
  {
    if run != [] {
      NoneLostWithinCapacity(c, Step(c, s, run[0]), run[1..]);
    }
  }

  lemma {:induction false} BeyondMonotone(c: Config, s: State, run: seq<Event>, limit: nat, more: nat)
    requires Runs(c, s, run) && NeverBeyond(c, s, run, limit) && limit <= more
    ensures NeverBeyond(c, s, run, more)
    decreases |run|
  {
    hide Step, Enabled, InFlight;
    if run != [] {
      BeyondMonotone(c, Step(c, s, run[0]), run[1..], limit, more);
    }
  }

  lemma BeyondStep(c: Config, s: State, e: Event, rest: seq<Event>, next: State, limit: nat)
    requires Enabled(s, e) && Step(c, s, e) == next && Runs(c, next, rest)
    requires InFlight(s) <= limit && NeverBeyond(c, next, rest, limit)
    ensures Runs(c, s, [e] + rest) && Execute(c, s, [e] + rest) == Execute(c, next, rest)
    ensures NeverBeyond(c, s, [e] + rest, limit)
  {
    hide Step, Enabled, InFlight;
    RunsStep(c, s, e, rest, next);
    assert ([e] + rest)[1..] == rest;
  }

  /** While the worker does not get to run, n messages are delayed; those beyond the queue's size are lost. */
  lemma {:induction false} FillQueue(s: State, n: nat, limit: nat) returns (run: seq<Event>)
    requires s.front.Polling? && s.worker.Sizing? && |s.queue| <= QUEUE_SIZE && |s.queue| + n <= limit
    ensures var c := Config(0, 0, 0, 0);
            && Runs(c, s, run) && NeverBeyond(c, s, run, limit)
            && |Execute(c, s, run).overflowed|
               == |s.overflowed| + if |s.queue| + n > QUEUE_SIZE then |s.queue| + n - QUEUE_SIZE else 0
    decreases n
  {
    run := [];
    if n > 0 {
      var c, m := Config(0, 0, 0, 0), Message(|s.received|, []);
      var s1 := s.(received := s.received + [[]], front := Filtering(m));
      var s2 := s1.(front := Stamping(m));
      var s3 := s2.(front := Enqueuing(Delayed(m, s.now, false, s.now)));
      var s4 := Enqueue(s3.(front := Polling), s3.front.d);
      run := FillQueue(s4, n - 1, limit);
      BeyondStep(c, s3, Event.Front, run, s4, limit);
      run := [Event.Front] + run;
      BeyondStep(c, s2, Event.Front, run, s3, limit);
      run := [Event.Front] + run;
      BeyondStep(c, s1, Filter(None, Delay), run, s2, limit);
      run := [Filter(None, Delay)] + run;
      BeyondStep(c, s, Receive([], 0, 0), run, s1, limit);
      run := [Receive([], 0, 0)] + run;
    }
  }

  /** 1024 is the exact capacity: a limit on the messages in flight protects all of them, in every run, only up to it. */
  lemma CapacityIsExact(limit: nat)
    ensures (forall c: Config, now: nat, run: seq<Event> ::
               Runs(c, Start(now), run) && NeverBeyond(c, Start(now), run, limit) ==>
                 Execute(c, Start(now), run).overflowed == [])
            <==> limit <= 1024
  {
    hide Runs, Execute, NeverBeyond;
    if limit <= QUEUE_SIZE {
      forall c: Config, now: nat, run: seq<Event> | Runs(c, Start(now), run) && NeverBeyond(c, Start(now), run, limit)
        ensures Execute(c, Start(now), run).overflowed == []
      {
        BeyondMonotone(c, Start(now), run, limit, QUEUE_SIZE);
        NoneLostWithinCapacity(c, Start(now), run);
      }
    } else {
      var run := FillQueue(Start(0), limit, limit);
      var c := Config(0, 0, 0, 0);
      assert Runs(c, Start(0), run) && NeverBeyond(c, Start(0), run, limit);
      assert Execute(c, Start(0), run).overflowed != [];
    }
  }

  // ----- An undisturbed pass of the worker

  predicate Due(now: nat, d: Delayed) { After(now, d.due) }

  /** Position of the first due entry, or the length of the queue. */
  function FirstDue(now: nat, q: seq<Delayed>): (k: nat)
    ensures k <= |q|
    ensures forall i :: 0 <= i < k ==> !Due(now, q[i])
    ensures k < |q| ==> Due(now, q[k])
  {
    if q == [] || Due(now, q[0]) then 0 else 1 + FirstDue(now, q[1..])
  }

  /** The worker alone, until it sends something or has gone round the queue once. */
  function Pass(s: State): State
    requires s.worker.Looping? && s.worker.count <= s.worker.i + |s.queue|
    decreases s.worker.count - s.worker.i
  {
    if s.worker.i >= s.worker.count then s else
      var held := WorkStep(s);
      var next := WorkStep(held);
      if next.worker.Looping? && |s.queue| <= QUEUE_SIZE then Pass(next) else next
  }

  /** Taking out one entry: sent if due, otherwise back at the end of the queue. */
  lemma PassStep(s: State)
    requires s.worker.Looping? && s.queue != [] && |s.queue| <= QUEUE_SIZE
    requires s.worker.i < s.worker.count <= s.worker.i + |s.queue|
    ensures var d := s.queue[0];
            var next := s.(worker := Looping(s.worker.i + 1, s.worker.count), queue := s.queue[1..] + [d]);
            if Due(s.now, d) then
              && Pass(s).queue == s.queue[1..] && Pass(s).sent == s.sent + [Sent(d.msg, s.now, Some(d))]
            else Pass(s) == Pass(next)
  {
    hide After;
    var d := s.queue[0];
    var held := s.(worker := Holding(s.worker.i, s.worker.count, d), queue := s.queue[1..]);
    assert WorkStep(s) == held;
    if !Due(s.now, d) {
      assert WorkStep(held) == s.(worker := Looping(s.worker.i + 1, s.worker.count), queue := s.queue[1..] + [d]);
    }
  }

  /** It sends the first due entry and leaves the others in cyclic order; without one, the queue is as before. */
  lemma {:induction false} PassSendsFirstDue(s: State, todo: seq<Delayed>, passed: seq<Delayed>)
    requires s.worker.Looping? && s.queue == todo + passed && |s.queue| <= QUEUE_SIZE
    requires s.worker.count == s.worker.i + |todo|
    ensures var k := FirstDue(s.now, todo);
            var end := Pass(s);
            if k < |todo| then
              && end.queue == todo[k + 1..] + passed + todo[..k]
              && end.sent == s.sent + [Sent(todo[k].msg, s.now, Some(todo[k]))]
            else
              end.queue == passed + todo && end.sent == s.sent
    decreases |todo|
  {
    if todo == [] {
      assert passed + todo == todo + passed;
    } else {
      PassStep(s);
      hide Pass, Due;
      var rest, behind := todo[1..], passed + [todo[0]];
      assert s.queue[0] == todo[0] && s.queue[1..] == rest + passed;
      if !Due(s.now, todo[0]) {
        var next := s.(worker := Looping(s.worker.i + 1, s.worker.count), queue := s.queue[1..] + [s.queue[0]]);
        assert next.queue == rest + behind;
        PassSendsFirstDue(next, rest, behind);
        RotateOnce(todo, passed, FirstDue(s.now, rest));
      } else {
        assert rest + passed == rest + passed + todo[..0];
      }
    }
  }

  /** A whole round, from counting the queue on: the first due message of all that wait is sent, or the queue is as before. */
  lemma RoundSendsFirstDue(s: State)
    requires s.worker.Sizing? && |s.queue| <= QUEUE_SIZE
    ensures var k := FirstDue(s.now, s.queue);
            var end := Pass(WorkStep(s));
            if k < |s.queue| then
              && end.queue == s.queue[k + 1..] + s.queue[..k]
              && end.sent == s.sent + [Sent(s.queue[k].msg, s.now, Some(s.queue[k]))]
            else
              end.queue == s.queue && end.sent == s.sent
  {
    hide Pass, FirstDue;
    var start := s.(worker := Looping(0, |s.queue|));
    assert WorkStep(s) == start && s.queue + [] == s.queue && [] + s.queue == s.queue;
    PassSendsFirstDue(start, s.queue, []);
    var k := FirstDue(s.now, s.queue);
    if k < |s.queue| { assert s.queue[k + 1..] + [] + s.queue[..k] == s.queue[k + 1..] + s.queue[..k]; }
  }

  lemma RotateOnce(todo: seq<Delayed>, passed: seq<Delayed>, k: nat)
    requires todo != [] && k <= |todo| - 1
    ensures var rest, behind := todo[1..], passed + [todo[0]];
            && behind + rest == passed + todo
            && (k < |rest| ==> rest[k + 1..] + behind + rest[..k] == todo[k + 2..] + passed + todo[..k + 1])
  {
    var rest := todo[1..];
    assert [todo[0]] + rest == todo;
    if k < |rest| {
      assert rest[k + 1..] == todo[k + 2..];
      assert [todo[0]] + rest[..k] == todo[..k + 1];
    }
  }
}
