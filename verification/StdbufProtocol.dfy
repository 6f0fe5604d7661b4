/** Draining a remote ring buffer: the client pulls both pointers, peeks a slice, prints it and pushes the read pointer. */
module StdbufProtocol {

  import opened CText

  const UINT16_MODULUS := 65536
  const MAX_PEEK := 200

  /** Bytes the client wrote to its output in one peek, and where they belong in the produced stream. */
  datatype Chunk = Chunk(at: nat, text: seq<byte>)

  datatype Client =
    | Idle
    | Pulled(inp: nat, out: nat, total: nat)  // `total` is history: bytes produced when the pointers were read
    | Peeked(out: nat, got: nat)

  /** The ring (`buf`, `inp`, `out`), the client, and the history of both. */
  datatype State = State(
    buf: seq<byte>, inp: nat, out: nat, client: Client,
    produced: seq<byte>, read: nat, chunks: seq<Chunk>, pushLost: bool)

  datatype Event = Produce(b: byte) | Pull | Peek(ok: bool) | Push(delivered: bool)

  function Start(buf: seq<byte>): State {
    State(buf, 0, 0, Idle, [], 0, [], false)
  }

  /** The producer never overwrites unread bytes; the client runs pull, peek, push in turn. */
  predicate Enabled(s: State, e: Event)
    requires |s.buf| > 0
  {
    match e
    case Produce(_) => (s.inp + 1) % |s.buf| != s.out
    case Pull => s.client.Idle?
    case Peek(_) => s.client.Pulled?
    case Push(_) => s.client.Peeked?
  }

  /** How much the client asks for, given the pointers it pulled. */
  function RequestLength(size: nat, inp: nat, out: nat): int {
    var len := if out < inp then inp - out else if out > inp then size - out else 0;
    if len > MAX_PEEK then MAX_PEEK else len
  }

  function Step(s: State, e: Event): State
    requires Inv(s) && Enabled(s, e)
  {
    match e
    case Produce(b) =>
      s.(buf := s.buf[s.inp := b], inp := (s.inp + 1) % |s.buf|, produced := s.produced + [b])
    case Pull =>
      s.(client := Pulled(s.inp, s.out, |s.produced|))
    case Peek(ok) =>
      var out := s.client.out;
      var len := RequestLength(|s.buf|, s.client.inp, out);
      var got := if ok then len else 0;
      s.(client := Peeked(out, got),
         chunks := if got > 0 then s.chunks + [Chunk(s.read, s.buf[out..out + got])] else s.chunks)
    case Push(delivered) =>
      var outPush := (s.client.out + s.client.got) % UINT16_MODULUS % |s.buf|;
      if delivered then s.(client := Idle, out := outPush, read := s.read + s.client.got)
      else s.(client := Idle, pushLost := s.pushLost || s.client.got > 0)
  }

  // ----- What holds in every reachable state

  predicate Covers(c: Chunk, k: nat) { c.at <= k < c.at + |c.text| }

  predicate Printed(s: State, k: nat) {
    exists i :: 0 <= i < |s.chunks| && Covers(s.chunks[i], k)
  }

  /** A chunk shows the bytes that were produced at its place. */
  predicate Genuine(s: State, c: Chunk) {
    c.at + |c.text| <= |s.produced| && c.text == s.produced[c.at..c.at + |c.text|]
  }

  function Output(chunks: seq<Chunk>): seq<byte> {
    if chunks == [] then [] else Output(chunks[..|chunks| - 1]) + chunks[|chunks| - 1].text
  }

  /** Bytes printed but not yet acknowledged. */
  function Pending(s: State): nat {
    if s.client.Peeked? then s.client.got else 0
  }

  /** The ring position of stream byte k. */
  function Slot(k: nat, size: nat): (r: nat)
    requires size > 0
    ensures r < size
  {
    if k < size then k else Slot(k - size, size)
  }

  predicate RingInv(s: State) {
    var size := |s.buf|;
    && 0 < size <= UINT16_MODULUS
    && s.read <= |s.produced| < s.read + size
    && s.out == Slot(s.read, size) && s.inp == Slot(|s.produced|, size)
    && forall k :: s.read <= k < |s.produced| ==> s.buf[Slot(k, size)] == s.produced[k]
  }

  predicate ClientInv(s: State) {
    var size := |s.buf|;
    match s.client
    case Idle => true
    case Pulled(inp, out, total) =>
      size > 0 && out == s.out && s.read <= total <= |s.produced| && inp == Slot(total, size)
    case Peeked(out, got) =>
      out == s.out && out + got <= size && s.read + got <= |s.produced|
      && forall k :: s.read <= k < s.read + got ==> Printed(s, k)
  }

  predicate HistoryInv(s: State) {
    && s.read <= |s.produced|
    && (forall i :: 0 <= i < |s.chunks| ==> Genuine(s, s.chunks[i]))
    && (forall k :: 0 <= k < s.read ==> Printed(s, k))
    && (!s.pushLost ==> s.read + Pending(s) <= |s.produced| && Output(s.chunks) == s.produced[..s.read + Pending(s)])
  }

  predicate Inv(s: State)
    ensures Inv(s) ==> 0 < |s.buf| <= UINT16_MODULUS && s.inp < |s.buf|
    ensures Inv(s) && s.client.Pulled? ==>
              var len := RequestLength(|s.buf|, s.client.inp, s.client.out);
              len >= 0 && s.client.out + len <= |s.buf|
  {
    RingInv(s) && ClientInv(s) && HistoryInv(s)
  }

  lemma StartInv(buf: seq<byte>)
    requires 0 < |buf| <= UINT16_MODULUS
    ensures Inv(Start(buf))
  {
  }

  // ----- Arithmetic of ring positions

  lemma {:induction false} SlotIsRemainder(k: nat, size: nat)
    requires size > 0
    ensures Slot(k, size) == k % size
  {
    if k >= size {
      SlotIsRemainder(k - size, size);
      RemainderMinus(k, size);
    }
  }

  lemma RemainderMinus(k: nat, size: nat)
    requires 0 < size <= k
    ensures (k - size) % size == k % size
  {
    var q, r := k / size, k % size;
    assert k - size == (q - 1) * size + r;
    var d := (k - size) / size - (q - 1);
    assert d * size == r - (k - size) % size;
    NonzeroMultiple(d, size);
  }

  lemma NonzeroMultiple(d: int, size: nat)
    ensures d == 0 || d * size >= size || d * size + size <= 0
  {
  }

  /** The pushed pointer and the producer's pointer wrap at the end of the ring. */
  lemma WrapAtEnd(x: nat, size: nat)
    requires 0 < size && x <= size
    ensures x % size == if x == size then 0 else x
  {
  }

  lemma {:induction false} SlotAdvance(k: nat, j: nat, size: nat)
    requires size > 0 && Slot(k, size) + j <= size
    ensures Slot(k + j, size) == if Slot(k, size) + j == size then 0 else Slot(k, size) + j
    decreases k
  {
    if k >= size {
      SlotAdvance(k - size, j, size);
      assert k + j >= size && k + j - size == (k - size) + j;
    }
  }

  /** Two stream positions less than one lap apart, seen through their ring positions. */
  lemma Distance(read: nat, total: nat, size: nat)
    requires size > 0 && read <= total < read + size
    ensures var out, inp := Slot(read, size), Slot(total, size);
            total - read == if inp >= out then inp - out else inp - out + size
  {
    var out, gap := Slot(read, size), total - read;
    if out + gap <= size {
      SlotAdvance(read, gap, size);
    } else {
      SlotAdvance(read, size - out, size);
      SlotAdvance(read + (size - out), gap - (size - out), size);
    }
  }

  // ----- Every step keeps the invariant

  lemma OutputSnoc(chunks: seq<Chunk>, c: Chunk)
    ensures Output(chunks + [c]) == Output(chunks) + c.text
  {
    assert (chunks + [c])[..|chunks|] == chunks;
  }

  /** History is kept by a step that prints nothing. */
  lemma KeepHistory(s: State, s': State)
    requires s'.chunks == s.chunks && s.produced <= s'.produced
    requires forall i :: 0 <= i < |s.chunks| ==> Genuine(s, s.chunks[i])
    ensures forall i :: 0 <= i < |s'.chunks| ==> Genuine(s', s'.chunks[i])
    ensures forall k :: Printed(s, k) ==> Printed(s', k)
  {
    forall i | 0 <= i < |s'.chunks| ensures Genuine(s', s'.chunks[i]) {
      assert Genuine(s, s.chunks[i]);
    }
    forall k | Printed(s, k) ensures Printed(s', k) {
      var i :| 0 <= i < |s.chunks| && Covers(s.chunks[i], k);
      assert Covers(s'.chunks[i], k);
    }
  }

  lemma ProduceRing(s: State, b: byte)
    requires Inv(s) && Enabled(s, Produce(b))
    ensures RingInv(Step(s, Produce(b)))
  {
    hide Slot;
    var size, total := |s.buf|, |s.produced|;
    SlotAdvance(total, 1, size);
    WrapAtEnd(s.inp + 1, size);
    Distance(s.read, total, size);
    assert total + 1 < s.read + size;
    forall k | s.read <= k < total ensures Slot(k, size) != s.inp {
      Distance(k, total, size);
    }
  }

  lemma ProduceInv(s: State, b: byte)
    requires Inv(s) && Enabled(s, Produce(b))
    ensures Inv(Step(s, Produce(b)))
  {
    hide Slot, Output;
    var s' := Step(s, Produce(b));
    ProduceRing(s, b);
    KeepHistory(s, s');
    var acknowledged := s.read + Pending(s);
    if !s.pushLost { assert s'.produced[..acknowledged] == s.produced[..acknowledged]; }
  }

  /** A non-empty request asks for a contiguous run of unread bytes. */
  lemma RequestIsUnread(s: State)
    requires Inv(s) && s.client.Pulled?
    ensures var size, out := |s.buf|, s.client.out;
            var len := RequestLength(size, s.client.inp, out);
            && 0 <= len && out + len <= size && s.read + len <= s.client.total
            && (len > 0 <==> s.read < s.client.total)
            && s.buf[out..out + len] == s.produced[s.read..s.read + len]
  {
    hide Slot, Output, Printed;
    var size, out := |s.buf|, s.client.out;
    var len := RequestLength(size, s.client.inp, out);
    Distance(s.read, s.client.total, size);
    RunIsContiguous(s, len);
  }

  lemma RunIsContiguous(s: State, len: nat)
    requires RingInv(s) && s.out + len <= |s.buf| && s.read + len <= |s.produced|
    ensures s.buf[s.out..s.out + len] == s.produced[s.read..s.read + len]
  {
    var ring, stream := s.buf[s.out..s.out + len], s.produced[s.read..s.read + len];
    forall j | 0 <= j < len ensures ring[j] == stream[j] {
      SlotAdvance(s.read, j, |s.buf|);
      var k := s.read + j;
      assert s.buf[Slot(k, |s.buf|)] == s.produced[k];
    }
  }

  lemma PrintInv(s: State, got: nat)
    requires HistoryInv(s) && s.client.Pulled? && 0 < got && s.read + got <= |s.produced|
    ensures var s' := s.(client := Peeked(s.client.out, got),
                         chunks := s.chunks + [Chunk(s.read, s.produced[s.read..s.read + got])]);
            HistoryInv(s') && forall k :: s.read <= k < s.read + got ==> Printed(s', k)
  {
    hide Output;
    var c := Chunk(s.read, s.produced[s.read..s.read + got]);
    var s' := s.(client := Peeked(s.client.out, got), chunks := s.chunks + [c]);
    OutputSnoc(s.chunks, c);
    assert s.produced[..s.read] + c.text == s.produced[..s.read + got];
    forall k | s.read <= k < s.read + got ensures Printed(s', k) {
      assert Covers(s'.chunks[|s.chunks|], k);
    }
    forall k | 0 <= k < s.read ensures Printed(s', k) {
      assert Printed(s, k);
      var i :| 0 <= i < |s.chunks| && Covers(s.chunks[i], k);
      assert Covers(s'.chunks[i], k);
    }
    forall i | 0 <= i < |s'.chunks| ensures Genuine(s', s'.chunks[i]) {
      if i < |s.chunks| { assert Genuine(s, s.chunks[i]); }
    }
  }

  lemma HitInv(s: State, got: nat)
    requires Inv(s) && s.client.Pulled? && 0 < got
    requires s.client.out + got <= |s.buf| && s.read + got <= |s.produced|
    ensures Inv(s.(client := Peeked(s.client.out, got),
                   chunks := s.chunks + [Chunk(s.read, s.produced[s.read..s.read + got])]))
  {
    hide Slot, Output, Printed;
    PrintInv(s, got);
  }

  lemma MissInv(s: State)
    requires Inv(s) && s.client.Pulled?
    ensures Inv(s.(client := Peeked(s.client.out, 0)))
  {
    KeepHistory(s, s.(client := Peeked(s.client.out, 0)));
  }

  /** What a peek does, in terms of the produced stream. */
  lemma PeekStep(s: State, ok: bool)
    requires Inv(s) && Enabled(s, Peek(ok))
    ensures var len := RequestLength(|s.buf|, s.client.inp, s.client.out);
            && 0 <= len && s.client.out + len <= |s.buf| && s.read + len <= |s.produced|
            && Step(s, Peek(ok)) ==
               if ok && len > 0 then
                 s.(client := Peeked(s.client.out, len),
                    chunks := s.chunks + [Chunk(s.read, s.produced[s.read..s.read + len])])
               else s.(client := Peeked(s.client.out, 0))
  {
    RequestIsUnread(s);
    assert s.client.total <= |s.produced|;
    hide Inv, RequestLength;
  }

  lemma PeekInv(s: State, ok: bool)
    requires Inv(s) && Enabled(s, Peek(ok))
    ensures Inv(Step(s, Peek(ok)))
  {
    assert s.client.Pulled?;
    hide *;
    PeekStep(s, ok);
    var len := RequestLength(|s.buf|, s.client.inp, s.client.out);
    if ok && len > 0 {
      HitInv(s, len);
    } else {
      MissInv(s);
    }
  }

  lemma PushInv(s: State, delivered: bool)
    requires Inv(s) && Enabled(s, Push(delivered))
    ensures Inv(Step(s, Push(delivered)))
  {
    hide Slot, Output, Printed;
    var s', size := Step(s, Push(delivered)), |s.buf|;
    var end := s.client.out + s.client.got;
    SlotAdvance(s.read, s.client.got, size);
    WrapAtEnd(end, UINT16_MODULUS);
    WrapAtEnd(end % UINT16_MODULUS, size);
    KeepHistory(s, s');
  }

  lemma StepInv(s: State, e: Event)
    requires Inv(s) && Enabled(s, e)
    ensures Inv(Step(s, e))
  {
    match e
    case Produce(b) => ProduceInv(s, b);
    case Pull => KeepHistory(s, Step(s, e));
    case Peek(ok) => PeekInv(s, ok);
    case Push(delivered) => PushInv(s, delivered);
  }

  // ----- Whole runs

  /** The events of `run` can happen one after the other from `s`. */
  predicate Runs(s: State, run: seq<Event>)
    requires Inv(s)
    decreases |run|
  {
    run == [] || (Enabled(s, run[0]) && (StepInv(s, run[0]); Runs(Step(s, run[0]), run[1..])))
  }

  function Execute(s: State, run: seq<Event>): (end: State)
    requires Inv(s) && Runs(s, run)
    ensures Inv(end)
    decreases |run|
  {
    if run == [] then s else
      StepInv(s, run[0]);
      Execute(Step(s, run[0]), run[1..])
  }

  /** One run after another. */
  lemma {:induction false} RunsAppend(s: State, a: seq<Event>, b: seq<Event>)
    requires Inv(s) && Runs(s, a) && Runs(Execute(s, a), b)
    ensures Runs(s, a + b) && Execute(s, a + b) == Execute(Execute(s, a), b)
    decreases |a|
  {
    hide Inv, Enabled;
    if a == [] {
      assert a + b == b;
    } else {
      StepInv(s, a[0]);
      RunsAppend(Step(s, a[0]), a[1..], b);
      assert (a + b)[1..] == a[1..] + b;
    }
  }

  predicate PushLost(e: Event) { e == Push(false) }

  lemma {:induction false} NoLossNoFlag(s: State, run: seq<Event>)
    requires Inv(s) && Runs(s, run) && !s.pushLost
    requires forall e :: e in run ==> !PushLost(e)
    ensures !Execute(s, run).pushLost
    decreases |run|
  {
    if run != [] {
      assert run[0] in run && !PushLost(run[0]);
      assert forall e :: e in run[1..] ==> e in run;
      StepInv(s, run[0]);
      NoLossNoFlag(Step(s, run[0]), run[1..]);
    }
  }

  /** Under every interleaving: only produced bytes are printed, and none is acknowledged unprinted. */
  lemma NothingAcknowledgedUnprinted(buf: seq<byte>, run: seq<Event>)
    requires 0 < |buf| <= UINT16_MODULUS && Runs(Start(buf), run)
    ensures var end := Execute(Start(buf), run);
            && end.out == Slot(end.read, |end.buf|) && end.read <= |end.produced|
            && (forall k :: 0 <= k < end.read ==> Printed(end, k))
            && (forall i :: 0 <= i < |end.chunks| ==> Genuine(end, end.chunks[i]))
  {
  }

  /** When no push is lost, the output is the produced stream up to the read pointer and what is being acknowledged. */
  lemma OutputIsStreamPrefix(buf: seq<byte>, run: seq<Event>)
    requires 0 < |buf| <= UINT16_MODULUS && Runs(Start(buf), run)
    requires forall e :: e in run ==> !PushLost(e)
    ensures var end := Execute(Start(buf), run);
            Output(end.chunks) == end.produced[..end.read + Pending(end)]
  {
    NoLossNoFlag(Start(buf), run);
  }

  // ----- Progress

  const ROUND := [Pull] + ([Peek(true)] + ([Push(true)] + []))

  /** One undisturbed round acknowledges what it asked for, and nothing else happens to the ring. */
  lemma RoundProgress(s: State)
    requires Inv(s) && s.client.Idle?
    ensures Runs(s, ROUND)
    ensures var s' := Execute(s, ROUND);
            && s'.client.Idle? && s'.produced == s.produced && s'.pushLost == s.pushLost
            && |s'.buf| == |s.buf| && s'.inp == s.inp
            && s'.read == s.read + RequestLength(|s.buf|, s.inp, s.out)
            && s.read <= s'.read <= s.read + MAX_PEEK
            && (s.read < |s.produced| ==> s.read < s'.read)
  {
    StepInv(s, Pull);
    var pulled := Step(s, Pull);
    RequestIsUnread(pulled);
    StepInv(pulled, Peek(true));
    var peeked := Step(pulled, Peek(true));
    StepInv(peeked, Push(true));
    var pushed := Step(peeked, Push(true));
    RunsCons(peeked, Push(true), []);
    RunsCons(pulled, Peek(true), [Push(true)] + []);
    RunsCons(s, Pull, [Peek(true)] + ([Push(true)] + []));
  }

  lemma RunsCons(s: State, e: Event, rest: seq<Event>)
    requires Inv(s) && Enabled(s, e) && Inv(Step(s, e)) && Runs(Step(s, e), rest)
    ensures Runs(s, [e] + rest) && Execute(s, [e] + rest) == Execute(Step(s, e), rest)
  {
    assert ([e] + rest)[1..] == rest;
  }

  function Rounds(n: nat): seq<Event> {
    if n == 0 then [] else ROUND + Rounds(n - 1)
  }

  function Unread(s: State): nat
    requires Inv(s)
  {
    |s.produced| - s.read
  }

  /** In how many pieces the unread bytes lie in the ring. */
  function Pieces(s: State): nat {
    if s.out < s.inp then 1 else if s.out == s.inp then 0 else if s.inp == 0 then 1 else 2
  }

  /** A round takes 200 bytes or finishes a piece. */
  lemma RoundFinishesSomething(s: State)
    requires Inv(s) && s.client.Idle? && Unread(s) > 0
    ensures Runs(s, ROUND)
    ensures var s' := Execute(s, ROUND);
            Unread(s') / MAX_PEEK + Pieces(s') < Unread(s) / MAX_PEEK + Pieces(s)
  {
    RoundProgress(s);
    var s', size := Execute(s, ROUND), |s.buf|;
    Distance(s.read, |s.produced|, size);
    SlotAdvance(s.read, s'.read - s.read, size);
    Distance(s'.read, |s.produced|, size);
    assert s'.out == Slot(s'.read, size);
    hide *;
    assert MAX_PEEK == 200;
  }

  lemma NoneUnread(s: State)
    requires Inv(s) && s.client.Idle? && Unread(s) == 0
    ensures s.out == s.inp && s.read == |s.produced|
    ensures !s.pushLost ==> Output(s.chunks) == s.produced
  {
    hide Slot, Output;
    assert s.produced[..s.read] == s.produced;
  }

  /** Once the producer pauses, rounds alone print and acknowledge everything: as many as the bytes need,
      and at most one more for each piece of the ring they lie in. */
  lemma {:induction false} DrainsCompletely(s: State) returns (rounds: nat)
    requires Inv(s) && s.client.Idle?
    ensures Runs(s, Rounds(rounds))
    ensures var end := Execute(s, Rounds(rounds));
            && end.client.Idle? && end.produced == s.produced && end.read == |s.produced| && end.out == end.inp
            && (!s.pushLost ==> Output(end.chunks) == s.produced)
    ensures rounds <= Unread(s) / MAX_PEEK + Pieces(s)
    decreases Unread(s)
  {
    hide Inv, Pieces, Output;
    if Unread(s) == 0 {
      rounds := 0;
      NoneUnread(s);
    } else {
      RoundProgress(s);
      RoundFinishesSomething(s);
      var next := Execute(s, ROUND);
      rounds := DrainsCompletely(next);
      RunsAppend(s, ROUND, Rounds(rounds));
      rounds := rounds + 1;
    }
  }

  /** No number of rounds acknowledges more than 200 bytes a round. */
  lemma {:induction false} RoundsNeeded(s: State, rounds: nat)
    requires Inv(s) && s.client.Idle?
    ensures Runs(s, Rounds(rounds))
    ensures var end := Execute(s, Rounds(rounds));
            && end.client.Idle? && end.produced == s.produced && end.read <= s.read + rounds * MAX_PEEK
            && (end.read == |s.produced| ==> rounds * MAX_PEEK >= Unread(s))
    decreases rounds
  {
    hide Inv;
    if rounds > 0 {
      RoundProgress(s);
      var next := Execute(s, ROUND);
      RoundsNeeded(next, rounds - 1);
      RunsAppend(s, ROUND, Rounds(rounds - 1));
    }
  }
}
