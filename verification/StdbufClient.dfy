/** The drain loop of `stdbuf -v 1` against a remote ring, with a producer at work between any two of its steps. */
module StdbufClient {
  import opened CText
  import opened StdbufProtocol

  /** One turn of the loop: what the remote produces around each request, and which requests get through. */
  datatype Turn = Turn(
    beforePeek: seq<byte>, beforePush: seq<byte>, afterPush: seq<byte>,
    peekOk: bool, pushOk: bool, interrupted: bool)

  // ----- What turns do to the protocol state

  /** The remote stores what fits; a byte that would overwrite an unread one is refused. */
  function Produced(s: State, bytes: seq<byte>): (end: State)
    requires Inv(s)
    ensures Inv(end) && end.client == s.client && end.chunks == s.chunks && end.pushLost == s.pushLost
    decreases |bytes|
  {
    if bytes == [] then s else Produced(ProducedOne(s, bytes[0]), bytes[1..])
  }

  function ProducedOne(s: State, b: byte): (end: State)
    requires Inv(s)
    ensures Inv(end) && end.client == s.client && end.chunks == s.chunks && end.pushLost == s.pushLost
  {
    if Enabled(s, Produce(b)) then
      StepInv(s, Produce(b));
      Step(s, Produce(b))
    else s
  }

  function AfterPull(s: State, turn: Turn): (end: State)
    requires Inv(s) && s.client.Idle?
    ensures Inv(end) && end.client.Pulled?
  {
    StepInv(s, Pull);
    Produced(Step(s, Pull), turn.beforePeek)
  }

  function AfterPeek(s: State, turn: Turn): (end: State)
    requires Inv(s) && s.client.Idle?
    ensures Inv(end) && end.client.Peeked?
  {
    var pulled := AfterPull(s, turn);
    StepInv(pulled, Peek(turn.peekOk));
    Produced(Step(pulled, Peek(turn.peekOk)), turn.beforePush)
  }

  /** Pull, peek and push, the remote producing after each. */
  function AfterTurn(s: State, turn: Turn): (end: State)
    requires Inv(s) && s.client.Idle?
    ensures Inv(end) && end.client.Idle?
  {
    var peeked := AfterPeek(s, turn);
    StepInv(peeked, Push(turn.pushOk));
    Produced(Step(peeked, Push(turn.pushOk)), turn.afterPush)
  }

  /** The loop goes on after a turn that got something; otherwise the user may interrupt it. */
  predicate GoesOn(s: State, turn: Turn)
    requires Inv(s) && s.client.Idle?
  {
    AfterPeek(s, turn).client.got > 0 || !turn.interrupted
  }

  function AfterTurns(s: State, turns: seq<Turn>): (end: State)
    requires Inv(s) && s.client.Idle?
    ensures Inv(end) && end.client.Idle?
    decreases |turns|
  {
    if turns == [] then s
    else if GoesOn(s, turns[0]) then AfterTurns(AfterTurn(s, turns[0]), turns[1..])
    else AfterTurn(s, turns[0])
  }

  // ----- Turns are runs of the protocol

  /** The bytes that were stored, as events. */
  function Stores(s: State, bytes: seq<byte>): seq<Event>
    requires Inv(s)
    decreases |bytes|
  {
    if bytes == [] then []
    else (if Enabled(s, Produce(bytes[0])) then [Produce(bytes[0])] else []) + Stores(ProducedOne(s, bytes[0]), bytes[1..])
  }

  predicate IsStore(e: Event) { e.Produce? }

  lemma {:induction false} StoresRun(s: State, bytes: seq<byte>)
    requires Inv(s)
    ensures Runs(s, Stores(s, bytes)) && Execute(s, Stores(s, bytes)) == Produced(s, bytes)
    ensures forall e :: e in Stores(s, bytes) ==> IsStore(e)
    decreases |bytes|
  {
    if bytes != [] {
      var b := bytes[0];
      var next := ProducedOne(s, b);
      StoresRun(next, bytes[1..]);
      hide Inv, Enabled;
      if Enabled(s, Produce(b)) {
        RunsCons(s, Produce(b), Stores(next, bytes[1..]));
      } else {
        assert [] + Stores(next, bytes[1..]) == Stores(next, bytes[1..]);
      }
    }
  }

  /** The events of one turn. */
  function Events(s: State, turn: Turn): seq<Event>
    requires Inv(s) && s.client.Idle?
  {
    StepInv(s, Pull);
    var pulled := AfterPull(s, turn);
    StepInv(pulled, Peek(turn.peekOk));
    var peeked := AfterPeek(s, turn);
    StepInv(peeked, Push(turn.pushOk));
    ([Pull] + Stores(Step(s, Pull), turn.beforePeek))
    + (([Peek(turn.peekOk)] + Stores(Step(pulled, Peek(turn.peekOk)), turn.beforePush))
       + ([Push(turn.pushOk)] + Stores(Step(peeked, Push(turn.pushOk)), turn.afterPush)))
  }

  /** A request, and what the remote stores afterwards. */
  lemma RequestRun(s: State, e: Event, bytes: seq<byte>)
    requires Inv(s) && Enabled(s, e) && Inv(Step(s, e))
    ensures var run := [e] + Stores(Step(s, e), bytes);
            Runs(s, run) && Execute(s, run) == Produced(Step(s, e), bytes)
    ensures !PushLost(e) ==> forall e' :: e' in [e] + Stores(Step(s, e), bytes) ==> !PushLost(e')
  {
    hide Inv, Enabled, Step;
    StoresRun(Step(s, e), bytes);
    RunsCons(s, e, Stores(Step(s, e), bytes));
  }

  lemma TurnIsRun(s: State, turn: Turn)
    requires Inv(s) && s.client.Idle?
    ensures Runs(s, Events(s, turn)) && Execute(s, Events(s, turn)) == AfterTurn(s, turn)
    ensures turn.pushOk ==> forall e :: e in Events(s, turn) ==> !PushLost(e)
  {
    hide Inv, Step, Runs, Execute, Stores, Produced;
    var pulled, peeked := AfterPull(s, turn), AfterPeek(s, turn);
    StepInv(s, Pull);
    StepInv(pulled, Peek(turn.peekOk));
    StepInv(peeked, Push(turn.pushOk));
    RequestRun(s, Pull, turn.beforePeek);
    RequestRun(pulled, Peek(turn.peekOk), turn.beforePush);
    RequestRun(peeked, Push(turn.pushOk), turn.afterPush);
    var push := [Push(turn.pushOk)] + Stores(Step(peeked, Push(turn.pushOk)), turn.afterPush);
    var peek := [Peek(turn.peekOk)] + Stores(Step(pulled, Peek(turn.peekOk)), turn.beforePush);
    RunsAppend(pulled, peek, push);
    RunsAppend(s, [Pull] + Stores(Step(s, Pull), turn.beforePeek), peek + push);
  }

  /** However the turns go, the loop as a whole is a run of the protocol; it loses a push only in a turn that does. */
  lemma {:induction false} TurnsAreRun(s: State, turns: seq<Turn>) returns (run: seq<Event>)
    requires Inv(s) && s.client.Idle?
    ensures Runs(s, run) && Execute(s, run) == AfterTurns(s, turns)
    ensures (forall t :: t in turns ==> t.pushOk) ==> forall e :: e in run ==> !PushLost(e)
    decreases |turns|
  {
    hide Inv, Events, AfterTurn, PushLost;
    if turns == [] {
      run := [];
    } else {
      TurnIsRun(s, turns[0]);
      assert turns[0] in turns;
      run := Events(s, turns[0]);
      if GoesOn(s, turns[0]) {
        var rest := TurnsAreRun(AfterTurn(s, turns[0]), turns[1..]);
        RunsAppend(s, run, rest);
        run := run + rest;
      }
    }
  }

  // ----- How far the loop goes

  /** Every turn carried out, one after the other. */
  function AllTurns(s: State, turns: seq<Turn>): (end: State)
    requires Inv(s) && s.client.Idle?
    ensures Inv(end) && end.client.Idle?
    decreases |turns|
  {
    if turns == [] then s else AllTurns(AfterTurn(s, turns[0]), turns[1..])
  }

  /** The turn got nothing, and the user pressed a key. */
  predicate IdleAndInterrupted(s: State, turn: Turn)
    requires Inv(s) && s.client.Idle?
  {
    AfterPeek(s, turn).client.got == 0 && turn.interrupted
  }

  /** The loop ends with the first turn that is idle and interrupted; without one it carries out all turns. */
  lemma {:induction false} StopsAtFirstInterrupt(s: State, turns: seq<Turn>, k: nat)
    requires Inv(s) && s.client.Idle? && k <= |turns|
    requires forall i :: 0 <= i < k ==> !IdleAndInterrupted(AllTurns(s, turns[..i]), turns[i])
    ensures k == |turns| ==> AfterTurns(s, turns) == AllTurns(s, turns)
    ensures k < |turns| && IdleAndInterrupted(AllTurns(s, turns[..k]), turns[k]) ==>
              AfterTurns(s, turns) == AllTurns(s, turns[..k + 1])
    decreases |turns|
  {
    hide Inv, AfterTurn, AfterPeek;
    if turns == [] {
    } else if k == 0 {
      assert turns[..0] == [] && turns[..1][1..] == [];
    } else {
      var next, rest := AfterTurn(s, turns[0]), turns[1..];
      assert turns[..0] == [] && !IdleAndInterrupted(AllTurns(s, turns[..0]), turns[0]);
      forall i: nat | i <= |rest| ensures AllTurns(next, rest[..i]) == AllTurns(s, turns[..i + 1]) {
        assert turns[..i + 1][1..] == rest[..i];
      }
      forall i | 0 <= i < k - 1 ensures !IdleAndInterrupted(AllTurns(next, rest[..i]), rest[i]) {
        var at := i + 1;
        assert !IdleAndInterrupted(AllTurns(s, turns[..at]), turns[at]);
      }
      StopsAtFirstInterrupt(next, rest, k - 1);
    }
  }

  /** Nothing is stored meanwhile, both requests get through, and nobody presses a key. */
  predicate Undisturbed(t: Turn) {
    t.beforePeek == t.beforePush == t.afterPush == [] && t.peekOk && t.pushOk && !t.interrupted
  }

  lemma UndisturbedIsRound(s: State, t: Turn)
    requires Inv(s) && s.client.Idle? && Undisturbed(t)
    ensures Runs(s, ROUND) && AfterTurn(s, t) == Execute(s, ROUND)
  {
    hide Inv, Step, Runs, Execute;
    TurnIsRun(s, t);
    assert Events(s, t) == ROUND;
  }

  /** Enough undisturbed turns print and acknowledge everything: one for each 200 bytes, and one for each piece of the ring. */
  lemma {:induction false} UndisturbedTurnsDrain(s: State, turns: seq<Turn>)
    requires Inv(s) && s.client.Idle? && forall t :: t in turns ==> Undisturbed(t)
    requires |turns| >= Unread(s) / 200 + Pieces(s)
    ensures var end := AfterTurns(s, turns);
            && end.produced == s.produced && end.read == |s.produced| && end.out == end.inp
            && (!s.pushLost ==> Output(end.chunks) == s.produced)
    decreases |turns|
  {
    hide Inv, AfterTurn, AfterPeek, Output, Pieces;
    if turns == [] {
      NoPieces(s);
      NoneUnread(s);
    } else {
      assert Undisturbed(turns[0]);
      UndisturbedIsRound(s, turns[0]);
      RoundProgress(s);
      if Unread(s) > 0 { RoundFinishesSomething(s); } else { StaysDrained(s); }
      UndisturbedTurnsDrain(Execute(s, ROUND), turns[1..]);
    }
  }

  lemma NoPieces(s: State)
    requires Inv(s) && Unread(s) / 200 + Pieces(s) == 0
    ensures Unread(s) == 0
  {
    Distance(s.read, |s.produced|, |s.buf|);
  }

  lemma StaysDrained(s: State)
    requires Inv(s) && s.client.Idle? && Unread(s) == 0
    ensures Runs(s, ROUND) && Unread(Execute(s, ROUND)) == 0 && Pieces(Execute(s, ROUND)) == 0
  {
    hide Output, Runs, Execute;
    RoundProgress(s);
    NoneUnread(s);
    NoneUnread(Execute(s, ROUND));
  }

  /** The remote stores bytes until its ring holds one less than its size. */
  lemma {:induction false} StoresWhatFits(s: State, bytes: seq<byte>)
    requires Inv(s)
    ensures var room := |s.buf| - 1 - Unread(s);
            var n := if |bytes| <= room then |bytes| else room;
            room >= 0 && Produced(s, bytes).produced == s.produced + bytes[..n]
    decreases |bytes|
  {
    hide Inv, Produced, ProducedOne, Unread;
    var room := |s.buf| - 1 - Unread(s);
    if bytes == [] {
      StoreOne(s, 0);
      ProducedNothing(s, bytes);
      assert s.produced + bytes[..0] == s.produced;
    } else {
      StoreOne(s, bytes[0]);
      ProducedHead(s, bytes);
      StoresWhatFits(ProducedOne(s, bytes[0]), bytes[1..]);
      TakeHead(s.produced, bytes, if |bytes| <= room then |bytes| else room);
    }
  }

  lemma TakeHead(front: seq<byte>, bytes: seq<byte>, n: nat)
    requires n <= |bytes| != 0
    ensures n > 0 ==> (front + [bytes[0]]) + bytes[1..][..n - 1] == front + bytes[..n]
    ensures front + bytes[1..][..0] == front + bytes[..0]
  {
  }

  lemma StoreOne(s: State, b: byte)
    requires Inv(s)
    ensures var room, next := |s.buf| - 1 - Unread(s), ProducedOne(s, b);
            && room >= 0 && next.produced == (if room > 0 then s.produced + [b] else s.produced)
            && |next.buf| - 1 - Unread(next) == if room > 0 then room - 1 else 0
  {
    StoredIffRoom(s);
    ProducedOneIs(s, b);
    hide Inv, ProducedOne;
  }

  lemma StoredIffRoom(s: State)
    requires Inv(s)
    ensures Unread(s) < |s.buf| && ((s.inp + 1) % |s.buf| != s.out <==> Unread(s) < |s.buf| - 1)
  {
    hide Slot;
    Distance(s.read, |s.produced|, |s.buf|);
    SlotAdvance(|s.produced|, 1, |s.buf|);
    WrapAtEnd(s.inp + 1, |s.buf|);
  }

  // ----- The client

  class Session {
    const buf: array<byte>
    var inp: nat
    var out: nat
    var output: seq<byte>  // what the client wrote to stdout
    ghost var s: State     // the protocol state, with its history

    ghost predicate Valid()
      reads this, buf
    {
      Inv(s) && s.buf == buf[..] && s.inp == inp && s.out == out && Output(s.chunks) == output
    }

    constructor (size: nat)
      requires 0 < size <= UINT16_MODULUS
      ensures Valid() && fresh(buf) && s.client.Idle? && s == Start(buf[..])
    {
      buf := new byte[size](_ => 0);
      inp, out, output := 0, 0, [];
      new;
      s := Start(buf[..]);
      StartInv(buf[..]);
    }

    method Store(bytes: seq<byte>)
      requires Valid()
      modifies this, buf
      ensures Valid() && s == Produced(old(s), bytes)
    {
      hide Inv, Produced, ProducedOne, Output;
      ghost var start := s;
      var i := 0;
      assert bytes[0..] == bytes;
      while i < |bytes|
        invariant i <= |bytes| && Valid() && Produced(start, bytes) == Produced(s, bytes[i..])
      {
        ProducedHead(s, bytes[i..]);
        ProducedOneIs(s, bytes[i]);
        assert bytes[i..][1..] == bytes[i + 1..];
        s := ProducedOne(s, bytes[i]);
        if (inp + 1) % buf.Length != out {
          buf[inp] := bytes[i];
          inp := (inp + 1) % buf.Length;
        }
        i := i + 1;
      }
      ProducedNothing(s, bytes[i..]);
    }

    /** Peek at most 200 bytes and print them; a failed peek gets nothing. */
    method StdbufGet(from: nat, to: nat, ok: bool) returns (got: nat)
      requires from <= to <= buf.Length
      modifies this`output
      ensures got == if !ok then 0 else if to - from > MAX_PEEK then MAX_PEEK else to - from
      ensures output == old(output) + buf[from..from + got]
    {
      var len := to - from;
      if len > 200 {
        len := 200;
      }
      if !ok {
        assert buf[from..from] == [];
        return 0;
      }
      output := output + buf[from..from + len];
      return len;
    }

    method PullPointers() returns (pulledIn: nat, pulledOut: nat)
      requires Valid() && s.client.Idle?
      modifies this`s
      ensures Valid() && s == Step(old(s), Pull) && s.client == Pulled(pulledIn, pulledOut, |s.produced|)
    {
      hide Output;
      StepInv(s, Pull);
      pulledIn, pulledOut := inp, out;
      s := Step(s, Pull);
    }

    /** Which part of the ring to ask for: up to the write pointer, or up to the end of the ring. */
    method GetUnread(pulledIn: nat, pulledOut: nat, ok: bool) returns (got: nat)
      requires pulledIn <= buf.Length && pulledOut <= buf.Length
      modifies this`output
      ensures got == if ok then RequestLength(buf.Length, pulledIn, pulledOut) else 0
      ensures pulledOut + got <= buf.Length
      ensures output == old(output) + buf[pulledOut..pulledOut + got]
    {
      got := 0;
      if pulledOut < pulledIn {
        got := StdbufGet(pulledOut, pulledIn, ok);
      } else if pulledOut > pulledIn {
        got := StdbufGet(pulledOut, buf.Length, ok);
      }
    }

    method PeekAndPrint(pulledIn: nat, pulledOut: nat, ok: bool) returns (got: nat)
      requires Valid() && s.client.Pulled? && s.client.inp == pulledIn && s.client.out == pulledOut
      modifies this`s, this`output
      ensures Valid() && s == Step(old(s), Peek(ok)) && s.client == Peeked(pulledOut, got)
    {
      hide Inv, Output, RequestLength, Step, Enabled;
      OutputAfterPeek(s, ok);
      StepInv(s, Peek(ok));
      ghost var before := s;
      s := Step(s, Peek(ok));
      got := GetUnread(pulledIn, pulledOut, ok);
      assert buf[pulledOut..pulledOut + got] == before.buf[pulledOut..pulledOut + got];
    }

    method PushPointer(pulledOut: nat, got: nat, delivered: bool)
      requires Valid() && s.client == Peeked(pulledOut, got)
      modifies this`s, this`out
      ensures Valid() && s == Step(old(s), Push(delivered))
    {
      hide Inv, Output;
      StepInv(s, Push(delivered));
      s := Step(s, Push(delivered));
      var outPush := (pulledOut + got) % UINT16_MODULUS;
      outPush := outPush % buf.Length;
      if delivered {
        out := outPush;
      }
    }

    /** Pull, peek and push once. */
    method RunTurn(turn: Turn) returns (got: nat)
      requires Valid() && s.client.Idle?
      modifies this, buf
      ensures Valid() && s == AfterTurn(old(s), turn) && got == AfterPeek(old(s), turn).client.got
    {
      hide Inv, Produced, Step, Output, Enabled;
      var pulledIn, pulledOut := PullPointers();
      Store(turn.beforePeek);
      got := PeekAndPrint(pulledIn, pulledOut, turn.peekOk);
      Store(turn.beforePush);
      PushPointer(pulledOut, got, turn.pushOk);
      Store(turn.afterPush);
    }

    /** The loop, for as long as there are turns; it stops early when interrupted while idle. */
    method Drain(turns: seq<Turn>)
      requires Valid() && s.client.Idle?
      modifies this, buf
      ensures Valid() && s == AfterTurns(old(s), turns)
      ensures !old(s).pushLost && (forall t :: t in turns ==> t.pushOk) ==> output == s.produced[..s.read]
      ensures (forall t :: t in turns ==> Undisturbed(t)) && |turns| >= Unread(old(s)) / 200 + Pieces(old(s)) ==>
                s.read == |old(s).produced| && (!old(s).pushLost ==> output == old(s).produced)
    {
      hide Inv, AfterTurn, AfterPeek, Output;
      ghost var start := s;
      var i := 0;
      assert turns[0..] == turns;
      while i < |turns|
        invariant i <= |turns| && Valid() && s.client.Idle? && AfterTurns(start, turns) == AfterTurns(s, turns[i..])
      {
        assert turns[i..][0] == turns[i] && turns[i..][1..] == turns[i + 1..];
        ghost var before := s;
        var got := RunTurn(turns[i]);
        if got == 0 && turns[i].interrupted {
          break;
        }
        i := i + 1;
      }
      OutputOfTurns(start, turns);
      if (forall t :: t in turns ==> Undisturbed(t)) && |turns| >= Unread(start) / 200 + Pieces(start) {
        UndisturbedTurnsDrain(start, turns);
      }
    }
  }

  lemma ProducedHead(s: State, bytes: seq<byte>)
    requires Inv(s) && bytes != []
    ensures Produced(s, bytes) == Produced(ProducedOne(s, bytes[0]), bytes[1..])
  {
    hide Inv, ProducedOne;
  }

  lemma ProducedOneIs(s: State, b: byte)
    requires Inv(s)
    ensures 0 < |s.buf| && s.inp < |s.buf|
    ensures ProducedOne(s, b) ==
            if (s.inp + 1) % |s.buf| != s.out then
              s.(buf := s.buf[s.inp := b], inp := (s.inp + 1) % |s.buf|, produced := s.produced + [b])
            else s
  {
    hide Inv;
  }

  lemma ProducedNothing(s: State, bytes: seq<byte>)
    requires Inv(s) && bytes == []
    ensures Produced(s, bytes) == s
  {
  }

  lemma OutputAfterPeek(before: State, ok: bool)
    requires Inv(before) && before.client.Pulled?
    ensures Enabled(before, Peek(ok)) && before.client.inp <= |before.buf| && before.client.out <= |before.buf|
    ensures var out, after := before.client.out, Step(before, Peek(ok));
            && after.buf == before.buf && after.inp == before.inp && after.out == before.out
            && after.client == Peeked(out, if ok then RequestLength(|before.buf|, before.client.inp, out) else 0)
            && Output(after.chunks) == Output(before.chunks) + before.buf[out..out + after.client.got]
  {
    hide Slot, Output, HistoryInv;
    var out, after := before.client.out, Step(before, Peek(ok));
    if after.client.got > 0 {
      OutputSnoc(before.chunks, Chunk(before.read, before.buf[out..out + after.client.got]));
    }
  }

  /** With every push delivered, what the turns print is the stream up to the read pointer. */
  lemma OutputOfTurns(s: State, turns: seq<Turn>)
    requires Inv(s) && s.client.Idle?
    ensures !s.pushLost && (forall t :: t in turns ==> t.pushOk) ==>
              var end := AfterTurns(s, turns); end.read <= |end.produced| && Output(end.chunks) == end.produced[..end.read]
  {
    var end := AfterTurns(s, turns);
    if !s.pushLost && (forall t :: t in turns ==> t.pushOk) {
      var run := TurnsAreRun(s, turns);
      NoLossNoFlag(s, run);
      PrintedToRead(end);
    }
  }

  lemma PrintedToRead(s: State)
    requires Inv(s) && s.client.Idle? && !s.pushLost
    ensures s.read <= |s.produced| && Output(s.chunks) == s.produced[..s.read]
  {
  }
}
