/** Printing the ring in a downloaded result buffer: two 16-bit pointers, then the ring itself from byte 4 on. */
module ResultBuffer {

  import opened CText

  const FIRST: nat := 4

  const UINT16_MODULUS: nat := 0x1_0000

  /** The loop's step, on a uint16_t: after the last byte of the buffer comes byte 4. */
  function Next(out: nat, size: nat): nat {
    var next := (out + 1) % UINT16_MODULUS;
    if next >= size then FIRST else next
  }

  function After(out: nat, size: nat, steps: nat): nat
    decreases steps
  {
    if steps == 0 then out else After(Next(out, size), size, steps - 1)
  }

  /** Does the loop, which tests after printing, ever stop? */
  ghost predicate Stops(inp: nat, out: nat, size: nat) {
    exists steps: nat :: steps > 0 && After(out, size, steps) == inp
  }

  /** Positions inside the ring. */
  predicate InRing(p: nat, size: nat) { FIRST <= p < size }

  /** `in` points into the ring, or ahead of `out`. */
  predicate Ahead(inp: nat, out: nat, size: nat) {
    FIRST < size < UINT16_MODULUS && out < size && (InRing(inp, size) || out < inp < size)
  }

  /** Bytes from out up to, but not including, in; the whole ring when they are equal. */
  function Distance(inp: nat, out: nat, size: nat): (d: nat)
    requires Ahead(inp, out, size)
    ensures 0 < d && (InRing(out, size) ==> d <= size - FIRST)
  {
    if out < inp then inp - out else (size - out) + (inp - FIRST)
  }

  lemma {:induction false} ReachesAfterDistance(inp: nat, out: nat, size: nat)
    requires Ahead(inp, out, size)
    ensures After(out, size, Distance(inp, out, size)) == inp
    decreases Distance(inp, out, size)
  {
    var next := Next(out, size);
    if next != inp {
      ReachesAfterDistance(inp, next, size);
    }
  }

  /** For pointers the code lets through, the loop stops exactly when `in` points into the ring, or ahead of `out`.
      In a buffer that 16 bits cannot index, the pointer wraps to 0 before the buffer ends, and the loop always stops. */
  lemma StopsIffAhead(inp: nat, out: nat, size: nat)
    requires FIRST < size && inp <= size && out < size && inp < UINT16_MODULUS && out < UINT16_MODULUS
    ensures Stops(inp, out, size) <==> Ahead(inp, out, size) || size >= UINT16_MODULUS
  {
    if Ahead(inp, out, size) {
      ReachesAfterDistance(inp, out, size);
    } else if size >= UINT16_MODULUS {
      ReachesByWrapping(inp, out, size);
    } else {
      forall steps: nat | steps > 0 ensures After(out, size, steps) != inp {
        NeverReaches(inp, out, size, steps);
      }
    }
  }

  lemma {:induction false} ReachesByWrapping(inp: nat, out: nat, size: nat)
    requires inp < UINT16_MODULUS <= size && out < UINT16_MODULUS
    ensures After(out, size, if out < inp then inp - out else inp - out + UINT16_MODULUS) == inp
    decreases if out < inp then inp - out else inp - out + UINT16_MODULUS
  {
    var next := Next(out, size);
    if next != inp {
      ReachesByWrapping(inp, next, size);
    }
  }

  lemma {:induction false} NeverReaches(inp: nat, out: nat, size: nat, steps: nat)
    requires FIRST < size < UINT16_MODULUS && out < size && steps > 0 && !Ahead(inp, out, size)
    ensures After(out, size, steps) != inp
    decreases steps
  {
    if steps > 1 {
      NeverReaches(inp, Next(out, size), size, steps - 1);
    }
  }

  /** What is printed: out up to in, wrapping to byte 4. */
  function RingBytes(data: seq<byte>, inp: nat, out: nat): seq<byte>
    requires Ahead(inp, out, |data|)
  {
    if out < inp then data[out..inp] else data[out..] + data[FIRST..inp]
  }

  /** What was printed and what is still to come are all there is to print. */
  ghost predicate Printing(printed: seq<byte>, data: seq<byte>, inp: nat, out: nat, out0: nat) {
    && Ahead(inp, out, |data|) && Ahead(inp, out0, |data|)
    && printed + RingBytes(data, inp, out) == RingBytes(data, inp, out0)
    && |printed| + Distance(inp, out, |data|) == Distance(inp, out0, |data|)
  }

  method Dump(data: array<byte>, inp: nat, out0: nat) returns (printed: seq<byte>)
    requires Ahead(inp, out0, data.Length)
    ensures printed == RingBytes(data[..], inp, out0) && |printed| == Distance(inp, out0, data.Length)
    ensures printed == if out0 < inp then data[out0..inp] else data[out0..] + data[4..inp]
  {
    printed := [];
    var out: nat := out0;
    ghost var bytes := data[..];
    while true
      invariant Printing(printed, bytes, inp, out, out0)
      decreases Distance(inp, out, data.Length)
    {
      RingStep(bytes, inp, out);
      PrintStep(printed, bytes, inp, out, out0);
      hide Printing, RingBytes, Distance;
      printed := printed + [data[out]];
      out := (out + 1) % UINT16_MODULUS;
      if out >= data.Length {
        out := FIRST;
      }
      if out == inp {
        break;
      }
    }
  }

  lemma PrintStep(printed: seq<byte>, data: seq<byte>, inp: nat, out: nat, out0: nat)
    requires Printing(printed, data, inp, out, out0)
    ensures var next := Next(out, |data|);
            if next == inp then
              printed + [data[out]] == RingBytes(data, inp, out0) && |printed| + 1 == Distance(inp, out0, |data|)
            else Printing(printed + [data[out]], data, inp, next, out0)
  {
    RingStep(data, inp, out);
    var next := Next(out, |data|);
    hide RingBytes, Distance;
    if next != inp {
      var rest := RingBytes(data, inp, next);
      assert printed + ([data[out]] + rest) == (printed + [data[out]]) + rest;
    }
  }

  /** Printing one byte leaves the rest, or nothing when `in` is reached. */
  lemma RingStep(data: seq<byte>, inp: nat, out: nat)
    requires Ahead(inp, out, |data|)
    ensures var next := Next(out, |data|);
            if next == inp then RingBytes(data, inp, out) == [data[out]] && Distance(inp, out, |data|) == 1
            else Ahead(inp, next, |data|)
                 && RingBytes(data, inp, out) == [data[out]] + RingBytes(data, inp, next)
                 && Distance(inp, out, |data|) == 1 + Distance(inp, next, |data|)
  {
    hide Next;
    NextInRing(out, |data|);
    var next := Next(out, |data|);
    if next != inp && inp <= out && next != FIRST {
      assert data[out..] == [data[out]] + data[next..];
    }
  }

  lemma NextInRing(out: nat, size: nat)
    requires FIRST < size < UINT16_MODULUS && out < size
    ensures Next(out, size) == if out + 1 == size then FIRST else out + 1
  {
  }
}
