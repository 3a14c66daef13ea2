/** WebSocket frames as a byte stream: what a stream of frames means, independently of how the
    network cuts it into reads, and the two encoders (sections 5.2 to 5.4 of RFC 6455).
 */
module WebSocketFrames {
  import opened Wrappers

  type byte = x: int | 0 <= x < 256

  /** Four bytes, and four bytes or none. */
  type MaskingKey = k: seq<byte> | |k| == 4 witness [0, 0, 0, 0]

  type Key = k: seq<byte> | |k| == 0 || |k| == 4

  const TWO_TO_THE_16 := 0x1_0000
  const TWO_TO_THE_32 := 0x1_0000_0000

  const CONTINUATION := 0
  const TEXT := 1
  const BINARY := 2
  const CLOSE := 8
  const PING := 9
  const PONG := 10

  // ---- masking ----------------------------------------------------------------------------------

  function Pow2(bits: nat): nat {
    if bits == 0 then 1 else 2 * Pow2(bits - 1)
  }

  /** The lowest bits of two numbers, combined one by one. */
  function Xor(a: nat, b: nat, bits: nat): nat {
    if bits == 0 then 0 else 2 * Xor(a / 2, b / 2, bits - 1) + (a + b) % 2
  }

  lemma {:induction false} XorBound(a: nat, b: nat, bits: nat)
    ensures Xor(a, b, bits) < Pow2(bits)
  {
    if bits > 0 {
      XorBound(a / 2, b / 2, bits - 1);
    }
  }

  lemma {:induction false} XorTwice(a: nat, b: nat, bits: nat)
    requires a < Pow2(bits)
    ensures Xor(Xor(a, b, bits), b, bits) == a
  {
    if bits > 0 {
      XorTwice(a / 2, b / 2, bits - 1);
      XorStep(a, b, bits);
    }
  }

  lemma LowestBit(half: nat, a: nat, b: nat)
    ensures var x := 2 * half + (a + b) % 2;
            x / 2 == half && x % 2 == (a + b) % 2 && (x + b) % 2 == a % 2
  {
  }

  lemma XorStep(a: nat, b: nat, bits: nat)
    requires bits > 0
    ensures var x := Xor(a, b, bits);
            x / 2 == Xor(a / 2, b / 2, bits - 1) && (x + b) % 2 == a % 2
  {
    LowestBit(Xor(a / 2, b / 2, bits - 1), a, b);
  }

  lemma {:induction false} XorCancelsOnly(a: nat, b: nat, c: nat, bits: nat)
    requires b < Pow2(bits) && c < Pow2(bits) && Xor(Xor(a, b, bits), c, bits) == a
    ensures b == c
  {
    hide Xor;
    if bits > 0 {
      var x := Xor(a, b, bits);
      XorStep(a, b, bits);
      XorStep(x, c, bits);
      XorCancelsOnly(a / 2, b / 2, c / 2, bits - 1);
      SameParity(x, b, c);
    }
  }

  lemma SameParity(x: nat, b: nat, c: nat)
    requires (x + b) % 2 == (x + c) % 2 && b / 2 == c / 2
    ensures b == c
  {
  }

  lemma Pow2Byte()
    ensures Pow2(8) == 256
  {
    assert Pow2(4) == 16;
  }

  function XorByte(a: byte, b: byte): byte {
    XorBound(a, b, 8);
    Pow2Byte();
    Xor(a, b, 8)
  }

  /** A second key undoes the first iff it is the same. */
  lemma XorByteUndone(a: byte, b: byte, c: byte)
    ensures XorByte(XorByte(a, b), c) == a <==> b == c
  {
    Pow2Byte();
    XorTwice(a, b, 8);
    if XorByte(XorByte(a, b), c) == a {
      XorCancelsOnly(a, b, c, 8);
    }
  }

  lemma {:induction false} XorZero(a: nat, bits: nat)
    requires a < Pow2(bits)
    ensures Xor(a, 0, bits) == a
  {
    if bits > 0 {
      XorZero(a / 2, bits - 1);
    }
  }

  /** Exactly the zero byte changes nothing. */
  lemma XorByteUnchanged(a: byte, b: byte)
    ensures XorByte(a, b) == a <==> b == 0
  {
    Pow2Byte();
    XorZero(XorByte(a, b), 8);
    XorByteUndone(a, b, 0);
  }

  /** The payload XORed with the repeating key; no key leaves it as it is. */
  function Masked(payload: seq<byte>, key: Key): seq<byte>
  {
    if key == [] then payload
    else seq(|payload|, i requires 0 <= i < |payload| => XorByte(payload[i], key[i % 4]))
  }

  lemma MaskedTwice(payload: seq<byte>, key: Key)
    ensures Masked(Masked(payload, key), key) == payload
  {
    if key != [] {
      forall i | 0 <= i < |payload|
        ensures Masked(Masked(payload, key), key)[i] == payload[i]
      {
        Pow2Byte();
        XorTwice(payload[i], key[i % 4], 8);
      }
    }
  }

  // ---- frame headers ----------------------------------------------------------------------------

  /** `size` is the header without the masking key; `length` what the header declares, kept in 32
      bits as the decoder does. */
  datatype Header = Header(fin: bool, rsv1: bool, rsv23: bool, op: nat, key: Key, length: nat, size: nat)

  function HeaderSize(second: byte): nat {
    if second % 128 < 126 then 2 else if second % 128 == 126 then 4 else 10
  }

  function Length(s: seq<byte>): nat
    requires |s| >= 2 && |s| >= HeaderSize(s[1])
  {
    if s[1] % 128 < 126 then s[1] % 128
    else if s[1] % 128 == 126 then Word(s[2], s[3], 0x100)
    else Word(Word(s[6], s[7], 0x100), Word(s[8], s[9], 0x100), TWO_TO_THE_16)
  }

  function Word(high: nat, low: nat, base: nat): nat { high * base + low }

  /** The header at the front of a stream, once all its bytes are there. */
  function ParseHeader(s: seq<byte>): (r: Option<Header>)
    ensures r.Some? ==> 2 <= r.value.size && Prefix(r.value) <= |s|
    ensures r == None ==> |s| < 14
  {
    if |s| < 2 || |s| < HeaderSize(s[1]) then None
    else
      var size := HeaderSize(s[1]);
      if s[1] >= 128 && |s| < size + 4 then None
      else
        Some(Header(
          s[0] >= 128, s[0] / 64 % 2 == 1, s[0] / 16 % 4 != 0, s[0] % 16,
          if s[1] >= 128 then s[size..size + 4] else [],
          Length(s), size))
  }

  /** The bytes of a frame before its payload, and the whole frame. */
  function Prefix(h: Header): nat { h.size + |h.key| }

  function Total(h: Header): nat { Prefix(h) + h.length }

  lemma HeaderStable(s: seq<byte>, t: seq<byte>)
    requires ParseHeader(s).Some?
    ensures ParseHeader(s + t) == ParseHeader(s)
  {
    var size := HeaderSize(s[1]);
    if s[1] >= 128 {
      assert (s + t)[size..size + 4] == s[size..size + 4];
    }
  }

  // ---- what a stream means ----------------------------------------------------------------------

  /** What the endpoint does with a decoded message: hand it to the handler (through the inflater if
      it is marked compressed), or answer a ping first. */
  datatype Event = Message(op: nat, payload: seq<byte>, compressed: bool) | SendPong(payload: seq<byte>)

  /** `Unmasked` is the answer to a client that does not mask, `TooLong` a declared length the decoder
      cannot add to the header size in 32 bits. */
  datatype Status = Running | Disconnected | BadReserved | Unmasked | TooLong

  /** The message being put together: its first opcode, its content so far, the last masking key that
      was not used yet, and whether it is marked compressed. */
  datatype Assembly = Assembly(firstOp: Option<nat>, content: seq<byte>, key: Key, compressed: bool)

  const EMPTY := Assembly(None, [], [], false)

  function HeaderStatus(serverSide: bool, h: Header): Status {
    if serverSide && h.key == [] then Unmasked
    else if h.length + h.size >= TWO_TO_THE_32 then TooLong
    else if h.rsv23 then BadReserved
    else Running
  }

  function StartFrame(a: Assembly, h: Header): Assembly {
    a.(firstOp := if a.firstOp == None then Some(h.op) else a.firstOp,
       key := if h.key != [] then h.key else a.key,
       compressed := if h.op == TEXT || h.op == BINARY then h.rsv1 else h.op == CONTINUATION && a.compressed)
  }

  datatype Outcome = Outcome(events: seq<Event>, assembly: Assembly, status: Status)

  /** Dispatching a complete message under its first opcode. */
  function DispatchMessage(a: Assembly, message: seq<byte>): (o: Outcome)
    requires a.firstOp.Some?
  {
    var done := a.(firstOp := None, content := [], compressed := false);
    match a.firstOp.value
    case 9 => Outcome([SendPong(message), Message(PING, message, false)], done, Running)
    case 10 => Outcome([Message(PONG, message, false)], done, Running)
    case 1 => Outcome([Message(TEXT, Masked(message, a.key), a.compressed)], done.(key := []), Running)
    case 2 => Outcome([Message(BINARY, Masked(message, a.key), a.compressed)], done.(key := []), Running)
    case _ => Outcome([], done, Disconnected)
  }

  function EndFrame(a: Assembly, fin: bool, payload: seq<byte>): (o: Outcome)
    requires a.firstOp.Some?
  {
    if fin then DispatchMessage(a, a.content + payload)
    else Outcome([], a.(content := a.content + payload), Running)
  }

  datatype Decoded = Decoded(events: seq<Event>, assembly: Assembly, rest: seq<byte>, status: Status)

  function Prepend(events: seq<Event>, d: Decoded): Decoded {
    d.(events := events + d.events)
  }

  /** The meaning of a byte stream.  `rest` is the incomplete frame at its end. */
  function Decode(serverSide: bool, a: Assembly, s: seq<byte>): (d: Decoded)
    ensures d.status == Running ==>
              ParseHeader(d.rest).Some? ==>
                HeaderStatus(serverSide, ParseHeader(d.rest).value) == Running && |d.rest| < Total(ParseHeader(d.rest).value)
    decreases |s|
  {
    match ParseHeader(s)
    case None => Decoded([], a, s, Running)
    case Some(h) =>
      if HeaderStatus(serverSide, h) != Running then Decoded([], a, [], HeaderStatus(serverSide, h))
      else if |s| < Total(h) then Decoded([], a, s, Running)
      else
        var o := EndFrame(StartFrame(a, h), h.fin, s[Prefix(h)..Total(h)]);
        if o.status != Running then Decoded(o.events, o.assembly, [], o.status)
        else Prepend(o.events, Decode(serverSide, o.assembly, s[Total(h)..]))
  }

  /** Decoding may stop after any part of the stream and resume with what was left of it. */
  lemma {:induction false} DecodeResumes(serverSide: bool, a: Assembly, s: seq<byte>, t: seq<byte>)
    ensures var d := Decode(serverSide, a, s);
            Decode(serverSide, a, s + t)
            == if d.status == Running then Prepend(d.events, Decode(serverSide, d.assembly, d.rest + t)) else d
    decreases |s|
  {
    hide Decode, EndFrame, ParseHeader, HeaderStatus;
    if FrameReady(serverSide, s) {
      FrameReadyStable(serverSide, s, t);
      DecodeStep(serverSide, a, s);
      DecodeStep(serverSide, a, s + t);
      var h := ParseHeader(s).value;
      var o := EndFrame(StartFrame(a, h), h.fin, s[Prefix(h)..Total(h)]);
      if o.status == Running {
        DecodeResumes(serverSide, o.assembly, s[Total(h)..], t);
        PrependTwice(serverSide, o.events, Decode(serverSide, o.assembly, s[Total(h)..]), t);
      }
    } else {
      DecodeStops(serverSide, a, s);
      if ParseHeader(s).Some? && HeaderStatus(serverSide, ParseHeader(s).value) != Running {
        HeaderStable(s, t);
        DecodeStops(serverSide, a, s + t);
      } else {
        PrependNone(Decode(serverSide, a, s + t));
      }
    }
  }

  lemma DecodeStops(serverSide: bool, a: Assembly, s: seq<byte>)
    requires !FrameReady(serverSide, s)
    ensures Decode(serverSide, a, s)
            == if ParseHeader(s).Some? && HeaderStatus(serverSide, ParseHeader(s).value) != Running
               then Decoded([], a, [], HeaderStatus(serverSide, ParseHeader(s).value))
               else Decoded([], a, s, Running)
  {
  }

  lemma PrependNone(d: Decoded)
    ensures Prepend([], d) == d
  {
  }

  lemma PrependStopped(events: seq<Event>, d: Decoded)
    ensures d.events == [] ==> Prepend(events, d) == d.(events := events)
  {
  }

  lemma DecodeStep(serverSide: bool, a: Assembly, s: seq<byte>)
    requires FrameReady(serverSide, s)
    ensures var h := ParseHeader(s).value;
            var o := EndFrame(StartFrame(a, h), h.fin, s[Prefix(h)..Total(h)]);
            Decode(serverSide, a, s)
            == if o.status != Running then Decoded(o.events, o.assembly, [], o.status)
               else Prepend(o.events, Decode(serverSide, o.assembly, s[Total(h)..]))
  {
  }

  /** A complete frame that may be processed stands at the front of the stream. */
  predicate FrameReady(serverSide: bool, s: seq<byte>) {
    && ParseHeader(s).Some?
    && HeaderStatus(serverSide, ParseHeader(s).value) == Running
    && |s| >= Total(ParseHeader(s).value)
  }

  lemma FrameReadyStable(serverSide: bool, s: seq<byte>, t: seq<byte>)
    requires FrameReady(serverSide, s)
    ensures ParseHeader(s + t) == ParseHeader(s) && FrameReady(serverSide, s + t)
    ensures var h := ParseHeader(s).value;
            && (s + t)[Prefix(h)..Total(h)] == s[Prefix(h)..Total(h)]
            && (s + t)[Total(h)..] == s[Total(h)..] + t
  {
    HeaderStable(s, t);
  }

  lemma PrependTwice(serverSide: bool, events: seq<Event>, d: Decoded, t: seq<byte>)
    ensures var e := Decode(serverSide, d.assembly, d.rest + t);
            Prepend(events, Prepend(d.events, e)) == Prepend(events + d.events, e)
  {
    var e := Decode(serverSide, d.assembly, d.rest + t);
    assert events + (d.events + e.events) == (events + d.events) + e.events;
  }
}
