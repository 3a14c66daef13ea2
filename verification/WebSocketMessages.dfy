/** Encoding WebSocket messages: every legal way to put a message on the wire decodes to that message,
    and what the endpoint's own two encoders produce.
 */
module WebSocketMessages {
  import opened WebSocketFrames
  import opened Wrappers

  // ---- frames -----------------------------------------------------------------------------------

  /** The three forms of the length field. */
  datatype Form = Short | Medium | Long

  predicate Fits(form: Form, length: nat) {
    match form
    case Short => length < 126
    case Medium => length < TWO_TO_THE_16
    case Long => length < TWO_TO_THE_32 - 10
  }

  function FormSize(form: Form): nat {
    match form
    case Short => 2
    case Medium => 4
    case Long => 10
  }

  function LengthField(form: Form, maskBit: nat, length: nat): seq<byte>
    requires (maskBit == 0 || maskBit == 128) && Fits(form, length)
  {
    match form
    case Short => [maskBit + length]
    case Medium => [maskBit + 126, length / 0x100, length % 0x100]
    case Long =>
      [maskBit + 127, 0, 0, 0, 0,
       length / 0x1_0000 / 0x100, length / 0x1_0000 % 0x100, length % 0x1_0000 / 0x100, length % 0x1_0000 % 0x100]
  }

  /** A frame with reserved bits zero; the key is empty for an unmasked frame. */
  function Frame(fin: bool, op: nat, form: Form, key: Key, payload: seq<byte>): seq<byte>
    requires op < 16 && Fits(form, |payload|)
  {
    [(if fin then 128 else 0) + op] + LengthField(form, if key == [] then 0 else 128, |payload|) + key + Masked(payload, key)
  }

  lemma Pieces<T>(a: seq<T>, b: seq<T>, c: seq<T>, d: seq<T>, t: seq<T>)
    ensures var s := a + b + c + d + t;
            && s[..|a|] == a && s[|a|..|a| + |b|] == b
            && s[|a| + |b|..|a| + |b| + |c|] == c
            && s[|a| + |b| + |c|..|a| + |b| + |c| + |d|] == d
            && s[|a| + |b| + |c| + |d|..] == t
  {
  }

  lemma Digits(n: nat)
    ensures Word(n / 0x100, n % 0x100, 0x100) == n
  {
  }

  lemma LengthRestored(s: seq<byte>, form: Form, maskBit: nat, length: nat)
    requires (maskBit == 0 || maskBit == 128) && Fits(form, length)
    requires |s| >= FormSize(form) && s[1..FormSize(form)] == LengthField(form, maskBit, length)
    ensures HeaderSize(s[1]) == FormSize(form) && Length(s) == length && s[1] / 128 * 128 == maskBit
  {
    var field := s[1..FormSize(form)];
    assert s[1] == field[0];
    match form
    case Short =>
    case Medium => MediumRestored(s, length);
    case Long => LongRestored(s, length);
  }

  lemma MediumRestored(s: seq<byte>, length: nat)
    requires |s| >= 4 && s[1] % 128 == 126 && length < TWO_TO_THE_16
    requires s[1..4] == [s[1], length / 0x100, length % 0x100]
    ensures Length(s) == length
  {
    assert s[2] == s[1..4][1] && s[3] == s[1..4][2];
    Digits(length);
  }

  lemma LongRestored(s: seq<byte>, length: nat)
    requires |s| >= 10 && s[1] % 128 == 127 && length < TWO_TO_THE_32
    requires s[1..10] == [s[1], 0, 0, 0, 0, length / 0x1_0000 / 0x100, length / 0x1_0000 % 0x100, length % 0x1_0000 / 0x100, length % 0x1_0000 % 0x100]
    ensures Length(s) == length
  {
    var field := s[1..10];
    assert s[6] == field[5] && s[7] == field[6] && s[8] == field[7] && s[9] == field[8];
    Digits(length / 0x1_0000);
    Digits(length % 0x1_0000);

  }

  lemma HeaderRestored(s: seq<byte>, fin: bool, op: nat, form: Form, key: Key, length: nat)
    requires op < 16 && Fits(form, length)
    requires |s| >= FormSize(form) + |key| && s[0] == (if fin then 128 else 0) + op
    requires s[1..FormSize(form)] == LengthField(form, if key == [] then 0 else 128, length)
    requires s[FormSize(form)..FormSize(form) + |key|] == key
    ensures ParseHeader(s) == Some(Header(fin, false, false, op, key, length, FormSize(form)))
  {
    LengthRestored(s, form, if key == [] then 0 else 128, length);
    FirstByte(s[0], fin, op);
    hide Length;
    hide LengthField;
  }

  lemma FirstByte(first: byte, fin: bool, op: nat)
    requires op < 16 && first == (if fin then 128 else 0) + op
    ensures first >= 128 <==> fin
    ensures first / 64 % 2 == 0 && first / 16 % 4 == 0 && first % 16 == op
  {
  }

  lemma FrameParses(fin: bool, op: nat, form: Form, key: Key, payload: seq<byte>, t: seq<byte>)
    requires op < 16 && Fits(form, |payload|)
    ensures var h := Header(fin, false, false, op, key, |payload|, FormSize(form));
            var s := Frame(fin, op, form, key, payload);
            && |s| == Total(h)
            && ParseHeader(s + t) == Some(h)
            && (s + t)[Prefix(h)..Total(h)] == Masked(payload, key)
            && (s + t)[Total(h)..] == t
  {
    var first: seq<byte> := [(if fin then 128 else 0) + op];
    var field := LengthField(form, if key == [] then 0 else 128, |payload|);
    assert |field| == FormSize(form) - 1;
    var s := Frame(fin, op, form, key, payload) + t;
    Pieces(first, field, key, Masked(payload, key), t);
    assert s[0] == s[..1][0] == first[0];
    HeaderRestored(s, fin, op, form, key, |payload|);
  }

  lemma FrameDecodes(serverSide: bool, a: Assembly, fin: bool, op: nat, form: Form, key: Key,
                     payload: seq<byte>, t: seq<byte>)
    requires op < 16 && Fits(form, |payload|)
    requires serverSide ==> key != []
    ensures var h := Header(fin, false, false, op, key, |payload|, FormSize(form));
            var o := EndFrame(StartFrame(a, h), fin, Masked(payload, key));
            var s := Frame(fin, op, form, key, payload);
            Decode(serverSide, a, s + t)
            == if o.status != Running then Decoded(o.events, o.assembly, [], o.status)
               else Prepend(o.events, Decode(serverSide, o.assembly, t))
  {
    FrameParses(fin, op, form, key, payload, t);
    DecodeStep(serverSide, a, Frame(fin, op, form, key, payload) + t);
  }

  lemma DecodeNothing(serverSide: bool, a: Assembly)
    ensures Decode(serverSide, a, []) == Decoded([], a, [], Running)
  {
  }

  // ---- messages ---------------------------------------------------------------------------------

  datatype Fragment = Fragment(form: Form, payload: seq<byte>)

  /** An unmasked message in one or more fragments, or a masked one in a single frame. */
  datatype WireMessage =
    | Plain(op: nat, fragments: seq<Fragment>)
    | Hidden(op: nat, form: Form, key: MaskingKey, payload: seq<byte>)

  predicate WellFormed(m: WireMessage) {
    match m
    case Plain(op, fragments) =>
      && fragments != []
      && (op == TEXT || op == BINARY || ((op == PING || op == PONG) && |fragments| == 1))
      && forall i :: 0 <= i < |fragments| ==> Fits(fragments[i].form, |fragments[i].payload|)
    case Hidden(op, form, key, payload) =>
      (op == TEXT || op == BINARY) && Fits(form, |payload|)
  }

  /** A server requires masking; a client is sent unmasked frames. */
  predicate Acceptable(serverSide: bool, m: WireMessage) {
    WellFormed(m) && (serverSide ==> m.Hidden?)
  }

  function Joined(fragments: seq<Fragment>): seq<byte> {
    if fragments == [] then [] else fragments[0].payload + Joined(fragments[1..])
  }

  function FragmentBytes(op: nat, fragments: seq<Fragment>): seq<byte>
    requires op < 16 && forall i :: 0 <= i < |fragments| ==> Fits(fragments[i].form, |fragments[i].payload|)
    decreases |fragments|
  {
    if fragments == [] then []
    else
      Frame(|fragments| == 1, op, fragments[0].form, [], fragments[0].payload)
      + FragmentBytes(CONTINUATION, fragments[1..])
  }

  function MessageBytes(m: WireMessage): seq<byte>
    requires WellFormed(m)
  {
    match m
    case Plain(op, fragments) => FragmentBytes(op, fragments)
    case Hidden(op, form, key, payload) => Frame(true, op, form, key, payload)
  }

  function Payload(m: WireMessage): seq<byte> {
    match m
    case Plain(_, fragments) => Joined(fragments)
    case Hidden(_, _, _, payload) => payload
  }

  function EventsOf(m: WireMessage): seq<Event> {
    (if m.op == PING then [SendPong(Payload(m))] else []) + [Message(m.op, Payload(m), false)]
  }

  function FirstOp(a: Assembly, op: nat): nat {
    if a.firstOp.Some? then a.firstOp.value else op
  }

  predicate Dispatched(op: nat) {
    op == TEXT || op == BINARY || op == PING || op == PONG
  }

  /** What is dispatched for a message that arrived as `raw` bytes, the last frame under `key`. */
  function Delivery(op: nat, raw: seq<byte>, key: Key): seq<Event>
  {
    if op == PING then [SendPong(raw), Message(PING, raw, false)]
    else if op == PONG then [Message(PONG, raw, false)]
    else [Message(op, Masked(raw, key), false)]
  }

  /** The key that stays behind after a message. */
  function KeyLeft(op: nat, key: Key): Key {
    if op == TEXT || op == BINARY then [] else key
  }

  /** The key the decoder has after a frame. */
  function KeyAfter(before: Key, key: Key): Key { if key != [] then key else before }

  lemma FinalFrameDecodes(serverSide: bool, a: Assembly, op: nat, form: Form, key: Key, payload: seq<byte>, t: seq<byte>)
    requires op < 16 && Fits(form, |payload|) && (serverSide ==> key != [])
    requires !a.compressed && Dispatched(FirstOp(a, op))
    ensures var first, k := FirstOp(a, op), KeyAfter(a.key, key);
            Decode(serverSide, a, Frame(true, op, form, key, payload) + t)
            == Prepend(Delivery(first, a.content + Masked(payload, key), k),
                       Decode(serverSide, EMPTY.(key := KeyLeft(first, k)), t))
  {
    hide Decode, Masked, Frame;
    FrameDecodes(serverSide, a, true, op, form, key, payload, t);
  }

  lemma MiddleFrameDecodes(serverSide: bool, a: Assembly, op: nat, form: Form, key: Key, payload: seq<byte>, t: seq<byte>)
    requires op < 16 && Fits(form, |payload|) && !a.compressed && (serverSide ==> key != [])
    ensures Decode(serverSide, a, Frame(false, op, form, key, payload) + t)
            == Decode(serverSide, Assembly(Some(FirstOp(a, op)), a.content + Masked(payload, key), KeyAfter(a.key, key), false), t)
  {
    hide Decode, Masked, Frame;
    FrameDecodes(serverSide, a, false, op, form, key, payload, t);
    PrependNone(Decode(serverSide, Assembly(Some(FirstOp(a, op)), a.content + Masked(payload, key), KeyAfter(a.key, key), false), t));
  }

  /** The rest of a fragmented message, once its first opcode is known. */
  lemma {:induction false} FragmentsDecode(a: Assembly, op: nat, fragments: seq<Fragment>, t: seq<byte>)
    requires fragments != [] && op < 16
    requires a.key == [] && !a.compressed && Dispatched(FirstOp(a, op))
    requires forall i :: 0 <= i < |fragments| ==> Fits(fragments[i].form, |fragments[i].payload|)
    ensures Decode(false, a, FragmentBytes(op, fragments) + t)
            == Prepend(Delivery(FirstOp(a, op), a.content + Joined(fragments), []), Decode(false, EMPTY, t))
    decreases |fragments|
  {
    var Fragment(form, payload) := fragments[0];
    assert Masked(payload, []) == payload;
    assert EMPTY.(key := KeyLeft(FirstOp(a, op), [])) == EMPTY;
    hide Decode, Frame, Masked, Delivery;
    var rest := FragmentBytes(CONTINUATION, fragments[1..]);
    assert FragmentBytes(op, fragments) + t == Frame(|fragments| == 1, op, form, [], payload) + (rest + t);
    if |fragments| == 1 {
      FinalFrameDecodes(false, a, op, form, [], payload, rest + t);
      assert rest + t == t;
      assert Joined(fragments) == payload;
    } else {
      MiddleFrameDecodes(false, a, op, form, [], payload, rest + t);
      var b := Assembly(Some(FirstOp(a, op)), a.content + payload, [], false);
      FragmentsDecode(b, CONTINUATION, fragments[1..], t);
      assert b.content + Joined(fragments[1..]) == a.content + Joined(fragments);
    }
  }

  /** What an unfragmented message is dispatched as: control messages are not unmasked. */
  function Arrival(op: nat, key: Key, payload: seq<byte>): seq<Event>
  {
    if op == PING then [SendPong(Masked(payload, key)), Message(PING, Masked(payload, key), false)]
    else if op == PONG then [Message(PONG, Masked(payload, key), false)]
    else [Message(op, payload, false)]
  }

  lemma DeliveryUnmasks(op: nat, key: Key, payload: seq<byte>)
    ensures Delivery(op, [] + Masked(payload, key), key) == Arrival(op, key, payload)
  {
    MaskedTwice(payload, key);
    assert [] + Masked(payload, key) == Masked(payload, key);
  }

  /** One unfragmented message, from a decoder that is between messages. */
  lemma WholeFrameDecodes(serverSide: bool, op: nat, form: Form, key: Key, payload: seq<byte>, t: seq<byte>)
    requires Dispatched(op) && Fits(form, |payload|) && (serverSide ==> key != [])
    ensures Decode(serverSide, EMPTY, Frame(true, op, form, key, payload) + t)
            == Prepend(Arrival(op, key, payload), Decode(serverSide, EMPTY.(key := KeyLeft(op, key)), t))
  {
    FinalFrameDecodes(serverSide, EMPTY, op, form, key, payload, t);
    DeliveryUnmasks(op, key, payload);
  }

  lemma HiddenDecodes(serverSide: bool, op: nat, form: Form, key: MaskingKey, payload: seq<byte>, t: seq<byte>)
    requires (op == TEXT || op == BINARY) && Fits(form, |payload|)
    ensures Decode(serverSide, EMPTY, Frame(true, op, form, key, payload) + t)
            == Prepend([Message(op, payload, false)], Decode(serverSide, EMPTY, t))
  {
    hide Decode;
    WholeFrameDecodes(serverSide, op, form, key, payload, t);
  }

  lemma PlainDecodes(op: nat, fragments: seq<Fragment>, t: seq<byte>)
    requires WellFormed(Plain(op, fragments))
    ensures Decode(false, EMPTY, FragmentBytes(op, fragments) + t)
            == Prepend(EventsOf(Plain(op, fragments)), Decode(false, EMPTY, t))
  {
    hide Decode;
    FragmentsDecode(EMPTY, op, fragments, t);
    assert EMPTY.content + Joined(fragments) == Joined(fragments);
    assert EventsOf(Plain(op, fragments)) == Delivery(op, Joined(fragments), []);
  }

  lemma MessageDecodes(serverSide: bool, m: WireMessage, t: seq<byte>)
    requires Acceptable(serverSide, m)
    ensures Decode(serverSide, EMPTY, MessageBytes(m) + t) == Prepend(EventsOf(m), Decode(serverSide, EMPTY, t))
  {
    hide Decode;
    match m
    case Plain(op, fragments) => PlainDecodes(op, fragments, t);
    case Hidden(op, form, key, payload) => HiddenDecodes(serverSide, op, form, key, payload, t);
  }

  predicate AllAcceptable(serverSide: bool, ms: seq<WireMessage>) {
    ms == [] || (Acceptable(serverSide, ms[0]) && AllAcceptable(serverSide, ms[1..]))
  }

  function WireBytes(serverSide: bool, ms: seq<WireMessage>): seq<byte>
    requires AllAcceptable(serverSide, ms)
  {
    if ms == [] then [] else MessageBytes(ms[0]) + WireBytes(serverSide, ms[1..])
  }

  function AllEvents(ms: seq<WireMessage>): seq<Event> {
    if ms == [] then [] else EventsOf(ms[0]) + AllEvents(ms[1..])
  }

  /** Any list of messages decodes to its events and leaves the rest of the stream. */
  lemma {:induction false} MessagesDecode(serverSide: bool, ms: seq<WireMessage>, t: seq<byte>)
    requires AllAcceptable(serverSide, ms)
    ensures Decode(serverSide, EMPTY, WireBytes(serverSide, ms) + t) == Prepend(AllEvents(ms), Decode(serverSide, EMPTY, t))
    decreases |ms|
  {
    hide Decode, MessageBytes, EventsOf;
    if ms == [] {
      assert WireBytes(serverSide, ms) + t == t;
      PrependNone(Decode(serverSide, EMPTY, t));
    } else {
      var rest := WireBytes(serverSide, ms[1..]);
      assert WireBytes(serverSide, ms) + t == MessageBytes(ms[0]) + (rest + t);
      MessageDecodes(serverSide, ms[0], rest + t);
      MessagesDecode(serverSide, ms[1..], t);
      var d := Decode(serverSide, EMPTY, t);
      assert EventsOf(ms[0]) + (AllEvents(ms[1..]) + d.events) == AllEvents(ms) + d.events;
    }
  }

  /** The opcodes as section 11.8 of RFC 6455 registers them. */
  lemma Opcodes()
    ensures CONTINUATION == 0 && TEXT == 1 && BINARY == 2 && CLOSE == 8 && PING == 9 && PONG == 10
    ensures TWO_TO_THE_16 == 65_536 && TWO_TO_THE_32 == 4_294_967_296
  {
  }

  /** Decoding inverts encoding, for any fragmentation, any masking keys and any length forms. */
  lemma {:induction false} RoundTrip(serverSide: bool, ms: seq<WireMessage>)
    requires AllAcceptable(serverSide, ms)
    ensures Decode(serverSide, EMPTY, WireBytes(serverSide, ms)) == Decoded(AllEvents(ms), EMPTY, [], Running)
    decreases |ms|
  {
    MessagesDecode(serverSide, ms, []);
    assert WireBytes(serverSide, ms) + [] == WireBytes(serverSide, ms) && AllEvents(ms) + [] == AllEvents(ms);
    DecodeNothing(serverSide, EMPTY);
  }

  // ---- masked fragments -------------------------------------------------------------------------

  /** A frame of a message whose frames may be masked, each under its own key. */
  datatype KeyedFragment = KeyedFragment(form: Form, key: Key, payload: seq<byte>)

  predicate Sendable(serverSide: bool, fragments: seq<KeyedFragment>) {
    forall i :: 0 <= i < |fragments| ==>
      Fits(fragments[i].form, |fragments[i].payload|) && (serverSide ==> fragments[i].key != [])
  }

  function KeyedBytes(serverSide: bool, op: nat, fragments: seq<KeyedFragment>): seq<byte>
    requires op < 16 && Sendable(serverSide, fragments)
    decreases |fragments|
  {
    if fragments == [] then []
    else
      Frame(|fragments| == 1, op, fragments[0].form, fragments[0].key, fragments[0].payload)
      + KeyedBytes(serverSide, CONTINUATION, fragments[1..])
  }

  /** The payloads, and the payloads as they are on the wire. */
  function Whole(fragments: seq<KeyedFragment>): seq<byte> {
    if fragments == [] then [] else fragments[0].payload + Whole(fragments[1..])
  }

  function OnWire(fragments: seq<KeyedFragment>): seq<byte> {
    if fragments == [] then [] else Masked(fragments[0].payload, fragments[0].key) + OnWire(fragments[1..])
  }

  /** The last key, if there is one. */
  function LastKey(key: Key, fragments: seq<KeyedFragment>): Key
    decreases |fragments|
  {
    if fragments == [] then key
    else LastKey(KeyAfter(key, fragments[0].key), fragments[1..])
  }

  /** The decoder puts the bytes on the wire together and unmasks the whole under the last key. */
  lemma {:induction false} KeyedFragmentsDecode(serverSide: bool, a: Assembly, op: nat, fragments: seq<KeyedFragment>, t: seq<byte>)
    requires fragments != [] && op < 16 && Sendable(serverSide, fragments) && !a.compressed
    requires FirstOp(a, op) == TEXT || FirstOp(a, op) == BINARY
    ensures var message := Masked(a.content + OnWire(fragments), LastKey(a.key, fragments));
            Decode(serverSide, a, KeyedBytes(serverSide, op, fragments) + t)
            == Prepend([Message(FirstOp(a, op), message, false)], Decode(serverSide, EMPTY, t))
    decreases |fragments|
  {
    hide Decode, Frame, Masked;
    var KeyedFragment(form, key, payload) := fragments[0];
    var rest := KeyedBytes(serverSide, CONTINUATION, fragments[1..]);
    assert KeyedBytes(serverSide, op, fragments) + t == Frame(|fragments| == 1, op, form, key, payload) + (rest + t);
    if |fragments| == 1 {
      FinalFrameDecodes(serverSide, a, op, form, key, payload, rest + t);
      assert rest + t == t;
      assert OnWire(fragments) == Masked(payload, key);
    } else {
      MiddleFrameDecodes(serverSide, a, op, form, key, payload, rest + t);
      var b := Assembly(Some(FirstOp(a, op)), a.content + Masked(payload, key), KeyAfter(a.key, key), false);
      KeyedFragmentsDecode(serverSide, b, CONTINUATION, fragments[1..], t);
      assert b.content + OnWire(fragments[1..]) == a.content + OnWire(fragments);
    }
  }

  /** The byte of a key that masks the byte at some place. */
  function KeyByte(key: Key, i: nat): byte {
    if key == [] then 0 else key[i % 4]
  }

  /** Masking under a key that is started `shift` bytes late. */
  function MaskedLate(payload: seq<byte>, key: Key, shift: nat): seq<byte>
  {
    seq(|payload|, i requires 0 <= i < |payload| => XorByte(payload[i], KeyByte(key, shift + i)))
  }

  lemma MaskedLateIsMasked(payload: seq<byte>, key: Key)
    ensures MaskedLate(payload, key, 0) == Masked(payload, key)
  {
    hide XorByte;
    if key == [] {
      forall i | 0 <= i < |payload|
        ensures MaskedLate(payload, key, 0)[i] == payload[i]
      {
        XorByteUnchanged(payload[i], 0);
      }
    }
  }

  /** Two keys mask a payload alike, the second started `shift` bytes late. */
  predicate SameKeyBytes(payload: seq<byte>, k: Key, l: Key, shift: nat)
  {
    forall i :: 0 <= i < |payload| ==> KeyByte(k, i) == KeyByte(l, shift + i)
  }

  /** Unmasking under another key, or late, gives the payload back iff the key bytes used are the same. */
  lemma RemaskedIff(p: seq<byte>, k: Key, l: Key, shift: nat)
    ensures MaskedLate(Masked(p, k), l, shift) == p <==> SameKeyBytes(p, k, l, shift)
  {
    hide XorByte;
    MaskedLateIsMasked(p, k);
    var remasked := MaskedLate(MaskedLate(p, k, 0), l, shift);
    forall i | 0 <= i < |p|
      ensures remasked[i] == p[i] <==> KeyByte(k, i) == KeyByte(l, shift + i)
    {
      XorByteUndone(p[i], KeyByte(k, i), KeyByte(l, shift + i));
    }
    if SameKeyBytes(p, k, l, shift) {
      assert forall i :: 0 <= i < |p| ==> remasked[i] == p[i];
    }
  }

  lemma MaskedLateSplits(a: seq<byte>, b: seq<byte>, l: Key, shift: nat)
    ensures MaskedLate(a + b, l, shift) == MaskedLate(a, l, shift) + MaskedLate(b, l, shift + |a|)
  {
    hide XorByte, KeyByte;
    var s := MaskedLate(a + b, l, shift);
    assert s[..|a|] == MaskedLate(a, l, shift);
    forall j | 0 <= j < |b|
      ensures s[|a|..][j] == MaskedLate(b, l, shift + |a|)[j]
    {
      assert (a + b)[|a| + j] == b[j] && shift + (|a| + j) == shift + |a| + j;
    }
    assert s[|a|..] == MaskedLate(b, l, shift + |a|);
  }

  lemma SamePieces<T>(a: seq<T>, b: seq<T>, p: seq<T>, q: seq<T>)
    requires |a| == |p|
    ensures a + b == p + q <==> a == p && b == q
  {
    if a + b == p + q {
      assert a == (a + b)[..|a|] && b == (a + b)[|a|..];
      assert p == (p + q)[..|p|] && q == (p + q)[|p|..];
    }
  }

  /** Each fragment is masked as the key `l` masks it when started at the front of the message. */
  predicate KeysLineUp(fragments: seq<KeyedFragment>, l: Key, shift: nat)
    decreases |fragments|
  {
    fragments == []
    || (SameKeyBytes(fragments[0].payload, fragments[0].key, l, shift)
        && KeysLineUp(fragments[1..], l, shift + |fragments[0].payload|))
  }

  lemma {:induction false} UnmaskedIff(fragments: seq<KeyedFragment>, l: Key, shift: nat)
    ensures MaskedLate(OnWire(fragments), l, shift) == Whole(fragments) <==> KeysLineUp(fragments, l, shift)
    decreases |fragments|
  {
    hide MaskedLate, Masked, SameKeyBytes;
    if fragments == [] {
      MaskedLateSize([], l, shift);
    } else {
      var KeyedFragment(_, key, payload) := fragments[0];
      var first, rest := Masked(payload, key), OnWire(fragments[1..]);
      MaskedSize(payload, key);
      MaskedLateSize(first, l, shift);
      MaskedLateSplits(first, rest, l, shift);
      SamePieces(MaskedLate(first, l, shift), MaskedLate(rest, l, shift + |payload|), payload, Whole(fragments[1..]));
      RemaskedIff(payload, key, l, shift);
      UnmaskedIff(fragments[1..], l, shift + |payload|);
    }
  }

  lemma MaskedSize(payload: seq<byte>, key: Key)
    ensures |Masked(payload, key)| == |payload|
  {
  }

  lemma MaskedLateSize(payload: seq<byte>, key: Key, shift: nat)
    ensures |MaskedLate(payload, key, shift)| == |payload|
  {
  }

  /** A message in any number of frames, masked or not, arrives as sent iff the key of each frame agrees,
      on the bytes the frame has, with the last key started at the front of the message. */
  lemma FragmentsArriveIff(serverSide: bool, op: nat, fragments: seq<KeyedFragment>)
    requires (op == TEXT || op == BINARY) && fragments != [] && Sendable(serverSide, fragments)
    ensures Decode(serverSide, EMPTY, KeyedBytes(serverSide, op, fragments))
            == Decoded([Message(op, Whole(fragments), false)], EMPTY, [], Running)
            <==> KeysLineUp(fragments, LastKey([], fragments), 0)
  {
    hide Decode, Masked, MaskedLate, KeyedBytes, KeysLineUp, OnWire, Whole;
    var wire, key := KeyedBytes(serverSide, op, fragments), LastKey([], fragments);
    assert wire + [] == wire && EMPTY.content + OnWire(fragments) == OnWire(fragments);
    KeyedFragmentsDecode(serverSide, EMPTY, op, fragments, []);
    DecodeNothing(serverSide, EMPTY);
    PrependStopped([Message(op, Masked(OnWire(fragments), key), false)], Decoded([], EMPTY, [], Running));
    MaskedLateIsMasked(OnWire(fragments), key);
    UnmaskedIff(fragments, key, 0);
    if Masked(OnWire(fragments), key) != Whole(fragments) {
      assert Message(op, Masked(OnWire(fragments), key), false) != Message(op, Whole(fragments), false);
    }
  }

  // ---- control frames inside a message ----------------------------------------------------------

  /** Frames of a message, of which none is the last. */
  function OpenBytes(serverSide: bool, op: nat, fragments: seq<KeyedFragment>): seq<byte>
    requires op < 16 && Sendable(serverSide, fragments)
    decreases |fragments|
  {
    if fragments == [] then []
    else
      Frame(false, op, fragments[0].form, fragments[0].key, fragments[0].payload)
      + OpenBytes(serverSide, CONTINUATION, fragments[1..])
  }

  lemma {:induction false} OpenDecodes(serverSide: bool, a: Assembly, op: nat, fragments: seq<KeyedFragment>, t: seq<byte>)
    requires fragments != [] && op < 16 && Sendable(serverSide, fragments) && !a.compressed
    ensures Decode(serverSide, a, OpenBytes(serverSide, op, fragments) + t)
            == Decode(serverSide,
                      Assembly(Some(FirstOp(a, op)), a.content + OnWire(fragments), LastKey(a.key, fragments), false), t)
    decreases |fragments|
  {
    hide Decode, Frame, Masked;
    var KeyedFragment(form, key, payload) := fragments[0];
    var rest := OpenBytes(serverSide, CONTINUATION, fragments[1..]);
    assert OpenBytes(serverSide, op, fragments) + t == Frame(false, op, form, key, payload) + (rest + t);
    MiddleFrameDecodes(serverSide, a, op, form, key, payload, rest + t);
    var b := Assembly(Some(FirstOp(a, op)), a.content + Masked(payload, key), KeyAfter(a.key, key), false);
    if |fragments| == 1 {
      assert rest + t == t && OnWire(fragments) == Masked(payload, key);
    } else {
      OpenDecodes(serverSide, b, CONTINUATION, fragments[1..], t);
      assert b.content + OnWire(fragments[1..]) == a.content + OnWire(fragments);
    }
  }

  /** The opcodes that no message begins with, and of a close: 0, 3 to 8, and 11 to 15. */
  predicate Ends(op: nat) { op == 0 || 3 <= op <= 8 || 11 <= op }

  /** Frames of a message that such an opcode begins end the connection, and dispatch nothing. */
  lemma {:induction false} StrayDecodes(serverSide: bool, a: Assembly, op: nat, fragments: seq<KeyedFragment>, t: seq<byte>)
    requires fragments != [] && Sendable(serverSide, fragments) && !a.compressed && op < 16 && Ends(FirstOp(a, op))
    ensures var d := Decode(serverSide, a, KeyedBytes(serverSide, op, fragments) + t);
            d.events == [] && d.status == Disconnected && d.rest == []
    decreases |fragments|
  {
    hide Decode, Frame, Masked;
    var KeyedFragment(form, key, payload) := fragments[0];
    var rest := KeyedBytes(serverSide, CONTINUATION, fragments[1..]);
    assert KeyedBytes(serverSide, op, fragments) + t
        == Frame(|fragments| == 1, op, form, key, payload) + (rest + t);
    if |fragments| == 1 {
      FrameDecodes(serverSide, a, true, op, form, key, payload, rest + t);
    } else {
      MiddleFrameDecodes(serverSide, a, op, form, key, payload, rest + t);
      var b := Assembly(Some(FirstOp(a, op)), a.content + Masked(payload, key), KeyAfter(a.key, key), false);
      StrayDecodes(serverSide, b, CONTINUATION, fragments[1..], t);
    }
  }

  /** A close frame, or one with an opcode that is not known or continues nothing, ends the connection: the
      messages before it are dispatched and nothing from then on, in however many frames it comes. */
  lemma CloseEndsDecoding(serverSide: bool, ms: seq<WireMessage>, op: nat, fragments: seq<KeyedFragment>, t: seq<byte>)
    requires AllAcceptable(serverSide, ms) && op < 16 && Ends(op) && fragments != [] && Sendable(serverSide, fragments)
    ensures var d := Decode(serverSide, EMPTY, WireBytes(serverSide, ms) + (KeyedBytes(serverSide, op, fragments) + t));
            d.events == AllEvents(ms) && d.status == Disconnected
  {
    hide Decode, KeyedBytes, WireBytes;
    MessagesDecode(serverSide, ms, KeyedBytes(serverSide, op, fragments) + t);
    StrayDecodes(serverSide, EMPTY, op, fragments, t);
    assert AllEvents(ms) + [] == AllEvents(ms);
  }

  // ---- other first bytes and headers that are refused -------------------------------------------

  /** A frame with any first byte, of which the payload may be missing. */
  function RawFrame(first: byte, form: Form, key: Key, length: nat, payload: seq<byte>): seq<byte>
    requires Fits(form, length)
  {
    [first] + LengthField(form, if key == [] then 0 else 128, length) + key + payload
  }

  lemma RawHeaderRestored(s: seq<byte>, form: Form, key: Key, length: nat)
    requires Fits(form, length) && |s| >= FormSize(form) + |key|
    requires s[1..FormSize(form)] == LengthField(form, if key == [] then 0 else 128, length)
    requires s[FormSize(form)..FormSize(form) + |key|] == key
    ensures ParseHeader(s)
            == Some(Header(s[0] >= 128, s[0] / 64 % 2 == 1, s[0] / 16 % 4 != 0, s[0] % 16, key, length, FormSize(form)))
  {
    LengthRestored(s, form, if key == [] then 0 else 128, length);
    hide Length, LengthField;
  }

  lemma RawHeader(first: byte, form: Form, key: Key, length: nat, payload: seq<byte>, t: seq<byte>)
    requires Fits(form, length)
    ensures var h := Header(first >= 128, first / 64 % 2 == 1, first / 16 % 4 != 0, first % 16, key, length, FormSize(form));
            var s := RawFrame(first, form, key, length, payload) + t;
            && ParseHeader(s) == Some(h)
            && s[Prefix(h)..] == payload + t
  {
    var field := LengthField(form, if key == [] then 0 else 128, length);
    var s := RawFrame(first, form, key, length, payload) + t;
    FieldSize(form, if key == [] then 0 else 128, length);
    hide LengthField, ParseHeader, Fits;
    Pieces([first], field, key, payload, t);
    assert s[0] == s[..1][0] == first;
    RawHeaderRestored(s, form, key, length);
    assert s == ([first] + field + key) + (payload + t);
  }

  lemma FieldSize(form: Form, maskBit: nat, length: nat)
    requires (maskBit == 0 || maskBit == 128) && Fits(form, length)
    ensures |LengthField(form, maskBit, length)| == FormSize(form) - 1
  {
  }

  /** After any messages, a frame that a client did not mask, or one with a reserved bit set that no
      extension gave a meaning (section 5.2 of RFC 6455), ends the decoding, however much of it has come;
      the messages before it are dispatched. */
  lemma RefusedHeaderEndsDecoding(serverSide: bool, ms: seq<WireMessage>, first: byte, form: Form, key: Key, length: nat, t: seq<byte>)
    requires AllAcceptable(serverSide, ms) && Fits(form, length)
    requires (serverSide && key == []) || first / 16 % 4 != 0
    ensures var d := Decode(serverSide, EMPTY, WireBytes(serverSide, ms) + (RawFrame(first, form, key, length, []) + t));
            && d.events == AllEvents(ms)
            && d.status == if serverSide && key == [] then Unmasked else BadReserved
  {
    var s := RawFrame(first, form, key, length, []) + t;
    hide WireBytes, RawFrame, ParseHeader, AllEvents;
    MessagesDecode(serverSide, ms, s);
    RawHeader(first, form, key, length, [], t);
    DecodeStops(serverSide, EMPTY, s);
    assert AllEvents(ms) + [] == AllEvents(ms);
  }

  /** A header whose length field, of eight bytes of which the decoder keeps four, says 2^32 - 10 or more
      ends the decoding; every smaller length is decoded. */
  lemma TooLongEndsDecoding(serverSide: bool, ms: seq<WireMessage>, s: seq<byte>)
    requires AllAcceptable(serverSide, ms) && |s| >= 14 && (serverSide ==> s[1] >= 128)
    requires s[1] % 128 == 127 && s[6] == s[7] == s[8] == 255 && s[9] >= 246
    ensures var d := Decode(serverSide, EMPTY, WireBytes(serverSide, ms) + s);
            d.events == AllEvents(ms) && d.status == TooLong
  {
    hide WireBytes, AllEvents, Decode;
    MessagesDecode(serverSide, ms, s);
    DecodeStops(serverSide, EMPTY, s);
    assert AllEvents(ms) + [] == AllEvents(ms);
  }

  // ---- compressed messages ----------------------------------------------------------------------

  /** The frames of a message marked compressed: the first has the bit RSV1 set (section 6.1 of RFC 7692). */
  function MarkedBytes(serverSide: bool, op: nat, fragments: seq<KeyedFragment>): seq<byte>
    requires op < 16 && Sendable(serverSide, fragments) && fragments != []
  {
    var KeyedFragment(form, key, payload) := fragments[0];
    RawFrame((if |fragments| == 1 then 192 else 64) + op, form, key, |payload|, Masked(payload, key))
    + KeyedBytes(serverSide, CONTINUATION, fragments[1..])
  }

  /** The frames that go on with a message keep its mark. */
  lemma {:induction false} MarkedRestDecodes(serverSide: bool, a: Assembly, fragments: seq<KeyedFragment>, t: seq<byte>)
    requires fragments != [] && Sendable(serverSide, fragments) && a.compressed
    requires a.firstOp == Some(TEXT) || a.firstOp == Some(BINARY)
    ensures var message := Masked(a.content + OnWire(fragments), LastKey(a.key, fragments));
            Decode(serverSide, a, KeyedBytes(serverSide, CONTINUATION, fragments) + t)
            == Prepend([Message(a.firstOp.value, message, true)], Decode(serverSide, EMPTY, t))
    decreases |fragments|
  {
    hide Decode, Frame, Masked;
    var KeyedFragment(form, key, payload) := fragments[0];
    var rest := KeyedBytes(serverSide, CONTINUATION, fragments[1..]);
    assert KeyedBytes(serverSide, CONTINUATION, fragments) + t
        == Frame(|fragments| == 1, CONTINUATION, form, key, payload) + (rest + t);
    FrameDecodes(serverSide, a, |fragments| == 1, CONTINUATION, form, key, payload, rest + t);
    if |fragments| == 1 {
      assert rest + t == t && OnWire(fragments) == Masked(payload, key);
    } else {
      var b := Assembly(a.firstOp, a.content + Masked(payload, key), KeyAfter(a.key, key), true);
      PrependNone(Decode(serverSide, b, rest + t));
      MarkedRestDecodes(serverSide, b, fragments[1..], t);
      assert b.content + OnWire(fragments[1..]) == a.content + OnWire(fragments);
    }
  }

  lemma RawFrameDecodes(serverSide: bool, first: byte, form: Form, key: Key, payload: seq<byte>, t: seq<byte>)
    requires Fits(form, |payload|) && (serverSide ==> key != []) && first / 16 % 4 == 0
    ensures var h := Header(first >= 128, first / 64 % 2 == 1, false, first % 16, key, |payload|, FormSize(form));
            var o := EndFrame(StartFrame(EMPTY, h), first >= 128, payload);
            Decode(serverSide, EMPTY, RawFrame(first, form, key, |payload|, payload) + t)
            == if o.status != Running then Decoded(o.events, o.assembly, [], o.status)
               else Prepend(o.events, Decode(serverSide, o.assembly, t))
  {
    var s := RawFrame(first, form, key, |payload|, payload) + t;
    hide RawFrame, ParseHeader, EndFrame, StartFrame;
    RawHeader(first, form, key, |payload|, payload, t);
    var h := ParseHeader(s).value;
    assert s[Prefix(h)..Total(h)] == (payload + t)[..|payload|] == payload;
    assert s[Total(h)..] == (payload + t)[|payload|..] == t;
    DecodeStep(serverSide, EMPTY, s);
  }

  lemma MarkedFinalDecodes(serverSide: bool, op: nat, form: Form, key: Key, raw: seq<byte>, t: seq<byte>)
    requires (op == TEXT || op == BINARY) && Fits(form, |raw|) && (serverSide ==> key != [])
    ensures Decode(serverSide, EMPTY, RawFrame(192 + op, form, key, |raw|, raw) + t)
            == Prepend([Message(op, Masked(raw, key), true)], Decode(serverSide, EMPTY, t))
  {
    hide Decode, RawFrame, Masked;
    RawFrameDecodes(serverSide, 192 + op, form, key, raw, t);
    assert EMPTY.content + raw == raw;
  }

  lemma MarkedFirstDecodes(serverSide: bool, op: nat, form: Form, key: Key, raw: seq<byte>, t: seq<byte>)
    requires (op == TEXT || op == BINARY) && Fits(form, |raw|) && (serverSide ==> key != [])
    ensures Decode(serverSide, EMPTY, RawFrame(64 + op, form, key, |raw|, raw) + t)
            == Decode(serverSide, Assembly(Some(op), raw, key, true), t)
  {
    hide Decode, RawFrame, Masked;
    RawFrameDecodes(serverSide, 64 + op, form, key, raw, t);
    assert EMPTY.content + raw == raw;
    PrependNone(Decode(serverSide, Assembly(Some(op), raw, key, true), t));
  }

  /** A text or binary message is handed over as compressed iff its first frame says so: with the mark it
      arrives, in any number of frames, exactly as it does without, but for the mark. */
  lemma MarkedMessageDecodes(serverSide: bool, op: nat, fragments: seq<KeyedFragment>, t: seq<byte>)
    requires (op == TEXT || op == BINARY) && fragments != [] && Sendable(serverSide, fragments)
    ensures Decode(serverSide, EMPTY, MarkedBytes(serverSide, op, fragments) + t)
            == Prepend([Message(op, Masked(OnWire(fragments), LastKey([], fragments)), true)], Decode(serverSide, EMPTY, t))
  {
    hide Decode, RawFrame, Masked, KeyedBytes, Prepend;
    var KeyedFragment(form, key, payload) := fragments[0];
    var rest := KeyedBytes(serverSide, CONTINUATION, fragments[1..]);
    var raw := Masked(payload, key);
    MaskedSize(payload, key);
    Regrouped(RawFrame((if |fragments| == 1 then 192 else 64) + op, form, key, |raw|, raw), rest, t);
    if |fragments| == 1 {
      MarkedFinalDecodes(serverSide, op, form, key, raw, rest + t);
      NoFrames(serverSide, t);
      assert OnWire(fragments) == raw;
    } else {
      MarkedFirstDecodes(serverSide, op, form, key, raw, rest + t);
      MarkedRestDecodes(serverSide, Assembly(Some(op), raw, key, true), fragments[1..], t);
      assert KeyAfter([], key) == key;
    }
  }

  lemma Regrouped<T>(a: seq<T>, b: seq<T>, c: seq<T>)
    ensures a + b + c == a + (b + c)
  {
  }

  lemma NoFrames(serverSide: bool, t: seq<byte>)
    ensures KeyedBytes(serverSide, CONTINUATION, []) + t == t
  {
  }

  /** A message that is interrupted by a control frame: its front, the control frame, and the rest. */
  datatype Interrupted = Interrupted(op: nat, front: seq<KeyedFragment>, controlOp: nat, control: KeyedFragment, back: seq<KeyedFragment>)

  predicate Interruption(serverSide: bool, i: Interrupted) {
    && (i.op == TEXT || i.op == BINARY) && i.controlOp < 16 && i.front != [] && i.back != []
    && Sendable(serverSide, i.front) && Sendable(serverSide, [i.control]) && Sendable(serverSide, i.back)
  }

  function InterruptedBytes(serverSide: bool, i: Interrupted): seq<byte>
    requires Interruption(serverSide, i)
  {
    ControlFits(serverSide, i.control);
    OpenBytes(serverSide, i.op, i.front)
    + (Frame(true, i.controlOp, i.control.form, i.control.key, i.control.payload) + KeyedBytes(serverSide, CONTINUATION, i.back))
  }

  lemma ControlFits(serverSide: bool, control: KeyedFragment)
    requires Sendable(serverSide, [control])
    ensures Fits(control.form, |control.payload|) && (serverSide ==> control.key != [])
  {
    assert [control][0] == control;
  }

  function InterruptedKey(i: Interrupted): Key { KeyAfter(LastKey([], i.front), i.control.key) }

  /** The control frame ends the message, whose front is dispatched with the control payload behind it, and
      what is left of the message ends the connection. */
  lemma InterruptedDecodes(serverSide: bool, i: Interrupted)
    requires Interruption(serverSide, i)
    ensures var d := Decode(serverSide, EMPTY, InterruptedBytes(serverSide, i));
            && d.events == [Message(i.op, Masked(OnWire(i.front) + Masked(i.control.payload, i.control.key), InterruptedKey(i)), false)]
            && d.status == Disconnected
  {
    hide Decode, Frame, Masked, KeyedBytes, OpenBytes;
    var Interrupted(op, front, controlOp, KeyedFragment(form, key, payload), back) := i;
    ControlFits(serverSide, i.control);
    var rest := KeyedBytes(serverSide, CONTINUATION, back);
    var a := Assembly(Some(op), OnWire(front), LastKey([], front), false);
    assert EMPTY.content + OnWire(front) == OnWire(front);
    OpenDecodes(serverSide, EMPTY, op, front, Frame(true, controlOp, form, key, payload) + rest);
    FinalFrameDecodes(serverSide, a, controlOp, form, key, payload, rest);
    assert rest + [] == rest;
    StrayDecodes(serverSide, EMPTY, CONTINUATION, back, []);
  }

  /** Such a message arrives all the same iff its front's keys line up with the last one and the control
      frame happens to hold, as it is unmasked, what is left of the message. */
  lemma InterruptedArrivesIff(serverSide: bool, i: Interrupted)
    requires Interruption(serverSide, i)
    ensures Message(i.op, Whole(i.front) + Whole(i.back), false) in Decode(serverSide, EMPTY, InterruptedBytes(serverSide, i)).events
            <==> && KeysLineUp(i.front, InterruptedKey(i), 0)
                 && MaskedLate(Masked(i.control.payload, i.control.key), InterruptedKey(i), |Whole(i.front)|) == Whole(i.back)
  {
    hide Decode, Masked, MaskedLate, KeysLineUp, InterruptedBytes, KeyAfter, LastKey;
    var wire, control, key := OnWire(i.front), Masked(i.control.payload, i.control.key), InterruptedKey(i);
    InterruptedDecodes(serverSide, i);
    MaskedLateIsMasked(wire + control, key);
    MaskedLateSplits(wire, control, key, 0);
    WireSize(i.front);
    MaskedLateSize(wire, key, 0);
    SamePieces(MaskedLate(wire, key, 0), MaskedLate(control, key, |wire|), Whole(i.front), Whole(i.back));
    UnmaskedIff(i.front, key, 0);
  }

  lemma {:induction false} WireSize(fragments: seq<KeyedFragment>)
    ensures |OnWire(fragments)| == |Whole(fragments)|
    decreases |fragments|
  {
    if fragments != [] {
      WireSize(fragments[1..]);
    }
  }

  // ---- the endpoint's encoders ------------------------------------------------------------------

  /** A size kept in 16 bits. */
  function Narrowed(size: nat): (n: nat)
    ensures n < TWO_TO_THE_16 && n <= size && (n == size <==> size < TWO_TO_THE_16)
  {
    size % TWO_TO_THE_16
  }

  /** The frame the endpoint sends: its length field holds the payload size narrowed to 16 bits. */
  function SentFrame(op: nat, key: Key, payload: seq<byte>): seq<byte>
    requires op < 16
  {
    var payloadSize := Narrowed(|payload|);
    [128 + op]
    + LengthField(if payloadSize <= 125 then Short else Medium, if key == [] then 0 else 128, payloadSize)
    + key + Masked(payload, key)
  }

  method PushHeader(op: nat, maskBit: nat, payloadSize: nat) returns (sendBuffer: seq<byte>)
    requires op < 16 && (maskBit == 0 || maskBit == 128) && payloadSize < TWO_TO_THE_16
    ensures sendBuffer == [128 + op] + LengthField(if payloadSize <= 125 then Short else Medium, maskBit, payloadSize)
  {
    sendBuffer := [128 + op];
    if payloadSize <= 125 {
      sendBuffer := sendBuffer + [maskBit + payloadSize];
    } else {
      sendBuffer := sendBuffer + [maskBit + 126];
      sendBuffer := sendBuffer + [payloadSize / 0x100];
      sendBuffer := sendBuffer + [payloadSize % 0x100];
    }
  }

  method ServerSendFramedPayload(op: nat, payload: seq<byte>) returns (sendBuffer: seq<byte>)
    requires op < 16
    ensures sendBuffer == SentFrame(op, [], payload)
  {
    sendBuffer := PushHeader(op, 0, Narrowed(|payload|));
    sendBuffer := sendBuffer + payload;
  }

  method ClientSendFramedPayload(op: nat, payload: seq<byte>, maskingKey: MaskingKey) returns (sendBuffer: seq<byte>)
    requires op < 16
    ensures sendBuffer == SentFrame(op, maskingKey, payload)
  {
    hide Masked, LengthField;
    sendBuffer := PushHeader(op, 128, Narrowed(|payload|));
    sendBuffer := sendBuffer + maskingKey;
    var maskOffset := |sendBuffer|;
    ghost var header := sendBuffer;
    sendBuffer := sendBuffer + payload;
    assert sendBuffer[..maskOffset] == header && sendBuffer[maskOffset..] == payload;
    sendBuffer := MaskFrom(sendBuffer, maskOffset, maskingKey);
    assert sendBuffer == sendBuffer[..maskOffset] + sendBuffer[maskOffset..];
  }

  /** Masks everything from an offset on. */
  method MaskFrom(buffer: seq<byte>, maskOffset: nat, maskingKey: MaskingKey) returns (masked: seq<byte>)
    requires maskOffset <= |buffer|
    ensures |masked| == |buffer| && masked[..maskOffset] == buffer[..maskOffset]
    ensures masked[maskOffset..] == Masked(buffer[maskOffset..], maskingKey)
  {
    hide XorByte;
    masked := buffer;
    var i := maskOffset;
    while i < |masked|
      invariant maskOffset <= i <= |masked| == |buffer|
      invariant forall k :: 0 <= k < |masked| ==>
                  masked[k] == if maskOffset <= k < i then XorByte(buffer[k], maskingKey[(k - maskOffset) % 4]) else buffer[k]
    {
      var payloadIndex := i - maskOffset;
      masked := masked[i := XorByte(masked[i], maskingKey[payloadIndex % 4])];
      i := i + 1;
    }
  }

  /** What was sent is a frame with the first `|payload| % 65536` bytes, followed by the others. */
  lemma SentFrameSplits(op: nat, key: Key, payload: seq<byte>)
    requires op < 16
    ensures var n := Narrowed(|payload|);
            SentFrame(op, key, payload)
            == Frame(true, op, if n <= 125 then Short else Medium, key, payload[..n]) + Masked(payload, key)[n..]
  {
    hide LengthField, XorByte;
    var n := Narrowed(|payload|);
    assert Masked(payload[..n], key) == Masked(payload, key)[..n];
    assert Masked(payload, key) == Masked(payload, key)[..n] + Masked(payload, key)[n..];
  }

  lemma SentFrameDecodes(serverSide: bool, op: nat, key: Key, payload: seq<byte>)
    requires Dispatched(op) && (serverSide ==> key != [])
    ensures var n := Narrowed(|payload|);
            Decode(serverSide, EMPTY, SentFrame(op, key, payload))
            == Prepend(Arrival(op, key, payload[..n]),
                       Decode(serverSide, EMPTY.(key := KeyLeft(op, key)), Masked(payload, key)[n..]))
  {
    hide Decode;
    var n := Narrowed(|payload|);
    SentFrameSplits(op, key, payload);
    WholeFrameDecodes(serverSide, op, if n <= 125 then Short else Medium, key, payload[..n], Masked(payload, key)[n..]);
  }

  lemma ShortSendDecodes(serverSide: bool, op: nat, key: Key, payload: seq<byte>)
    requires Dispatched(op) && (serverSide ==> key != [])
    requires |payload| < TWO_TO_THE_16
    ensures Decode(serverSide, EMPTY, SentFrame(op, key, payload))
            == Decoded(Arrival(op, key, payload), EMPTY.(key := KeyLeft(op, key)), [], Running)
  {
    hide Decode;
    var left := EMPTY.(key := KeyLeft(op, key));
    SentFrameDecodes(serverSide, op, key, payload);
    WholePayload(payload, key);
    DecodeNothing(serverSide, left);
    PrependStopped(Arrival(op, key, payload), Decoded([], left, [], Running));
  }

  lemma WholePayload(payload: seq<byte>, key: Key)
    ensures payload[..|payload|] == payload && Masked(payload, key)[|payload|..] == []
  {
  }

  lemma FirstOfPrepended(e: Event, d: Decoded, f: Event, rest: Decoded)
    requires d == Prepend([e], rest) && e != f
    ensures d != Decoded([f], EMPTY, [], Running)
  {
    assert d.events[0] == e;
  }

  /** The peer decodes what was sent to the message that was sent, with nothing left over, iff the
      payload is shorter than 65536 bytes. */
  lemma SendArrivesIff(serverSide: bool, op: nat, key: Key, payload: seq<byte>)
    requires (op == TEXT || op == BINARY) && (serverSide ==> key != [])
    ensures Decode(serverSide, EMPTY, SentFrame(op, key, payload)) == Decoded([Message(op, payload, false)], EMPTY, [], Running)
            <==> |payload| < TWO_TO_THE_16
  {
    hide Decode;
    if |payload| < TWO_TO_THE_16 {
      ShortSendDecodes(serverSide, op, key, payload);
    } else {
      var n := Narrowed(|payload|);
      SentFrameDecodes(serverSide, op, key, payload);
      FirstOfPrepended(Message(op, payload[..n], false), Decode(serverSide, EMPTY, SentFrame(op, key, payload)),
                       Message(op, payload, false), Decode(serverSide, EMPTY, Masked(payload, key)[n..]));
    }
  }

  /** A control frame from the masking client reaches the server's handler, and is echoed, still
      masked: the decoder unmasks text and binary messages only.  Its key stays behind. */
  lemma ClientControlStaysMasked(op: nat, key: MaskingKey, payload: seq<byte>)
    requires (op == PING || op == PONG) && |payload| < TWO_TO_THE_16
    ensures var d := Decode(true, EMPTY, SentFrame(op, key, payload));
            && d.events == (if op == PING then [SendPong(Masked(payload, key))] else []) + [Message(op, Masked(payload, key), false)]
            && d.assembly.key == key && d.status == Running
  {
    ShortSendDecodes(true, op, key, payload);
  }

  lemma MaskedUnchangedIff(payload: seq<byte>, key: MaskingKey)
    ensures Masked(payload, key) == payload <==> forall i :: 0 <= i < |payload| ==> key[i % 4] == 0
  {
    hide XorByte;
    forall i | 0 <= i < |payload|
      ensures Masked(payload, key)[i] == payload[i] <==> key[i % 4] == 0
    {
      XorByteUnchanged(payload[i], key[i % 4]);
    }
    if forall i :: 0 <= i < |payload| ==> key[i % 4] == 0 {
      assert forall i :: 0 <= i < |payload| ==> Masked(payload, key)[i] == payload[i];
    }
  }

  /** What the server should make of a control frame. */
  function ControlEvents(op: nat, payload: seq<byte>): seq<Event> {
    (if op == PING then [SendPong(payload)] else []) + [Message(op, payload, false)]
  }

  /** A control frame from the masking client arrives as sent iff it is shorter than 65536 bytes and the
      key is zero wherever it is used. */
  lemma ClientControlArrivesIff(op: nat, key: MaskingKey, payload: seq<byte>)
    requires op == PING || op == PONG
    ensures Decode(true, EMPTY, SentFrame(op, key, payload)) == Decoded(ControlEvents(op, payload), EMPTY.(key := key), [], Running)
            <==> |payload| < TWO_TO_THE_16 && forall i :: 0 <= i < |payload| ==> key[i % 4] == 0
  {
    hide Decode, Masked;
    if |payload| < TWO_TO_THE_16 {
      ShortSendDecodes(true, op, key, payload);
      MaskedUnchangedIff(payload, key);
      ControlEventsDiffer(op, Masked(payload, key), payload);
    } else {
      var n := Narrowed(|payload|);
      SentFrameDecodes(true, op, key, payload);
      MaskedSize(payload[..n], key);
      var d := Decode(true, EMPTY, SentFrame(op, key, payload));
      assert d.events[0] == Arrival(op, key, payload[..n])[0];
      assert d.events[0] != ControlEvents(op, payload)[0];
    }
  }

  lemma ControlEventsDiffer(op: nat, a: seq<byte>, b: seq<byte>)
    ensures ControlEvents(op, a) == ControlEvents(op, b) <==> a == b
  {
    var last := |ControlEvents(op, a)| - 1;
    assert ControlEvents(op, a)[last] == Message(op, a, false);
    assert ControlEvents(op, b)[last] == Message(op, b, false);
  }
}
