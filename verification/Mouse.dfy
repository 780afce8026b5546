/** The PS/2 mouse packet decoder of src/kb.c: a byte-driven state machine with clamped accumulation. */
module Mouse {
  import opened Types

  const SCROLLWHEEL: u8 := 1
  const BUTTONS: u8 := 2
  const MAX_X := 600
  const MAX_Y := 400
  const LEFT_CLICK: u16 := 1
  const RIGHT_CLICK: u16 := 2
  const MIDDLE_CLICK: u16 := 4
  const SCROLL_DOWN: u16 := 8

  datatype Packet = Packet(dx: i16, dy: i16, buttons: u16)

  /** Bit `k` of a byte, the bit being given by its weight. */
  predicate Bit(b: u8, weight: u8)
    requires weight > 0
  {
    b / weight % 2 == 1
  }

  function Clamp(x: int, low: int, high: int): int
    requires low <= high
  {
    var m := if x < low then low else x;
    if m < high then m else high
  }

  // ---- the decoder as a value

  datatype Bytes = Bytes(b0: u8, b1: u8, b2: u8, b3: u8)

  /** Four-byte packets end after the byte at cycle 3, the others after the one at cycle 2. */
  function LastCycle(mode: u8): nat {
    if mode == SCROLLWHEEL || mode == BUTTONS then 3 else 2
  }

  predicate Overflowed(b: Bytes) {
    Bit(b.b0, 0x80) || Bit(b.b0, 0x40)
  }

  /** The packet in the byte buffer; scrolling sets one bit whatever its direction, since the byte it is
      taken from is unsigned. */
  function Decode(mode: u8, b: Bytes): Packet {
    Packet(b.b1 - (if Bit(b.b0, 0x10) then 0x100 else 0),
           -(b.b2 - (if Bit(b.b0, 0x20) then 0x100 else 0)),
           ButtonBits(mode, b))
  }

  function ButtonBits(mode: u8, b: Bytes): u16 {
    (if Bit(b.b0, 1) then LEFT_CLICK else 0) + (if Bit(b.b0, 2) then RIGHT_CLICK else 0)
    + (if Bit(b.b0, 4) then MIDDLE_CLICK else 0)
    + (if mode == SCROLLWHEEL && b.b3 > 0 then SCROLL_DOWN else 0)
  }

  /** Position in the packet, the bytes so far, and the packets emitted. */
  datatype State = State(cycle: nat, bytes: Bytes, packets: seq<Packet>)

  function Store(b: Bytes, cycle: nat, input: u8): Bytes {
    match cycle
    case 0 => b.(b0 := input)
    case 1 => b.(b1 := input)
    case 2 => b.(b2 := input)
    case _ => b.(b3 := input)
  }

  function Step(mode: u8, s: State, input: u8): State
  {
    var bytes := Store(s.bytes, s.cycle, input);
    if s.cycle == 0 && !Bit(input, 8) then s.(bytes := bytes)
    else if s.cycle < LastCycle(mode) then s.(cycle := s.cycle + 1, bytes := bytes)
    else if Overflowed(bytes) then s.(cycle := 0, bytes := bytes)
    else State(0, bytes, s.packets + [Decode(mode, bytes)])
  }

  function Feed(mode: u8, s: State, input: seq<u8>): State {
    if input == [] then s else Step(mode, Feed(mode, s, input[..|input| - 1]), input[|input| - 1])
  }

  /** The pointer after a list of packets: clamped addition from the left. */
  function Position(packets: seq<Packet>): (p: (int, int))
    ensures 0 <= p.0 <= MAX_X && 0 <= p.1 <= MAX_Y
  {
    if packets == [] then (0, 0)
    else
      var p := Position(packets[..|packets| - 1]);
      var last := packets[|packets| - 1];
      (Clamp(p.0 + last.dx, 0, MAX_X), Clamp(p.1 + last.dy, 0, MAX_Y))
  }

  lemma PositionNext(packets: seq<Packet>, p: Packet)
    ensures Position(packets + [p]) ==
      (Clamp(Position(packets).0 + p.dx, 0, MAX_X), Clamp(Position(packets).1 + p.dy, 0, MAX_Y))
  {
    assert (packets + [p])[..|packets + [p]| - 1] == packets;
  }

  /** A packet moves each coordinate by its delta, as far as the edge of the box. */
  lemma PositionMoves(packets: seq<Packet>, p: Packet)
    ensures Position([]) == (0, 0)
    ensures var before, after := Position(packets), Position(packets + [p]);
      && after.0 == (if before.0 + p.dx < 0 then 0 else if before.0 + p.dx > 600 then 600 else before.0 + p.dx)
      && after.1 == (if before.1 + p.dy < 0 then 0 else if before.1 + p.dy > 400 then 400 else before.1 + p.dy)
  {
    PositionNext(packets, p);
  }

  /** As long as the running sums `xs` and `ys` of the deltas stay inside the box, the pointer is at them. */
  lemma {:induction false} PositionIsSum(packets: seq<Packet>, xs: seq<int>, ys: seq<int>)
    requires |xs| == |ys| == |packets| + 1 && xs[0] == ys[0] == 0
    requires forall i :: 0 <= i < |packets| ==> xs[i + 1] == xs[i] + packets[i].dx && ys[i + 1] == ys[i] + packets[i].dy
    requires forall i :: 0 <= i <= |packets| ==> 0 <= xs[i] <= 600 && 0 <= ys[i] <= 400
    ensures Position(packets) == (xs[|packets|], ys[|packets|])
  {
    if packets != [] {
      var n := |packets| - 1;
      PositionIsSum(packets[..n], xs[..n + 1], ys[..n + 1]);
      PositionMoves(packets[..n], packets[n]);
      assert packets == packets[..n] + [packets[n]];
    }
  }

  function LastButtons(packets: seq<Packet>): u16 {
    if packets == [] then 0 else packets[|packets| - 1].buttons
  }

  /** A 256-slot buffer holds packet number `i` at slot `i % 256`, for the 256 most recent packets. */
  ghost predicate Holds(buffer: seq<Packet>, packets: seq<Packet>)
    requires |buffer| == 256
  {
    forall i :: 0 <= i < |packets| && |packets| - 256 <= i ==> buffer[i % 256] == packets[i]
  }

  lemma HoldsNext(buffer: seq<Packet>, packets: seq<Packet>, p: Packet)
    requires |buffer| == 256 && Holds(buffer, packets)
    ensures Holds(buffer[|packets| % 256 := p], packets + [p])
  {
    var n := |packets|;
    forall i | 0 <= i < n && n + 1 - 256 <= i
      ensures i % 256 != n % 256
    {
    }
  }

  class Decoder {
    const mousePackets: array<Packet>
    var mousePacketsLast: u8
    var mouseMode: u8
    var mouseCycle: u8
    var mouseX: i32
    var mouseY: i32
    var mouseButtons: u16
    const mouseByte: array<u8>
    ghost var emitted: seq<Packet>

    /** The invariant over any byte stream: the cycle stays inside the packet, the pointer is the clamped
        sum of all emitted deltas, and the buffer holds the most recent packets. */
    ghost predicate Valid()
      reads this, mousePackets, mouseByte
    {
      && mousePackets.Length == 256 && mouseByte.Length == 5
      && mouseCycle <= LastCycle(mouseMode)
      && (mouseX, mouseY) == Position(emitted) && mouseButtons == LastButtons(emitted)
      && mousePacketsLast == |emitted| % 256 && Holds(mousePackets[..], emitted)
    }

    ghost function View(): State
      requires mouseByte.Length == 5
      reads this, mouseByte
    {
      State(mouseCycle, Bytes(mouseByte[0], mouseByte[1], mouseByte[2], mouseByte[3]), emitted)
    }

    constructor (mode: u8)
      ensures Valid() && mouseMode == mode && View() == State(0, Bytes(0, 0, 0, 0), [])
      ensures fresh(mousePackets) && fresh(mouseByte)
    {
      mousePackets := new Packet[256](_ => Packet(0, 0, 0));
      mouseByte := new u8[5](_ => 0);
      mousePacketsLast, mouseMode, mouseCycle, mouseX, mouseY, mouseButtons := 0, mode, 0, 0, 0, 0;
      emitted := [];
    }

    method AddPacket(packet: Packet)
      requires mousePackets.Length == 256 && mousePacketsLast == |emitted| % 256
      requires Holds(mousePackets[..], emitted)
      modifies this`mousePacketsLast, this`emitted, mousePackets
      ensures emitted == old(emitted) + [packet] && mousePacketsLast == |emitted| % 256
      ensures mousePackets[..] == old(mousePackets[..])[old(mousePacketsLast) := packet]
      ensures Holds(mousePackets[..], emitted)
    {
      HoldsNext(mousePackets[..], emitted, packet);
      mousePackets[mousePacketsLast] := packet;
      mousePacketsLast := (mousePacketsLast + 1) % 256;
      emitted := emitted + [packet];
    }

    /** `mouse_handler` for one byte read from the port. */
    method MouseHandler(mouseIn: u8)
      requires Valid()
      modifies this, mousePackets, mouseByte
      ensures Valid() && mouseMode == old(mouseMode) && View() == Step(mouseMode, old(View()), mouseIn)
      ensures emitted == old(emitted) || |emitted| == |old(emitted)| + 1
      ensures emitted == old(emitted) ==>
        mouseX == old(mouseX) && mouseY == old(mouseY) && mouseButtons == old(mouseButtons)
      ensures |emitted| == |old(emitted)| + 1 ==>
        mouseButtons == emitted[|emitted| - 1].buttons && mousePackets[|old(emitted)| % 256] == emitted[|emitted| - 1]
      ensures |emitted| == |old(emitted)| + 1 ==>
        var x, y := old(mouseX) + emitted[|emitted| - 1].dx, old(mouseY) + emitted[|emitted| - 1].dy;
        && mouseX == (if x < 0 then 0 else if x > 600 then 600 else x)
        && mouseY == (if y < 0 then 0 else if y > 400 then 400 else y)
    {
      hide Holds;
      if mouseCycle == 0 {
        mouseByte[0] := mouseIn;
        if !Bit(mouseIn, 0x08) {
          return;
        }
        mouseCycle := mouseCycle + 1;
        return;
      } else if mouseCycle == 1 {
        mouseByte[1] := mouseIn;
        mouseCycle := mouseCycle + 1;
        return;
      } else if mouseCycle == 2 {
        mouseByte[2] := mouseIn;
        if mouseMode == SCROLLWHEEL || mouseMode == BUTTONS {
          mouseCycle := mouseCycle + 1;
          return;
        }
      } else {
        mouseByte[3] := mouseIn;
      }
      FinishPacket();
    }

    method ReadButtons() returns (buttons: u16)
      requires mouseByte.Length == 5
      ensures buttons == ButtonBits(mouseMode, Bytes(mouseByte[0], mouseByte[1], mouseByte[2], mouseByte[3]))
    {
      hide Bit;
      buttons := 0;
      if Bit(mouseByte[0], 0x01) {
        buttons := buttons + LEFT_CLICK;
      }
      if Bit(mouseByte[0], 0x02) {
        buttons := buttons + RIGHT_CLICK;
      }
      if Bit(mouseByte[0], 0x04) {
        buttons := buttons + MIDDLE_CLICK;
      }
      if mouseMode == SCROLLWHEEL && mouseByte[3] != 0 {
        if mouseByte[3] > 0 {
          buttons := buttons + SCROLL_DOWN;
        }
      }
    }

    method FinishPacket()
      requires Valid()
      modifies this, mousePackets
      ensures Valid() && mouseMode == old(mouseMode) && mouseCycle == 0
      ensures var b := Bytes(mouseByte[0], mouseByte[1], mouseByte[2], mouseByte[3]);
        emitted == old(emitted) + if Overflowed(b) then [] else [Decode(mouseMode, b)]
      ensures emitted == old(emitted) ==>
        mouseX == old(mouseX) && mouseY == old(mouseY) && mouseButtons == old(mouseButtons)
      ensures emitted != old(emitted) ==>
        |emitted| == |old(emitted)| + 1 && mouseButtons == emitted[|emitted| - 1].buttons &&
        mousePackets[|old(emitted)| % 256] == emitted[|emitted| - 1]
      ensures emitted != old(emitted) ==>
        |emitted| == |old(emitted)| + 1 &&
        var x, y := old(mouseX) + emitted[|emitted| - 1].dx, old(mouseY) + emitted[|emitted| - 1].dy;
        && mouseX == (if x < 0 then 0 else if x > 600 then 600 else x)
        && mouseY == (if y < 0 then 0 else if y > 400 then 400 else y)
    {
      hide Holds, Bit, Clamp, Position, ButtonBits;
      mouseCycle := 0;
      var state := mouseByte[0];
      if Bit(state, 0x80) || Bit(state, 0x40) {
        return;
      }
      var dx: i16 := (mouseByte[1] as int) - (if Bit(state, 0x10) then 0x100 else 0);
      var dy: i16 := -((mouseByte[2] as int) - (if Bit(state, 0x20) then 0x100 else 0));
      var buttons := ReadButtons();
      PositionNext(emitted, Packet(dx, dy, buttons));
      PositionMoves(emitted, Packet(dx, dy, buttons));
      mouseX := Clamp(mouseX + dx, 0, MAX_X);
      mouseY := Clamp(mouseY + dy, 0, MAX_Y);
      mouseButtons := buttons;
      AddPacket(Packet(dx, dy, buttons));
    }
  }

  // ---- decoding inverts encoding

  /** One report of the device: 9-bit displacements, three buttons, whether an overflow bit is set, and the
      fourth byte that the wheel and button modes add. */
  datatype Report = Report(dx: int, dy: int, left: bool, right: bool, middle: bool, overX: bool, overY: bool,
                           extra: u8)

  predicate ValidReport(r: Report) {
    -256 <= r.dx < 256 && -256 <= r.dy < 256
  }

  function Flag(b: bool, weight: nat): nat {
    if b then weight else 0
  }

  function FirstByte(r: Report): u8 {
    8 + Flag(r.left, 1) + Flag(r.right, 2) + Flag(r.middle, 4) + Flag(r.dx < 0, 0x10) + Flag(r.dy < 0, 0x20)
      + Flag(r.overX, 0x40) + Flag(r.overY, 0x80)
  }

  function Encode(mode: u8, r: Report): seq<u8>
    requires ValidReport(r)
  {
    [FirstByte(r), r.dx % 0x100, r.dy % 0x100] + (if LastCycle(mode) == 3 then [r.extra] else [])
  }

  /** What the decoder is to make of a report: y grows downwards on the screen, overflows are dropped, and
      any turn of the wheel counts as downwards. */
  function Meaning(mode: u8, r: Report): seq<Packet>
    requires ValidReport(r)
  {
    if r.overX || r.overY then []
    else [Packet(r.dx, -r.dy, Flag(r.left, 1) + Flag(r.right, 2) + Flag(r.middle, 4)
                              + Flag(mode == SCROLLWHEEL && r.extra != 0, 8))]
  }

  /** What arrives: reports, with stray bytes lacking bit 3 in front of each. */
  datatype Chunk = Chunk(noise: seq<u8>, report: Report)

  ghost predicate ValidChunk(c: Chunk) {
    ValidReport(c.report) && forall i :: 0 <= i < |c.noise| ==> !Bit(c.noise[i], 8)
  }

  ghost predicate ValidChunks(cs: seq<Chunk>) {
    forall i :: 0 <= i < |cs| ==> ValidChunk(cs[i])
  }

  function Stream(mode: u8, cs: seq<Chunk>): seq<u8>
    requires ValidChunks(cs)
  {
    if cs == [] then [] else Stream(mode, cs[..|cs| - 1]) + cs[|cs| - 1].noise + Encode(mode, cs[|cs| - 1].report)
  }

  function Meanings(mode: u8, cs: seq<Chunk>): seq<Packet>
    requires ValidChunks(cs)
  {
    if cs == [] then [] else Meanings(mode, cs[..|cs| - 1]) + Meaning(mode, cs[|cs| - 1].report)
  }

  lemma {:induction false} FeedAppend(mode: u8, s: State, a: seq<u8>, b: seq<u8>)
    ensures Feed(mode, s, a + b) == Feed(mode, Feed(mode, s, a), b)
  {
    if b == [] {
      assert a + b == a;
    } else {
      FeedAppend(mode, s, a, b[..|b| - 1]);
      assert (a + b)[..|a + b| - 1] == a + b[..|b| - 1];
    }
  }

  /** Over any byte stream the cycle stays inside the packet, and no packet is ever taken back. */
  lemma {:induction false} FeedInRange(mode: u8, s: State, input: seq<u8>)
    requires s.cycle <= LastCycle(mode)
    ensures Feed(mode, s, input).cycle <= LastCycle(mode)
    ensures s.packets <= Feed(mode, s, input).packets
  {
    if input != [] {
      FeedInRange(mode, s, input[..|input| - 1]);
    }
  }

  /** Between packets, bytes without bit 3 leave no trace but in the first slot of the byte buffer. */
  lemma {:induction false} NoiseIsIgnored(mode: u8, s: State, noise: seq<u8>)
    requires s.cycle == 0 && forall i :: 0 <= i < |noise| ==> noise[i] / 8 % 2 == 0
    ensures var r := Feed(mode, s, noise); r.cycle == 0 && r.packets == s.packets
  {
    if noise != [] {
      NoiseIsIgnored(mode, s, noise[..|noise| - 1]);
    }
  }

  /** Four bits are read back from their weighted sum. */
  lemma FourBits(a: bool, b: bool, c: bool, d: bool)
    ensures var n := Flag(a, 1) + Flag(b, 2) + Flag(c, 4) + Flag(d, 8);
      n < 16 && (Bit(n, 1) <==> a) && (Bit(n, 2) <==> b) && (Bit(n, 4) <==> c) && (Bit(n, 8) <==> d)
  {
  }

  lemma LowNibble(low: nat, high: nat)
    requires low < 16 && high < 16
    ensures var b := low + 16 * high;
      && Bit(b, 1) == Bit(low, 1) && Bit(b, 2) == Bit(low, 2) && Bit(b, 4) == Bit(low, 4) && Bit(b, 8) == Bit(low, 8)
  {
    var b := low + 16 * high;
    DivModUnique(b, 2, low / 2 + 8 * high, low % 2);
    DivModUnique(b, 4, low / 4 + 4 * high, low % 4);
    DivModUnique(b, 8, low / 8 + 2 * high, low % 8);
    PlusEven(low, 8 * high);
    PlusEven(low / 2, 4 * high);
    PlusEven(low / 4, 2 * high);
    PlusEven(low / 8, high);
  }

  lemma PlusEven(x: nat, y: nat)
    ensures (x + 2 * y) % 2 == x % 2
  {
  }

  lemma HighNibble(low: nat, high: nat)
    requires low < 16 && high < 16
    ensures var b := low + 16 * high;
      && Bit(b, 0x10) == Bit(high, 1) && Bit(b, 0x20) == Bit(high, 2)
      && Bit(b, 0x40) == Bit(high, 4) && Bit(b, 0x80) == Bit(high, 8)
  {
    var b := low + 16 * high;
    DivModUnique(b, 0x10, high, low);
    DivModUnique(b, 0x20, high / 2, low + 16 * (high % 2));
    DivModUnique(b, 0x40, high / 4, low + 16 * (high % 4));
    DivModUnique(b, 0x80, high / 8, low + 16 * (high % 8));
  }

  lemma EncodedBits(r: Report)
    ensures var b := FirstByte(r);
      && (Bit(b, 1) <==> r.left) && (Bit(b, 2) <==> r.right) && (Bit(b, 4) <==> r.middle) && Bit(b, 8)
      && (Bit(b, 0x10) <==> r.dx < 0) && (Bit(b, 0x20) <==> r.dy < 0)
      && (Bit(b, 0x40) <==> r.overX) && (Bit(b, 0x80) <==> r.overY)
  {
    hide Bit;
    FourBits(r.left, r.right, r.middle, true);
    FourBits(r.dx < 0, r.dy < 0, r.overX, r.overY);
    var low := Flag(r.left, 1) + Flag(r.right, 2) + Flag(r.middle, 4) + Flag(true, 8);
    var high := Flag(r.dx < 0, 1) + Flag(r.dy < 0, 2) + Flag(r.overX, 4) + Flag(r.overY, 8);
    LowNibble(low, high);
    HighNibble(low, high);
    assert FirstByte(r) == low + 16 * high;
  }

  lemma FeedOne(mode: u8, s: State, a: u8)
    ensures Feed(mode, s, [a]) == Step(mode, s, a)
  {
    assert [a][..0] == [];
  }

  lemma FeedThree(mode: u8, s: State, a: u8, b: u8, c: u8)
    ensures Feed(mode, s, [a, b, c]) == Step(mode, Step(mode, Step(mode, s, a), b), c)
  {
    FeedOne(mode, s, a);
    FeedAppend(mode, s, [a], [b]);
    FeedOne(mode, Step(mode, s, a), b);
    FeedAppend(mode, s, [a] + [b], [c]);
    FeedOne(mode, Step(mode, Step(mode, s, a), b), c);
    assert [a] + [b] + [c] == [a, b, c];
  }

  /** The first three bytes of a report, up to the point where the packet may be complete. */
  lemma HeadArrives(mode: u8, s: State, a: u8, b: u8, c: u8)
    requires s.cycle == 0 && Bit(a, 8)
    ensures Feed(mode, s, [a, b, c]) == Step(mode, State(2, Bytes(a, b, s.bytes.b2, s.bytes.b3), s.packets), c)
  {
    hide Bit;
    FeedThree(mode, s, a, b, c);
  }

  /** The bytes of a report leave the decoder between packets, with the buffered packet decoded. */
  lemma ReportArrives(mode: u8, s: State, r: Report)
    requires s.cycle == 0 && ValidReport(r)
    ensures var bytes := Bytes(FirstByte(r), r.dx % 0x100, r.dy % 0x100,
                               if LastCycle(mode) == 3 then r.extra else s.bytes.b3);
      Feed(mode, s, Encode(mode, r)) ==
        State(0, bytes, s.packets + if Overflowed(bytes) then [] else [Decode(mode, bytes)])
  {
    hide Bit, Decode, FirstByte;
    var a, b, c, d := FirstByte(r), r.dx % 0x100, r.dy % 0x100, r.extra;
    EncodedBits(r);
    HeadArrives(mode, s, a, b, c);
    if LastCycle(mode) == 3 {
      FeedAppend(mode, s, [a, b, c], [d]);
      FeedOne(mode, Feed(mode, s, [a, b, c]), d);
    } else {
      assert Encode(mode, r) == [a, b, c];
    }
  }

  lemma ReportDecodes(mode: u8, s: State, r: Report)
    requires s.cycle == 0 && ValidReport(r)
    ensures var t := Feed(mode, s, Encode(mode, r)); t.cycle == 0 && t.packets == s.packets + Meaning(mode, r)
  {
    hide Bit, FirstByte, Encode, Feed;
    ReportArrives(mode, s, r);
    EncodedBits(r);
  }

  /** One report, byte by byte: bit 0 to bit 2 of the first byte are the buttons, bit 4 and bit 5 the signs of
      the two displacements, bit 6 and bit 7 their overflows. */
  lemma BytesToPacket(mode: u8, s: State, left: bool, right: bool, middle: bool, xNegative: bool, yNegative: bool,
                      overX: bool, overY: bool, x: u8, y: u8, extra: u8)
    requires s.cycle == 0
    ensures var first := 8 + (if left then 1 else 0) + (if right then 2 else 0) + (if middle then 4 else 0)
                         + (if xNegative then 0x10 else 0) + (if yNegative then 0x20 else 0)
                         + (if overX then 0x40 else 0) + (if overY then 0x80 else 0);
      var packet := Packet(if xNegative then x - 256 else x, -(if yNegative then y - 256 else y),
                           (if left then 1 else 0) + (if right then 2 else 0) + (if middle then 4 else 0)
                           + (if mode == 1 && extra != 0 then 8 else 0));
      Feed(mode, s, [first, x, y] + if mode == 1 || mode == 2 then [extra] else []).packets ==
        s.packets + if overX || overY then [] else [packet]
  {
    hide Feed;
    var r := Report(if xNegative then x - 256 else x, if yNegative then y - 256 else y, left, right, middle, overX, overY,
                    extra);
    ReportDecodes(mode, s, r);
    assert r.dx % 0x100 == x && r.dy % 0x100 == y;
  }

  /** Main result: in every mode the decoder turns any stream of reports, with stray bytes in between, into
      exactly the packets meant, in order; overflowing reports are dropped without losing framing. */
  lemma {:induction false} DecodingInvertsEncoding(mode: u8, s: State, cs: seq<Chunk>)
    requires s.cycle == 0 && ValidChunks(cs)
    ensures var t := Feed(mode, s, Stream(mode, cs)); t.cycle == 0 && t.packets == s.packets + Meanings(mode, cs)
  {
    if cs != [] {
      hide ValidReport, Encode, Meaning, Step;
      var most, last := cs[..|cs| - 1], cs[|cs| - 1];
      assert ValidChunk(last);
      DecodingInvertsEncoding(mode, s, most);
      var before := Stream(mode, most);
      var t := Feed(mode, s, before);
      FeedAppend(mode, s, before, last.noise);
      NoiseIsIgnored(mode, t, last.noise);
      FeedAppend(mode, s, before + last.noise, Encode(mode, last.report));
      ReportDecodes(mode, Feed(mode, t, last.noise), last.report);
      assert s.packets + Meanings(mode, most) + Meaning(mode, last.report) == s.packets + Meanings(mode, cs);
    }
  }
}
