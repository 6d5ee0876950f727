/** The bus master's use of the wire (src/lib.rs:51-223): drive-low, release and sample
    primitives, fixed-time slots, LSB-first byte framing and ROM addressing.

    The line is a value `Line(world, trace)`. `world` is whatever sits on the other end of
    the wire (pull-up resistor and devices), advanced by a `Responder` on every event the
    master causes; `trace` records those events in order. Every operation of the driver
    is a function from a line to its result and the line after it; the `OneWire` class
    runs the same steps imperatively and is proved to agree with these functions. */
module Wire {
  import opened Errors
  import opened Addresses
  import opened Commands

  /** What the master does to the line: pull it low, let it go, wait, or read its level. */
  datatype Event = DriveLow | Release | Wait(micros: nat) | Sample(high: bool)

  /** The other end of the wire: how it reacts to each event, and the level it shows.
      Sampling does not disturb it. */
  datatype Responder<!W> = Responder(react: (W, Event) -> W, sense: W -> bool)

  /** The state of the wire and the events so far. */
  datatype Line<W> = Line(world: W, trace: seq<Event>)

  /** `READ_SLOT_DURATION_MICROS`: every bit slot, read or write, lasts 70 µs. */
  const READ_SLOT_DURATION_MICROS: nat := 70

  /** `wait_for_high` polls the line at most this many times, 2 µs apart. */
  const HIGH_POLLS: nat := 125

  /** A device reads a write slot 15 µs after the falling edge: a pulse shorter than
      that has ended by then and reads as 1. */
  const DEVICE_SAMPLE_MICROS: nat := 15

  // ----- primitives -------------------------------------------------------------------

  function Emit<W>(bus: Responder<W>, l: Line<W>, e: Event): Line<W> {
    Line(bus.react(l.world, e), l.trace + [e])
  }

  /** `set_bus_low`. */
  function SetBusLow<W>(bus: Responder<W>, l: Line<W>): Line<W> {
    Emit(bus, l, DriveLow)
  }

  /** `release_bus`. */
  function ReleaseBus<W>(bus: Responder<W>, l: Line<W>): Line<W> {
    Emit(bus, l, Release)
  }

  /** `delay.delay_us(us)`. */
  function Delay<W>(bus: Responder<W>, l: Line<W>, us: nat): Line<W> {
    Emit(bus, l, Wait(us))
  }

  /** `is_bus_high`: the level the other end shows, recorded in the trace. */
  function IsBusHigh<W>(bus: Responder<W>, l: Line<W>): (bool, Line<W>) {
    var high := bus.sense(l.world);
    (high, Line(l.world, l.trace + [Sample(high)]))
  }

  /** `is_bus_low`. */
  function IsBusLow<W>(bus: Responder<W>, l: Line<W>): (bool, Line<W>) {
    var (high, l') := IsBusHigh(bus, l);
    (!high, l')
  }

  // ----- reset and bit slots ----------------------------------------------------------

  /** The loop of `wait_for_high` with `remaining` turns left: stop at the first high sample. */
  function Poll<W>(bus: Responder<W>, l: Line<W>, remaining: nat): (bool, Line<W>)
    decreases remaining
  {
    if remaining == 0 then (false, l)
    else
      var (high, l1) := IsBusHigh(bus, l);
      if high then (true, l1) else Poll(bus, Delay(bus, l1, 2), remaining - 1)
  }

  /** `wait_for_high`. */
  function WaitForHigh<W>(bus: Responder<W>, l: Line<W>): (Result<()>, Line<W>) {
    var (high, l1) := Poll(bus, l, HIGH_POLLS);
    (if high then Ok(()) else Err(BusNotHigh), l1)
  }

  /** `reset`: wait for an idle line, pull it low for 480 µs, release, and after 70 µs
      report whether a device holds it low (a presence pulse); then wait out the slot. */
  function Reset<W>(bus: Responder<W>, l: Line<W>): (Result<bool>, Line<W>) {
    var (idle, l1) := WaitForHigh(bus, l);
    if idle.Err? then (Err(idle.error), l1)
    else
      var l2 := Delay(bus, SetBusLow(bus, l1), 480);
      var l3 := Delay(bus, ReleaseBus(bus, l2), 70);
      var (present, l4) := IsBusLow(bus, l3);
      (Ok(present), Delay(bus, l4, 410))
  }

  /** `read_bit`. */
  function ReadBit<W>(bus: Responder<W>, l: Line<W>): (bool, Line<W>) {
    var l1 := Delay(bus, SetBusLow(bus, l), 6);
    var l2 := Delay(bus, ReleaseBus(bus, l1), 9);
    var (high, l3) := IsBusHigh(bus, l2);
    (high, Delay(bus, l3, 55))
  }

  /** `write_1_bit`. */
  function Write1Bit<W>(bus: Responder<W>, l: Line<W>): Line<W> {
    Delay(bus, ReleaseBus(bus, Delay(bus, SetBusLow(bus, l), 6)), 64)
  }

  /** `write_0_bit`. */
  function Write0Bit<W>(bus: Responder<W>, l: Line<W>): Line<W> {
    Delay(bus, ReleaseBus(bus, Delay(bus, SetBusLow(bus, l), 60)), 10)
  }

  /** `write_bit`. */
  function WriteBit<W>(bus: Responder<W>, l: Line<W>, value: bool): Line<W> {
    if value then Write1Bit(bus, l) else Write0Bit(bus, l)
  }

  // ----- bytes ------------------------------------------------------------------------

  /** One turn of `read_byte`'s accumulator: shift right, then put the bit read on top. */
  function Shift(acc: bv8, high: bool): bv8 {
    if high then (acc >> 1) | 0x80 else acc >> 1
  }

  /** The loop of `read_byte` from accumulator `acc` with `remaining` turns left. */
  function ReadBits<W>(bus: Responder<W>, l: Line<W>, acc: bv8, remaining: nat): (bv8, Line<W>)
    decreases remaining
  {
    if remaining == 0 then (acc, l)
    else
      var (high, l1) := ReadBit(bus, l);
      ReadBits(bus, l1, Shift(acc, high), remaining - 1)
  }

  /** `read_byte`. */
  function ReadByte<W>(bus: Responder<W>, l: Line<W>): (bv8, Line<W>) {
    ReadBits(bus, l, 0, 8)
  }

  /** The loop of `write_byte` on the remaining value with `remaining` turns left. */
  function WriteBits<W>(bus: Responder<W>, l: Line<W>, value: bv8, remaining: nat): Line<W>
    decreases remaining
  {
    if remaining == 0 then l
    else WriteBits(bus, WriteBit(bus, l, value & 0x01 == 0x01), value >> 1, remaining - 1)
  }

  /** `write_byte`. */
  function WriteByte<W>(bus: Responder<W>, l: Line<W>, value: bv8): Line<W> {
    WriteBits(bus, l, value, 8)
  }

  /** `read_bytes` into a slice of length `n`: the bytes in index order. */
  function ReadBytes<W>(bus: Responder<W>, l: Line<W>, n: nat): (r: (seq<bv8>, Line<W>))
    ensures |r.0| == n
    decreases n
  {
    if n == 0 then ([], l)
    else
      var (front, l1) := ReadBytes(bus, l, n - 1);
      var (last, l2) := ReadByte(bus, l1);
      (front + [last], l2)
  }

  /** `write_bytes`: the bytes in index order. */
  function WriteBytes<W>(bus: Responder<W>, l: Line<W>, bytes: seq<bv8>): Line<W>
    decreases |bytes|
  {
    if |bytes| == 0 then l
    else WriteByte(bus, WriteBytes(bus, l, bytes[..|bytes| - 1]), bytes[|bytes| - 1])
  }

  // ----- addressing -------------------------------------------------------------------

  /** `match_address`: MATCH_ROM, then the address bytes least-significant first. */
  function MatchAddress<W>(bus: Responder<W>, l: Line<W>, address: Address): Line<W> {
    WriteBytes(bus, WriteByte(bus, l, MATCH_ROM), LeBytes(address.raw))
  }

  /** `skip_address`: SKIP_ROM alone. */
  function SkipAddress<W>(bus: Responder<W>, l: Line<W>): Line<W> {
    WriteByte(bus, l, SKIP_ROM)
  }

  /** `send_command`: reset, select one device or all of them, then the command byte.
      Only a failed reset stops it; whether a device answered the reset is not looked at. */
  function SendCommand<W>(bus: Responder<W>, l: Line<W>, command: bv8, address: Option<Address>)
    : (Result<()>, Line<W>)
  {
    var (reset, l1) := Reset(bus, l);
    if reset.Err? then (Err(reset.error), l1)
    else
      var l2 := if address.Some? then MatchAddress(bus, l1, address.value) else SkipAddress(bus, l1);
      (Ok(()), WriteByte(bus, l2, command))
  }

  // ----- what the events mean --------------------------------------------------------

  /** The events of a read slot that sampled `high`. */
  function ReadSlot(high: bool): seq<Event> {
    [DriveLow, Wait(6), Release, Wait(9), Sample(high), Wait(55)]
  }

  /** The events of a write slot for `value`: a short pulse for 1, a long one for 0. */
  function WriteSlot(value: bool): seq<Event> {
    if value then [DriveLow, Wait(6), Release, Wait(64)]
    else [DriveLow, Wait(60), Release, Wait(10)]
  }

  function ReadSlots(levels: seq<bool>): seq<Event>
    decreases |levels|
  {
    if |levels| == 0 then [] else ReadSlot(levels[0]) + ReadSlots(levels[1..])
  }

  function WriteSlots(values: seq<bool>): seq<Event>
    decreases |values|
  {
    if |values| == 0 then [] else WriteSlot(values[0]) + WriteSlots(values[1..])
  }

  /** The events of a failed poll of `wait_for_high`, `n` times over. */
  function FailedPolls(n: nat): seq<Event>
    decreases n
  {
    if n == 0 then [] else [Sample(false), Wait(2)] + FailedPolls(n - 1)
  }

  /** The reset pulse and presence sample, once the line was found high. */
  function ResetPulse(high: bool): seq<Event> {
    [DriveLow, Wait(480), Release, Wait(70), Sample(high), Wait(410)]
  }

  /** Total time waited. */
  function Duration(events: seq<Event>): nat
    decreases |events|
  {
    if |events| == 0 then 0
    else (if events[0].Wait? then events[0].micros else 0) + Duration(events[1..])
  }

  /** The levels the master sampled, in order. */
  function Levels(events: seq<Event>): seq<bool>
    decreases |events|
  {
    if |events| == 0 then []
    else (if events[0].Sample? then [events[0].high] else []) + Levels(events[1..])
  }

  /** The bits a listening device takes from a run of write slots: each low pulse shorter
      than `DEVICE_SAMPLE_MICROS` is a 1, any longer one a 0. */
  function Received(events: seq<Event>): seq<bool>
    decreases |events|
  {
    if |events| >= 4 && events[0] == DriveLow && events[1].Wait? && events[2] == Release
       && events[3].Wait?
    then [events[1].micros < DEVICE_SAMPLE_MICROS] + Received(events[4..])
    else []
  }

  /** The events added to the trace between two lines. */
  function Appended<W>(before: Line<W>, after: Line<W>): seq<Event>
    requires |before.trace| <= |after.trace|
  {
    after.trace[|before.trace|..]
  }

  // ----- bits of a byte ---------------------------------------------------------------

  /** The `n` low bits of `value`, lowest first: what `write_byte`'s loop sends. */
  function LowBits(value: bv8, n: nat): (bits: seq<bool>)
    ensures |bits| == n
    decreases n
  {
    if n == 0 then [] else [value & 0x01 == 0x01] + LowBits(value >> 1, n - 1)
  }

  /** The eight bits of a byte in the order they travel: least significant first. */
  function BitsOf(value: bv8): seq<bool> {
    LowBits(value, 8)
  }

  /** Bit `k` of a byte. */
  predicate Bit8(value: bv8, k: bv8)
    requires k < 8
  {
    value & (1 << k) != 0
  }

  /** The accumulator `read_byte` builds from `levels`, starting from `acc`. */
  function Assemble(acc: bv8, levels: seq<bool>): bv8
    decreases |levels|
  {
    if |levels| == 0 then acc else Assemble(Shift(acc, levels[0]), levels[1..])
  }

  /** The byte whose bits, lowest first, are `levels`. */
  function ByteOf(levels: seq<bool>): bv8
    requires |levels| == 8
  {
    Assemble(0, levels)
  }

  /** The bits of a sequence of bytes in the order they travel. */
  function BytesBits(bytes: seq<bv8>): (bits: seq<bool>)
    ensures |bits| == 8 * |bytes|
    decreases |bytes|
  {
    if |bytes| == 0 then [] else BytesBits(bytes[..|bytes| - 1]) + BitsOf(bytes[|bytes| - 1])
  }

  lemma ShiftBit(value: bv8, k: bv8)
    requires 0 < k < 8
    ensures Bit8(value >> 1, k - 1) == Bit8(value, k)
  {}

  lemma {:induction false} LowBitsAt(value: bv8, n: nat, k: bv8)
    requires k as int < n <= 8
    ensures LowBits(value, n)[k as int] == Bit8(value, k)
    decreases k
  {
    if k > 0 {
      LowBitsAt(value >> 1, n - 1, k - 1);
      ShiftBit(value, k);
    }
  }

  /** Slot `k` of a byte carries bit `k` of it. */
  lemma BitsOfAt(value: bv8, k: bv8)
    requires k < 8
    ensures BitsOf(value)[k as int] == Bit8(value, k)
  {
    LowBitsAt(value, 8, k);
  }

  lemma BitsOfUnfold(value: bv8)
    ensures BitsOf(value) == [Bit8(value, 0), Bit8(value, 1), Bit8(value, 2), Bit8(value, 3),
                              Bit8(value, 4), Bit8(value, 5), Bit8(value, 6), Bit8(value, 7)]
  {
    BitsOfAt(value, 0); BitsOfAt(value, 1); BitsOfAt(value, 2); BitsOfAt(value, 3);
    BitsOfAt(value, 4); BitsOfAt(value, 5); BitsOfAt(value, 6); BitsOfAt(value, 7);
  }

  lemma ByteOfUnfold(levels: seq<bool>)
    requires |levels| == 8
    ensures ByteOf(levels) == (if levels[0] then 1 else 0) | (if levels[1] then 2 else 0)
      | (if levels[2] then 4 else 0) | (if levels[3] then 8 else 0)
      | (if levels[4] then 16 else 0) | (if levels[5] then 32 else 0)
      | (if levels[6] then 64 else 0) | (if levels[7] then 128 else 0)
  {
    var a1 := Shift(0, levels[0]);
    var a2 := Shift(a1, levels[1]);
    var a3 := Shift(a2, levels[2]);
    var a4 := Shift(a3, levels[3]);
    var a5 := Shift(a4, levels[4]);
    var a6 := Shift(a5, levels[5]);
    var a7 := Shift(a6, levels[6]);
    var a8 := Shift(a7, levels[7]);
    assert Assemble(0, levels) == Assemble(a1, levels[1..]);
    assert Assemble(a1, levels[1..]) == Assemble(a2, levels[2..]);
    assert Assemble(a2, levels[2..]) == Assemble(a3, levels[3..]);
    assert Assemble(a3, levels[3..]) == Assemble(a4, levels[4..]);
    assert Assemble(a4, levels[4..]) == Assemble(a5, levels[5..]);
    assert Assemble(a5, levels[5..]) == Assemble(a6, levels[6..]);
    assert Assemble(a6, levels[6..]) == Assemble(a7, levels[7..]);
    assert Assemble(a7, levels[7..]) == Assemble(a8, levels[8..]);
  }

  /** Assembling the bits of a byte gives the byte back. */
  lemma ByteOfBitsOf(value: bv8)
    ensures ByteOf(BitsOf(value)) == value
  {
    BitsOfUnfold(value);
    ByteOfUnfold(BitsOf(value));
  }

  /** ... and the bits of an assembled byte are the levels it was built from, with the
      first level read as bit 0. */
  lemma BitsOfByteOf(levels: seq<bool>)
    requires |levels| == 8
    ensures BitsOf(ByteOf(levels)) == levels
  {
    BitsOfUnfold(ByteOf(levels));
    ByteOfUnfold(levels);
  }

  // ----- slots ------------------------------------------------------------------------

  /** The pulls and releases among `events`, in order. */
  function Edges(events: seq<Event>): seq<Event>
    decreases |events|
  {
    if |events| == 0 then []
    else
      var first := if events[0] == DriveLow || events[0] == Release then [events[0]] else [];
      first + Edges(events[1..])
  }

  lemma DurationCons(e: Event, rest: seq<Event>)
    ensures Duration([e] + rest) == (if e.Wait? then e.micros else 0) + Duration(rest)
  {
    assert ([e] + rest)[0] == e && ([e] + rest)[1..] == rest;
  }

  lemma LevelsCons(e: Event, rest: seq<Event>)
    ensures Levels([e] + rest) == (if e.Sample? then [e.high] else []) + Levels(rest)
  {
    assert ([e] + rest)[0] == e && ([e] + rest)[1..] == rest;
  }

  lemma EdgesCons(e: Event, rest: seq<Event>)
    ensures Edges([e] + rest) == (if e == DriveLow || e == Release then [e] else []) + Edges(rest)
  {
    assert ([e] + rest)[0] == e && ([e] + rest)[1..] == rest;
  }

  /** A read slot is one pull followed by one release, samples 15 µs after pulling low,
      and lasts `READ_SLOT_DURATION_MICROS`. */
  lemma ReadSlotShape(high: bool)
    ensures Edges(ReadSlot(high)) == [DriveLow, Release]
    ensures Duration(ReadSlot(high)[..4]) == DEVICE_SAMPLE_MICROS
    ensures Duration(ReadSlot(high)) == READ_SLOT_DURATION_MICROS
  {
    var s6 := [Wait(55)];
    var s5 := [Sample(high)] + s6;
    var s4 := [Wait(9)] + s5;
    var s3 := [Release] + s4;
    var s2 := [Wait(6)] + s3;
    var s1 := [DriveLow] + s2;
    assert s1 == ReadSlot(high);
    assert s6 == [Wait(55)] + [];
    EdgesCons(Wait(55), []); EdgesCons(Sample(high), s6); EdgesCons(Wait(9), s5);
    EdgesCons(Release, s4); EdgesCons(Wait(6), s3); EdgesCons(DriveLow, s2);
    DurationCons(Wait(55), []); DurationCons(Sample(high), s6); DurationCons(Wait(9), s5);
    DurationCons(Release, s4); DurationCons(Wait(6), s3); DurationCons(DriveLow, s2);
    var p4 := [Wait(9)];
    var p3 := [Release] + p4;
    var p2 := [Wait(6)] + p3;
    var p1 := [DriveLow] + p2;
    assert p1 == ReadSlot(high)[..4];
    assert p4 == [Wait(9)] + [];
    DurationCons(Wait(9), []); DurationCons(Release, p4);
    DurationCons(Wait(6), p3); DurationCons(DriveLow, p2);
  }

  /** A read slot samples exactly once. */
  lemma ReadSlotLevels(high: bool)
    ensures Levels(ReadSlot(high)) == [high]
  {
    var s6 := [Wait(55)];
    var s5 := [Sample(high)] + s6;
    var s4 := [Wait(9)] + s5;
    var s3 := [Release] + s4;
    var s2 := [Wait(6)] + s3;
    var s1 := [DriveLow] + s2;
    assert s1 == ReadSlot(high);
    assert s6 == [Wait(55)] + [];
    LevelsCons(Wait(55), []); LevelsCons(Sample(high), s6); LevelsCons(Wait(9), s5);
    LevelsCons(Release, s4); LevelsCons(Wait(6), s3); LevelsCons(DriveLow, s2);
  }

  /** A write slot is one pull followed by one release, and lasts
      `READ_SLOT_DURATION_MICROS`. */
  lemma WriteSlotShape(value: bool)
    ensures Edges(WriteSlot(value)) == [DriveLow, Release]
    ensures Duration(WriteSlot(value)) == READ_SLOT_DURATION_MICROS
  {
    var w := WriteSlot(value);
    var s4 := [w[3]];
    var s3 := [Release] + s4;
    var s2 := [w[1]] + s3;
    var s1 := [DriveLow] + s2;
    assert s1 == w;
    assert s4 == [w[3]] + [];
    EdgesCons(w[3], []); EdgesCons(Release, s4); EdgesCons(w[1], s3); EdgesCons(DriveLow, s2);
    DurationCons(w[3], []); DurationCons(Release, s4); DurationCons(w[1], s3);
    DurationCons(DriveLow, s2);
  }

  lemma {:induction false} DurationConcat(a: seq<Event>, b: seq<Event>)
    ensures Duration(a + b) == Duration(a) + Duration(b)
    decreases |a|
  {
    if |a| == 0 {
      assert a + b == b;
    } else {
      assert a + b == [a[0]] + (a[1..] + b);
      DurationCons(a[0], a[1..] + b);
      DurationCons(a[0], a[1..]);
      assert a == [a[0]] + a[1..];
      DurationConcat(a[1..], b);
    }
  }

  /** `read_bit` is one read slot, and returns the level it sampled. */
  lemma ReadBitEvents<W>(bus: Responder<W>, l: Line<W>)
    ensures ReadBit(bus, l).1.trace == l.trace + ReadSlot(ReadBit(bus, l).0)
  {}

  /** `write_bit` is one write slot for its value. */
  lemma WriteBitEvents<W>(bus: Responder<W>, l: Line<W>, value: bool)
    ensures WriteBit(bus, l, value).trace == l.trace + WriteSlot(value)
  {}

  lemma {:induction false} NoPullInFailedPolls(n: nat)
    ensures DriveLow !in FailedPolls(n)
    decreases n
  {
    if n > 0 {
      NoPullInFailedPolls(n - 1);
    }
  }

  lemma PrependFailedPoll(m: nat)
    ensures [Sample(false), Wait(2)] + FailedPolls(m) == FailedPolls(m + 1)
  {}

  /** The loop of `wait_for_high`: either every poll fails, or some poll finds the line
      high after fewer failed ones than were allowed. */
  lemma {:induction false} PollEvents<W>(bus: Responder<W>, l: Line<W>, remaining: nat)
    ensures var (high, l') := Poll(bus, l, remaining);
      if high then
        exists m: nat :: m < remaining && l'.trace == l.trace + FailedPolls(m) + [Sample(true)]
      else
        l'.trace == l.trace + FailedPolls(remaining)
    decreases remaining
  {
    if remaining > 0 {
      var (high, l1) := IsBusHigh(bus, l);
      if high {
        assert FailedPolls(0) == [];
        assert Poll(bus, l, remaining).1.trace == l.trace + FailedPolls(0) + [Sample(true)];
      } else {
        var l2 := Delay(bus, l1, 2);
        assert l2.trace == l.trace + [Sample(false), Wait(2)];
        PollEvents(bus, l2, remaining - 1);
        var (high', l') := Poll(bus, l2, remaining - 1);
        if high' {
          var m: nat :| m < remaining - 1 && l'.trace == l2.trace + FailedPolls(m) + [Sample(true)];
          PrependFailedPoll(m);
          assert l'.trace == l.trace + FailedPolls(m + 1) + [Sample(true)];
        } else {
          PrependFailedPoll(remaining - 1);
        }
      }
    }
  }

  /** `reset` fails only when the line never came up, and then without ever pulling it
      low. Otherwise it found the line high within the allowed polls, then pulled it low
      for 480 µs, released it, sampled after 70 µs, waited 410 µs more, and reports a
      device present exactly when that sample was low. */
  lemma ResetEvents<W>(bus: Responder<W>, l: Line<W>)
    ensures var (r, l') := Reset(bus, l);
      if r.Err? then
        r.error == BusNotHigh && l'.trace == l.trace + FailedPolls(HIGH_POLLS)
        && DriveLow !in l'.trace[|l.trace|..]
      else
        exists m: nat :: m < HIGH_POLLS
          && l'.trace == l.trace + FailedPolls(m) + [Sample(true)] + ResetPulse(!r.value)
  {
    PollEvents(bus, l, HIGH_POLLS);
    var (r, l') := Reset(bus, l);
    if r.Err? {
      NoPullInFailedPolls(HIGH_POLLS);
      assert l'.trace[|l.trace|..] == FailedPolls(HIGH_POLLS);
    }
  }

  // ----- bytes ------------------------------------------------------------------------

  lemma WriteSlotsCons(value: bool, rest: seq<bool>)
    ensures WriteSlots([value] + rest) == WriteSlot(value) + WriteSlots(rest)
  {
    assert ([value] + rest)[0] == value && ([value] + rest)[1..] == rest;
  }

  lemma ReadSlotsCons(high: bool, rest: seq<bool>)
    ensures ReadSlots([high] + rest) == ReadSlot(high) + ReadSlots(rest)
  {
    assert ([high] + rest)[0] == high && ([high] + rest)[1..] == rest;
  }

  lemma {:induction false} WriteSlotsAppend(a: seq<bool>, b: seq<bool>)
    ensures WriteSlots(a + b) == WriteSlots(a) + WriteSlots(b)
    decreases |a|
  {
    if |a| == 0 {
      assert a + b == b;
    } else {
      assert a + b == [a[0]] + (a[1..] + b);
      WriteSlotsCons(a[0], a[1..] + b);
      WriteSlotsAppend(a[1..], b);
    }
  }

  lemma {:induction false} ReadSlotsAppend(a: seq<bool>, b: seq<bool>)
    ensures ReadSlots(a + b) == ReadSlots(a) + ReadSlots(b)
    decreases |a|
  {
    if |a| == 0 {
      assert a + b == b;
    } else {
      assert a + b == [a[0]] + (a[1..] + b);
      ReadSlotsCons(a[0], a[1..] + b);
      ReadSlotsAppend(a[1..], b);
    }
  }

  lemma {:induction false} LevelsAppend(a: seq<Event>, b: seq<Event>)
    ensures Levels(a + b) == Levels(a) + Levels(b)
    decreases |a|
  {
    if |a| == 0 {
      assert a + b == b;
    } else {
      assert a + b == [a[0]] + (a[1..] + b);
      LevelsCons(a[0], a[1..] + b);
      LevelsCons(a[0], a[1..]);
      assert a == [a[0]] + a[1..];
      LevelsAppend(a[1..], b);
    }
  }

  /** The master samples exactly the levels of its read slots. */
  lemma {:induction false} LevelsOfReadSlots(levels: seq<bool>)
    ensures Levels(ReadSlots(levels)) == levels
    decreases |levels|
  {
    if |levels| > 0 {
      var h := levels[0];
      LevelsAppend(ReadSlot(h), ReadSlots(levels[1..]));
      ReadSlotLevels(h);
      LevelsOfReadSlots(levels[1..]);
    }
  }

  /** A listening device takes from a run of write slots exactly the bits they were
      written for. */
  lemma {:induction false} ReceivedWriteSlots(values: seq<bool>)
    ensures Received(WriteSlots(values)) == values
    decreases |values|
  {
    if |values| > 0 {
      var e := WriteSlots(values);
      assert e == WriteSlot(values[0]) + WriteSlots(values[1..]);
      assert e[4..] == WriteSlots(values[1..]);
      ReceivedWriteSlots(values[1..]);
    }
  }

  lemma {:induction false} WriteBitsEvents<W>(bus: Responder<W>, l: Line<W>, value: bv8, remaining: nat)
    ensures WriteBits(bus, l, value, remaining).trace == l.trace + WriteSlots(LowBits(value, remaining))
    decreases remaining
  {
    if remaining > 0 {
      var bit := value & 0x01 == 0x01;
      var l1 := WriteBit(bus, l, bit);
      var rest := LowBits(value >> 1, remaining - 1);
      WriteBitEvents(bus, l, bit);
      WriteBitsEvents(bus, l1, value >> 1, remaining - 1);
      WriteSlotsCons(bit, rest);
      ConcatAssoc(l.trace, WriteSlot(bit), WriteSlots(rest));
      assert LowBits(value, remaining) == [bit] + rest;
    }
  }

  /** `write_byte` is eight write slots carrying the bits of the value, lowest first. */
  lemma WriteByteEvents<W>(bus: Responder<W>, l: Line<W>, value: bv8)
    ensures WriteByte(bus, l, value).trace == l.trace + WriteSlots(BitsOf(value))
  {
    WriteBitsEvents(bus, l, value, 8);
  }

  lemma ReadBitsStep<W>(bus: Responder<W>, l: Line<W>, acc: bv8, remaining: nat)
    requires remaining > 0
    ensures ReadBits(bus, l, acc, remaining)
         == ReadBits(bus, ReadBit(bus, l).1, Shift(acc, ReadBit(bus, l).0), remaining - 1)
  {}

  lemma WriteBitsStep<W>(bus: Responder<W>, l: Line<W>, value: bv8, remaining: nat)
    requires remaining > 0
    ensures WriteBits(bus, l, value, remaining)
         == WriteBits(bus, WriteBit(bus, l, value & 0x01 == 0x01), value >> 1, remaining - 1)
    ensures LowBits(value, remaining) == [value & 0x01 == 0x01] + LowBits(value >> 1, remaining - 1)
  {}

  /** The loop of `read_byte`: `remaining` read slots, whose levels are shifted into the
      accumulator in the order they were sampled. */
  lemma {:induction false} ReadBitsEvents<W>(bus: Responder<W>, l: Line<W>, acc: bv8, remaining: nat)
    returns (levels: seq<bool>)
    ensures |levels| == remaining
    ensures ReadBits(bus, l, acc, remaining).1.trace == l.trace + ReadSlots(levels)
    ensures ReadBits(bus, l, acc, remaining).0 == Assemble(acc, levels)
    decreases remaining
  {
    if remaining == 0 {
      levels := [];
    } else {
      var high := ReadBit(bus, l).0;
      var l1 := ReadBit(bus, l).1;
      ReadBitsStep(bus, l, acc, remaining);
      ReadBitEvents(bus, l);
      var rest := ReadBitsEvents(bus, l1, Shift(acc, high), remaining - 1);
      levels := [high] + rest;
      ReadSlotsCons(high, rest);
      ConcatAssoc(l.trace, ReadSlot(high), ReadSlots(rest));
      assert levels[0] == high && levels[1..] == rest;
    }
  }

  /** `read_byte` is eight read slots, and the byte it returns has the level sampled in
      slot `k` as its bit `k`. */
  lemma ReadByteEvents<W>(bus: Responder<W>, l: Line<W>)
    ensures ReadByte(bus, l).1.trace == l.trace + ReadSlots(BitsOf(ReadByte(bus, l).0))
  {
    var levels := ReadBitsEvents(bus, l, 0, 8);
    BitsOfByteOf(levels);
  }

  /** Byte framing round trip: when the read slots of a `read_byte` sample the bits a
      listening device took from the write slots of a `write_byte`, the byte read is the
      byte written. */
  lemma LoopbackRoundTrip<W>(bus: Responder<W>, l: Line<W>, value: bv8)
    ensures var l1 := WriteByte(bus, l, value);
      var (r, l2) := ReadByte(bus, l1);
      |l.trace| <= |l1.trace| <= |l2.trace|
      && (Levels(Appended(l1, l2)) == Received(Appended(l, l1)) ==> r == value)
  {
    var l1 := WriteByte(bus, l, value);
    var (r, l2) := ReadByte(bus, l1);
    WriteByteEvents(bus, l, value);
    ReadByteEvents(bus, l1);
    assert Appended(l, l1) == WriteSlots(BitsOf(value));
    assert Appended(l1, l2) == ReadSlots(BitsOf(r));
    ReceivedWriteSlots(BitsOf(value));
    LevelsOfReadSlots(BitsOf(r));
    if BitsOf(r) == BitsOf(value) {
      ByteOfBitsOf(r);
      ByteOfBitsOf(value);
    }
  }

  lemma {:induction false} WriteBytesEvents<W>(bus: Responder<W>, l: Line<W>, bytes: seq<bv8>)
    ensures WriteBytes(bus, l, bytes).trace == l.trace + WriteSlots(BytesBits(bytes))
    decreases |bytes|
  {
    if |bytes| > 0 {
      var front := bytes[..|bytes| - 1];
      var last := bytes[|bytes| - 1];
      WriteBytesEvents(bus, l, front);
      WriteByteEvents(bus, WriteBytes(bus, l, front), last);
      WriteSlotsAppend(BytesBits(front), BitsOf(last));
    }
  }

  lemma ReadBytesStep<W>(bus: Responder<W>, l: Line<W>, n: nat)
    requires n > 0
    ensures ReadBytes(bus, l, n).0
         == ReadBytes(bus, l, n - 1).0 + [ReadByte(bus, ReadBytes(bus, l, n - 1).1).0]
    ensures ReadBytes(bus, l, n).1 == ReadByte(bus, ReadBytes(bus, l, n - 1).1).1
  {}

  lemma ConcatAssoc<T>(a: seq<T>, b: seq<T>, c: seq<T>)
    ensures a + b + c == a + (b + c)
  {}

  lemma BytesBitsSnoc(front: seq<bv8>, last: bv8)
    ensures BytesBits(front + [last]) == BytesBits(front) + BitsOf(last)
  {
    assert (front + [last])[..|front|] == front;
  }

  lemma ComposeReads(t0: seq<Event>, t1: seq<Event>, t2: seq<Event>, front: seq<bv8>, last: bv8)
    requires t1 == t0 + ReadSlots(BytesBits(front))
    requires t2 == t1 + ReadSlots(BitsOf(last))
    ensures t2 == t0 + ReadSlots(BytesBits(front + [last]))
  {
    var a := ReadSlots(BytesBits(front));
    var b := ReadSlots(BitsOf(last));
    BytesBitsSnoc(front, last);
    ReadSlotsAppend(BytesBits(front), BitsOf(last));
    ConcatAssoc(t0, a, b);
  }

  lemma ReadBytesSnoc<W>(bus: Responder<W>, l: Line<W>, n: nat)
    requires n > 0
    requires ReadBytes(bus, l, n - 1).1.trace
          == l.trace + ReadSlots(BytesBits(ReadBytes(bus, l, n - 1).0))
    ensures ReadBytes(bus, l, n).1.trace == l.trace + ReadSlots(BytesBits(ReadBytes(bus, l, n).0))
  {
    var front := ReadBytes(bus, l, n - 1).0;
    var l1 := ReadBytes(bus, l, n - 1).1;
    var last := ReadByte(bus, l1).0;
    ReadBytesStep(bus, l, n);
    ReadByteEvents(bus, l1);
    ComposeReads(l.trace, l1.trace, ReadByte(bus, l1).1.trace, front, last);
  }

  /** `read_bytes` reads `8 * n` slots, and the bytes it stores, in index order and each
      lowest bit first, are the levels those slots sampled. */
  lemma {:induction false} ReadBytesEvents<W>(bus: Responder<W>, l: Line<W>, n: nat)
    ensures ReadBytes(bus, l, n).1.trace == l.trace + ReadSlots(BytesBits(ReadBytes(bus, l, n).0))
    decreases n
  {
    if n > 0 {
      ReadBytesEvents(bus, l, n - 1);
      ReadBytesSnoc(bus, l, n);
    }
  }

  /** Bit `t` of byte `i` travels in slot `8 * i + t`. */
  lemma {:induction false} BytesBitsAt(bytes: seq<bv8>, i: nat, t: nat)
    requires i < |bytes| && t < 8
    ensures BytesBits(bytes)[8 * i + t] == BitsOf(bytes[i])[t]
    decreases |bytes|
  {
    var front := bytes[..|bytes| - 1];
    if i < |bytes| - 1 {
      BytesBitsAt(front, i, t);
    }
  }

  /** The bits of an address in the order `match_address` sends them. */
  function AddressBits(x: bv64): (bits: seq<bool>)
    ensures |bits| == 64
  {
    BytesBits(LeBytes(x))
  }

  lemma ByteAtBit(x: bv64, k: bv8, t: bv8)
    requires k < 8 && t < 8
    ensures Bit8(ByteAt(x, k), t) == Bit(x, 8 * k + t)
  {}

  lemma LeBytesAt(x: bv64, k: bv8)
    requires k < 8
    ensures LeBytes(x)[k as int] == ByteAt(x, k)
  {}

  lemma SplitIndex(j: BitIndex)
    ensures j / 8 < 8 && j % 8 < 8 && j == 8 * (j / 8) + j % 8
    ensures j as int == 8 * ((j / 8) as int) + (j % 8) as int
  {}

  /** Slot `j` of an address carries bit `j % 8` of byte `j / 8`. */
  lemma AddressBitsSlot(x: bv64, j: BitIndex)
    ensures AddressBits(x)[j as int] == BitsOf(LeBytes(x)[(j / 8) as int])[(j % 8) as int]
  {
    SplitIndex(j);
    BytesBitsAt(LeBytes(x), (j / 8) as int, (j % 8) as int);
  }

  /** Bit `j % 8` of byte `j / 8` is bit `j`. */
  lemma LeBytesBit(x: bv64, j: BitIndex)
    ensures BitsOf(LeBytes(x)[(j / 8) as int])[(j % 8) as int] == Bit(x, j)
  {
    SplitIndex(j);
    LeBytesAt(x, j / 8);
    BitsOfAt(ByteAt(x, j / 8), j % 8);
    ByteAtBit(x, j / 8, j % 8);
  }

  /** `match_address` sends the address lowest bit first: slot `j` of the address carries
      bit `j`, the same order in which the search discovers addresses. */
  lemma AddressBitsAt(x: bv64, j: BitIndex)
    ensures AddressBits(x)[j as int] == Bit(x, j)
  {
    AddressBitsSlot(x, j);
    LeBytesBit(x, j);
  }

  lemma ComposeWrites(t0: seq<Event>, t1: seq<Event>, t2: seq<Event>, a: seq<bool>, b: seq<bool>)
    requires t1 == t0 + WriteSlots(a)
    requires t2 == t1 + WriteSlots(b)
    ensures t2 == t0 + WriteSlots(a + b)
  {
    WriteSlotsAppend(a, b);
    ConcatAssoc(t0, WriteSlots(a), WriteSlots(b));
  }

  /** `match_address` is the write slots of MATCH_ROM followed by those of the 64 address
      bits. */
  lemma MatchAddressEvents<W>(bus: Responder<W>, l: Line<W>, address: Address)
    ensures MatchAddress(bus, l, address).trace
         == l.trace + WriteSlots(BitsOf(MATCH_ROM) + AddressBits(address.raw))
  {
    var bytes := LeBytes(address.raw);
    var l1 := WriteByte(bus, l, MATCH_ROM);
    WriteByteEvents(bus, l, MATCH_ROM);
    WriteBytesEvents(bus, l1, bytes);
    ComposeWrites(l.trace, l1.trace, WriteBytes(bus, l1, bytes).trace, BitsOf(MATCH_ROM), BytesBits(bytes));
  }

  /** `skip_address` is the write slots of SKIP_ROM alone. */
  lemma SkipAddressEvents<W>(bus: Responder<W>, l: Line<W>)
    ensures SkipAddress(bus, l).trace == l.trace + WriteSlots(BitsOf(SKIP_ROM))
  {
    WriteByteEvents(bus, l, SKIP_ROM);
  }

  /** The bits that select devices after a reset: MATCH_ROM and an address, or SKIP_ROM. */
  function Selection(address: Option<Address>): seq<bool> {
    match address
    case Some(a) => BitsOf(MATCH_ROM) + AddressBits(a.raw)
    case None => BitsOf(SKIP_ROM)
  }

  lemma SelectionEvents<W>(bus: Responder<W>, l: Line<W>, address: Option<Address>)
    ensures (if address.Some? then MatchAddress(bus, l, address.value) else SkipAddress(bus, l)).trace
         == l.trace + WriteSlots(Selection(address))
  {
    match address {
      case Some(a) => MatchAddressEvents(bus, l, a);
      case None => SkipAddressEvents(bus, l);
    }
  }

  lemma SendCommandStep<W>(bus: Responder<W>, l: Line<W>, command: bv8, address: Option<Address>)
    ensures Reset(bus, l).0.Err? ==>
      SendCommand(bus, l, command, address) == (Err(Reset(bus, l).0.error), Reset(bus, l).1)
    ensures Reset(bus, l).0.Ok? ==>
      var l1 := Reset(bus, l).1;
      var l2 := if address.Some? then MatchAddress(bus, l1, address.value) else SkipAddress(bus, l1);
      SendCommand(bus, l, command, address) == (Ok(()), WriteByte(bus, l2, command))
  {}

  /** `send_command` fails exactly when its reset fails, and then sends nothing more. */
  lemma SendCommandFails<W>(bus: Responder<W>, l: Line<W>, command: bv8, address: Option<Address>)
    requires Reset(bus, l).0.Err?
    ensures SendCommand(bus, l, command, address) == (Err(Reset(bus, l).0.error), Reset(bus, l).1)
  {
    SendCommandStep(bus, l, command, address);
  }

  /** Otherwise, whether or not a device answered the reset, it sends the selection and then
      the command, and a listening device receives exactly those bits. */
  lemma SendCommandEvents<W>(bus: Responder<W>, l: Line<W>, command: bv8, address: Option<Address>)
    requires Reset(bus, l).0.Ok?
    ensures var l1 := Reset(bus, l).1;
      var (r, l2) := SendCommand(bus, l, command, address);
      r == Ok(())
      && l2.trace == l1.trace + WriteSlots(Selection(address) + BitsOf(command))
      && Received(Appended(l1, l2)) == Selection(address) + BitsOf(command)
  {
    SendCommandStep(bus, l, command, address);
    var l1 := Reset(bus, l).1;
    var l2 := if address.Some? then MatchAddress(bus, l1, address.value) else SkipAddress(bus, l1);
    var l3 := WriteByte(bus, l2, command);
    SelectionEvents(bus, l1, address);
    WriteByteEvents(bus, l2, command);
    ComposeWrites(l1.trace, l2.trace, l3.trace, Selection(address), BitsOf(command));
    assert Appended(l1, l3) == WriteSlots(Selection(address) + BitsOf(command));
    ReceivedWriteSlots(Selection(address) + BitsOf(command));
  }
}
