/** A population of 1-Wire devices on the far end of the wire, as a `Responder` for the
    line of module Wire. It is the reference the search is measured against: the driver
    itself never sees it. The devices behave as the 1-Wire standard describes, at the
    resolution of the slots the driver produces:

    - a low pulse of at least 480 µs is a reset; when at least one device is present,
      the devices answer it with a presence pulse and then listen for a ROM command;
    - a shorter pulse is a slot; the devices read it as a 1 when it ended before they
      sample, 15 µs after it began, and as a 0 otherwise;
    - after SEARCH_NORMAL (every device) or SEARCH_ALARM (the alarming ones) the selected
      devices answer, for each bit, two read slots (the first held low by the devices
      with a 0 there, the second by those with a 1), then read the bit the master
      writes and drop out when theirs differs. */
module Population {
  import opened Errors
  import opened Addresses
  import opened Commands
  import opened Wire

  /** Which of the three slots of one search bit comes next. */
  datatype Phase = FirstRead | SecondRead | Direction

  /** What the devices are doing: ignoring the wire until the next reset, collecting the
      bits of a ROM command, or searching at bit `index` with the devices still selected. */
  datatype Mode =
    | Idle
    | Listening(received: seq<bool>)
    | Searching(selected: set<bv64>, index: BitIndex, phase: Phase)

  /** The devices on the wire, those in an alarm condition, their common mode, and the
      state of the line: whether the master holds it low and for how long, the time since
      the master let go of it, and how long after that some device keeps it low. */
  datatype Devices = Devices(
    present: set<bv64>, alarming: set<bv64>, mode: Mode,
    low: bool, lowFor: nat, since: nat, hold: nat)

  /** A low pulse at least this long is a reset. */
  const RESET_MICROS: nat := 480

  /** How long present devices keep the line low after a reset pulse. */
  const PRESENCE_MICROS: nat := 240

  /** How long a device that answers 0 keeps the line low after the master lets go. */
  const ANSWER_MICROS: nat := 30

  /** Some selected device has a 0 at bit `i`. */
  predicate HasZero(selected: set<bv64>, i: BitIndex) {
    exists d :: d in selected && !Bit(d, i)
  }

  /** Some selected device has a 1 at bit `i`. */
  predicate HasOne(selected: set<bv64>, i: BitIndex) {
    exists d :: d in selected && Bit(d, i)
  }

  /** The selected devices whose bit `i` is `v`. */
  function Keep(selected: set<bv64>, i: BitIndex, v: bool): set<bv64> {
    set d | d in selected && Bit(d, i) == v
  }

  /** Searching at bit `i`, before its first read slot; past the last bit, done. */
  function SearchMode(selected: set<bv64>, i: bv8): Mode
    requires i <= 64
  {
    if i == 64 then Idle else Searching(selected, i, FirstRead)
  }

  /** The mode the devices enter once they have heard `received` since the reset: a
      search among all of them or among the alarming ones, more bits to come, or any other
      command, which this model does not follow further. */
  function Heard(present: set<bv64>, alarming: set<bv64>, received: seq<bool>): Mode {
    if |received| < 8 then Listening(received)
    else if |received| == 8 && ByteOf(received) == SEARCH_NORMAL then SearchMode(present, 0)
    else if |received| == 8 && ByteOf(received) == SEARCH_ALARM then SearchMode(present * alarming, 0)
    else Idle
  }

  /** What the devices do with a slot that carried `bit`, just after the master let go. */
  function Answer(w: Devices, bit: bool): Devices {
    match w.mode
    case Idle => w.(hold := 0)
    case Listening(received) => w.(mode := Heard(w.present, w.alarming, received + [bit]), hold := 0)
    case Searching(s, i, FirstRead) =>
      w.(mode := Searching(s, i, SecondRead), hold := if HasZero(s, i) then ANSWER_MICROS else 0)
    case Searching(s, i, SecondRead) =>
      w.(mode := Searching(s, i, Direction), hold := if HasOne(s, i) then ANSWER_MICROS else 0)
    case Searching(s, i, Direction) => w.(mode := SearchMode(Keep(s, i, bit), i + 1), hold := 0)
  }

  /** The end of a low pulse: a reset, or a slot. */
  function EndOfPulse(w: Devices): Devices {
    if w.lowFor >= RESET_MICROS then
      w.(mode := Listening([]), hold := if w.present == {} then 0 else PRESENCE_MICROS)
    else Answer(w, w.lowFor < DEVICE_SAMPLE_MICROS)
  }

  /** How the devices follow the master's events. */
  function React(w: Devices, e: Event): Devices {
    match e
    case DriveLow => w.(low := true, lowFor := 0)
    case Wait(us) => if w.low then w.(lowFor := w.lowFor + us) else w.(since := w.since + us)
    case Sample(_) => w
    case Release => if w.low then EndOfPulse(w.(low := false, since := 0)) else w
  }

  /** The line is high when neither the master nor a device holds it low. */
  function Sense(w: Devices): bool {
    !w.low && w.since >= w.hold
  }

  /** The wire with the devices on it. */
  const Bus: Responder<Devices> := Responder(React, Sense)

  /** Nobody holds the line low. */
  ghost predicate Quiet(w: Devices) {
    !w.low && w.since >= w.hold
  }

  /** `w'` is the same population as `w`, with the line quiet. */
  ghost predicate Same(w: Devices, w': Devices) {
    w'.present == w.present && w'.alarming == w.alarming && Quiet(w')
  }

  /** ... and in mode `m`. */
  ghost predicate Settled(w: Devices, w': Devices, m: Mode) {
    Same(w, w') && w'.mode == m
  }

  /** The devices a search command selects. */
  function Participants(present: set<bv64>, alarming: set<bv64>, onlyAlarming: bool): set<bv64> {
    if onlyAlarming then present * alarming else present
  }

  // ----- the driver's slots on this wire ----------------------------------------------

  /** A reset on a quiet line: the line is found high at once, the presence pulse tells
      whether any device is present, and the devices listen for a command. */
  lemma ResetOnBus(l: Line<Devices>)
    requires Quiet(l.world)
    ensures var (r, l') := Reset(Bus, l);
      r == Ok(l.world.present != {}) && Settled(l.world, l'.world, Listening([]))
  {}

  /** A read slot during the first read of a search bit is low exactly when a selected
      device has a 0 there. */
  lemma ReadFirst(l: Line<Devices>, s: set<bv64>, i: BitIndex)
    requires Quiet(l.world) && l.world.mode == Searching(s, i, FirstRead)
    ensures var (high, l') := ReadBit(Bus, l);
      high == !HasZero(s, i) && Settled(l.world, l'.world, Searching(s, i, SecondRead))
  {}

  /** ... and during the second read exactly when a selected device has a 1 there. */
  lemma ReadSecond(l: Line<Devices>, s: set<bv64>, i: BitIndex)
    requires Quiet(l.world) && l.world.mode == Searching(s, i, SecondRead)
    ensures var (high, l') := ReadBit(Bus, l);
      high == !HasOne(s, i) && Settled(l.world, l'.world, Searching(s, i, Direction))
  {}

  /** The write slot of a search bit deselects the devices whose bit differs. */
  lemma WriteDirection(l: Line<Devices>, s: set<bv64>, i: BitIndex, v: bool)
    requires Quiet(l.world) && l.world.mode == Searching(s, i, Direction)
    ensures Settled(l.world, WriteBit(Bus, l, v).world, SearchMode(Keep(s, i, v), i + 1))
  {}

  /** A write slot while the devices collect a command adds its bit to what they heard. */
  lemma WriteListening(l: Line<Devices>, received: seq<bool>, v: bool)
    requires Quiet(l.world) && l.world.mode == Listening(received) && |received| < 8
    ensures var w := l.world;
      Settled(w, WriteBit(Bus, l, v).world, Heard(w.present, w.alarming, received + [v]))
  {}

  lemma AppendCons(a: seq<bool>, v: bool, b: seq<bool>)
    ensures a + [v] + b == a + ([v] + b)
  {}

  /** The write slots of `write_byte` with `remaining` turns left, while the devices collect
      a command of which they have heard `received`. */
  lemma {:induction false} WriteBitsListening(l: Line<Devices>, received: seq<bool>, value: bv8, remaining: nat)
    requires Quiet(l.world) && l.world.mode == Listening(received)
    requires 0 < remaining && |received| + remaining == 8
    ensures var w := l.world;
      Settled(w, WriteBits(Bus, l, value, remaining).world,
        Heard(w.present, w.alarming, received + LowBits(value, remaining)))
    decreases remaining
  {
    var v := value & 0x01 == 0x01;
    var l1 := WriteBit(Bus, l, v);
    WriteBitsStep(Bus, l, value, remaining);
    WriteListening(l, received, v);
    if remaining > 1 {
      WriteBitsListening(l1, received + [v], value >> 1, remaining - 1);
      AppendCons(received, v, LowBits(value >> 1, remaining - 1));
    } else {
      assert LowBits(value, remaining) == [v];
    }
  }

  /** `write_byte` while the devices wait for a command: they hear its eight bits. */
  lemma WriteByteListening(l: Line<Devices>, value: bv8)
    requires Quiet(l.world) && l.world.mode == Listening([])
    ensures var w := l.world;
      Settled(w, WriteByte(Bus, l, value).world, Heard(w.present, w.alarming, BitsOf(value)))
  {
    WriteBitsListening(l, [], value, 8);
    assert [] + LowBits(value, 8) == BitsOf(value);
  }

  /** A search command after a reset starts the search among the devices it selects. */
  lemma SearchCommandOnBus(l: Line<Devices>, onlyAlarming: bool)
    requires Quiet(l.world) && l.world.mode == Listening([])
    ensures var w := l.world;
      var command := if onlyAlarming then SEARCH_ALARM else SEARCH_NORMAL;
      Settled(w, WriteByte(Bus, l, command).world,
        Searching(Participants(w.present, w.alarming, onlyAlarming), 0, FirstRead))
  {
    var command := if onlyAlarming then SEARCH_ALARM else SEARCH_NORMAL;
    WriteByteListening(l, command);
    ByteOfBitsOf(command);
  }
}
