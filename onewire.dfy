/** The driver object (src/lib.rs:31-401): `OneWire` owns the pin and runs every operation
    step by step, and `DeviceSearch` is the iterator over the devices on the bus.

    The pin's other end is the `Responder` of module Wire; the object keeps the current
    state of that end in `world` and records every event in the ghost `trace`. Each method
    is proved to leave the line exactly as the matching function of module Wire or module
    Search says, so every property proved about those functions holds of the methods. */
module OneWireBus {
  import opened Errors
  import opened Addresses
  import opened Commands
  import opened Crc
  import opened Wire
  import opened Search

  /** `OneWire<T>`: the bus master. */
  class OneWire<W> {
    /** How the other end of the pin reacts and what level it shows. */
    const bus: Responder<W>
    /** The state of the other end of the pin. */
    var world: W
    /** Every event on the line so far. */
    ghost var trace: seq<Event>

    /** The line as the functions of module Wire see it. */
    ghost function Now(): Line<W>
      reads this
    {
      Line(world, trace)
    }

    /** `new`: takes the pin and releases the bus, which idles high. */
    constructor (bus: Responder<W>, world: W)
      ensures this.bus == bus
      ensures Now() == Wire.ReleaseBus(bus, Line(world, []))
    {
      this.bus := bus;
      this.world := bus.react(world, Release);
      this.trace := [Release];
    }

    // ----- primitives -----------------------------------------------------------------

    /** `release_bus`. */
    method ReleaseBus()
      modifies this
      ensures Now() == Wire.ReleaseBus(bus, old(Now()))
    {
      world := bus.react(world, Release);
      trace := trace + [Release];
    }

    /** `set_bus_low`. */
    method SetBusLow()
      modifies this
      ensures Now() == Wire.SetBusLow(bus, old(Now()))
    {
      world := bus.react(world, DriveLow);
      trace := trace + [DriveLow];
    }

    /** `delay.delay_us(us)`: time passes on the line. */
    method Delay(us: nat)
      modifies this
      ensures Now() == Wire.Delay(bus, old(Now()), us)
    {
      world := bus.react(world, Wait(us));
      trace := trace + [Wait(us)];
    }

    /** `is_bus_high`: reads the level; only the trace records the sample. */
    method IsBusHigh() returns (high: bool)
      modifies this`trace
      ensures (high, Now()) == Wire.IsBusHigh(bus, old(Now()))
    {
      high := bus.sense(world);
      trace := trace + [Sample(high)];
    }

    /** `is_bus_low`. */
    method IsBusLow() returns (low: bool)
      modifies this`trace
      ensures (low, Now()) == Wire.IsBusLow(bus, old(Now()))
    {
      var high := IsBusHigh();
      low := !high;
    }

    // ----- reset and bit slots --------------------------------------------------------

    /** `wait_for_high`: at most 125 polls, 2 µs apart. */
    method WaitForHigh() returns (r: Result<()>)
      modifies this
      ensures (r, Now()) == Wire.WaitForHigh(bus, old(Now()))
    {
      var k: nat := 0;
      while k < HIGH_POLLS
        invariant k <= HIGH_POLLS
        invariant Poll(bus, Now(), HIGH_POLLS - k) == Poll(bus, old(Now()), HIGH_POLLS)
      {
        var high := IsBusHigh();
        if high {
          return Ok(());
        }
        Delay(2);
        k := k + 1;
      }
      return Err(BusNotHigh);
    }

    /** `reset`. */
    method Reset() returns (r: Result<bool>)
      modifies this
      ensures (r, Now()) == Wire.Reset(bus, old(Now()))
    {
      var idle := WaitForHigh();
      if idle.Err? {
        return Err(idle.error);
      }
      SetBusLow();
      Delay(480);
      ReleaseBus();
      Delay(70);
      var present := IsBusLow();
      Delay(410);
      return Ok(present);
    }

    /** `read_bit`. */
    method ReadBit() returns (high: bool)
      modifies this
      ensures (high, Now()) == Wire.ReadBit(bus, old(Now()))
    {
      SetBusLow();
      Delay(6);
      ReleaseBus();
      Delay(9);
      high := IsBusHigh();
      Delay(55);
    }

    /** `write_1_bit`. */
    method Write1Bit()
      modifies this
      ensures Now() == Wire.Write1Bit(bus, old(Now()))
    {
      SetBusLow();
      Delay(6);
      ReleaseBus();
      Delay(64);
    }

    /** `write_0_bit`. */
    method Write0Bit()
      modifies this
      ensures Now() == Wire.Write0Bit(bus, old(Now()))
    {
      SetBusLow();
      Delay(60);
      ReleaseBus();
      Delay(10);
    }

    /** `write_bit`. */
    method WriteBit(value: bool)
      modifies this
      ensures Now() == Wire.WriteBit(bus, old(Now()), value)
    {
      if value {
        Write1Bit();
      } else {
        Write0Bit();
      }
    }

    // ----- bytes ----------------------------------------------------------------------

    /** `read_byte`: eight read slots, each level shifted in from the top. */
    method ReadByte() returns (output: bv8)
      modifies this
      ensures (output, Now()) == Wire.ReadByte(bus, old(Now()))
    {
      ghost var result := Wire.ReadByte(bus, Now());
      output := 0;
      var k: nat := 0;
      while k < 8
        invariant k <= 8
        invariant ReadBits(bus, Now(), output, 8 - k) == result
      {
        ghost var before := Now();
        ghost var acc := output;
        output := output >> 1;
        var high := ReadBit();
        if high {
          output := output | 0x80;
        }
        assert ReadBits(bus, before, acc, 8 - k) == ReadBits(bus, Now(), Shift(acc, high), 8 - k - 1);
        k := k + 1;
      }
    }

    /** `read_bytes`: fills `output` in index order. */
    method ReadBytes(output: array<bv8>)
      modifies this, output
      ensures (output[..], Now()) == Wire.ReadBytes(bus, old(Now()), output.Length)
    {
      ghost var start := Now();
      var i := 0;
      while i < output.Length
        invariant i <= output.Length
        invariant output[..i] == Wire.ReadBytes(bus, start, i).0
        invariant Now() == Wire.ReadBytes(bus, start, i).1
      {
        ReadBytesStep(bus, start, i + 1);
        var b := ReadByte();
        output[i] := b;
        assert output[..i + 1] == output[..i] + [b];
        i := i + 1;
      }
      assert output[..] == output[..output.Length];
    }

    /** `write_byte`: eight write slots, lowest bit first. */
    method WriteByte(value: bv8)
      modifies this
      ensures Now() == Wire.WriteByte(bus, old(Now()), value)
    {
      var v := value;
      var k: nat := 0;
      while k < 8
        invariant k <= 8
        invariant WriteBits(bus, Now(), v, 8 - k) == Wire.WriteByte(bus, old(Now()), value)
      {
        WriteBit(v & 0x01 == 0x01);
        v := v >> 1;
        k := k + 1;
      }
    }

    /** `write_bytes`: the bytes in index order. */
    method WriteBytes(bytes: seq<bv8>)
      modifies this
      ensures Now() == Wire.WriteBytes(bus, old(Now()), bytes)
    {
      var i := 0;
      while i < |bytes|
        invariant i <= |bytes|
        invariant Now() == Wire.WriteBytes(bus, old(Now()), bytes[..i])
      {
        WriteByte(bytes[i]);
        assert bytes[..i + 1][..i] == bytes[..i];
        i := i + 1;
      }
      assert bytes[..|bytes|] == bytes;
    }

    // ----- addressing -----------------------------------------------------------------

    /** `match_address`. */
    method MatchAddress(address: Address)
      modifies this
      ensures Now() == Wire.MatchAddress(bus, old(Now()), address)
    {
      WriteByte(MATCH_ROM);
      WriteBytes(LeBytes(address.raw));
    }

    /** `skip_address`. */
    method SkipAddress()
      modifies this
      ensures Now() == Wire.SkipAddress(bus, old(Now()))
    {
      WriteByte(SKIP_ROM);
    }

    /** `send_command`. */
    method SendCommand(command: bv8, address: Option<Address>) returns (r: Result<()>)
      modifies this
      ensures (r, Now()) == Wire.SendCommand(bus, old(Now()), command, address)
    {
      var reset := Reset();
      if reset.Err? {
        return Err(reset.error);
      }
      if address.Some? {
        MatchAddress(address.value);
      } else {
        SkipAddress();
      }
      WriteByte(command);
      return Ok(());
    }

    // ----- search ---------------------------------------------------------------------

    /** One turn of the replay loop of `device_search` at bit `i`. */
    method ReplayBitStep(prev: SearchState, i: BitIndex, last: BitIndex) returns (last': BitIndex)
      modifies this
      ensures (last', Now()) == Search.ReplayBit(bus, old(Now()), prev, i, last)
    {
      var _ := ReadBit();
      var _ := ReadBit();
      last' := if Bit(prev.discrepancies, i) then i else last;
      WriteBit(Bit(prev.address, i));
    }

    /** The replay loop of `device_search`: the bits of the previous address up to its last
        discrepancy, and the highest discrepancy below it. */
    method ReplayPath(prev: SearchState) returns (last: BitIndex)
      modifies this
      ensures (last, Now()) == Replay(bus, old(Now()), prev, 0, 0)
    {
      ghost var result := Replay(bus, Now(), prev, 0, 0);
      last := 0;
      var i: bv8 := 0;
      while i < prev.lastDiscrepancyIndex
        invariant i <= prev.lastDiscrepancyIndex
        invariant Replay(bus, Now(), prev, i, last) == result
        decreases prev.lastDiscrepancyIndex as int - i as int
      {
        ReplayStep(bus, Now(), prev, i, last);
        last := ReplayBitStep(prev, i, last);
        i := i + 1;
      }
    }

    /** The switch of `device_search` at the previous last discrepancy. */
    method SwitchStep(prev: SearchState) returns (r: Result<bv64>)
      modifies this
      ensures (r, Now()) == Switch(bus, old(Now()), prev)
    {
      var falseBit := ReadBit();
      falseBit := !falseBit;
      var trueBit := ReadBit();
      trueBit := !trueBit;
      if !(falseBit && trueBit) {
        return Err(UnexpectedResponse);
      }
      var address := prev.address | Mask(prev.lastDiscrepancyIndex);
      WriteBit(true);
      return Ok(address);
    }

    /** One turn of the discovery loop of `device_search` at bit `i`: the two read slots,
        the decision `Choose` makes of them, and the write slot of the chosen bit. */
    method DiscoverBitStep(i: BitIndex, st: SearchState) returns (r: Result<SearchState>)
      modifies this
      ensures (r, Now()) == Search.DiscoverBit(bus, old(Now()), i, st)
    {
      var falseBit := ReadBit();
      falseBit := !falseBit;
      var trueBit := ReadBit();
      trueBit := !trueBit;
      var decision := Choose(falseBit, trueBit, i, st);
      if decision.Err? {
        return Err(decision.error);
      }
      WriteBit(decision.value.0);
      return Ok(decision.value.1);
    }

    /** The discovery loop of `device_search` from bit `from`. */
    method DiscoverPath(from: bv8, start: SearchState) returns (r: Result<SearchState>)
      requires from <= 64
      modifies this
      ensures (r, Now()) == Discover(bus, old(Now()), from, start)
    {
      var st := start;
      var i := from;
      while i < 64
        invariant from <= i <= 64
        invariant Discover(bus, Now(), i, st) == Discover(bus, old(Now()), from, start)
        decreases 64 - i as int
      {
        DiscoverStep(bus, Now(), i, st);
        var next := DiscoverBitStep(i, st);
        if next.Err? {
          return next;
        }
        st := next.value;
        i := i + 1;
      }
      return Ok(st);
    }

    /** The replay and the switch of `device_search`: the loop variables discovery
        continues from. */
    method ResumeSearch(prev: SearchState) returns (r: Result<SearchState>)
      modifies this
      ensures (r, Now()) == Resume(bus, old(Now()), prev)
    {
      var last := ReplayPath(prev);
      var switched := SwitchStep(prev);
      if switched.Err? {
        return Err(switched.error);
      }
      var discrepancies := prev.discrepancies & !Mask(prev.lastDiscrepancyIndex);
      return Ok(SearchState(switched.value, discrepancies, last));
    }

    /** `device_search` after the search command: resume, discover, check the CRC. */
    method WalkTree(prev: Option<SearchState>) returns (r: Result<Option<(Address, SearchState)>>)
      modifies this
      ensures (r, Now()) == Walk(bus, old(Now()), prev)
    {
      var start: SearchState;
      var from: bv8;
      if prev.Some? {
        var resumed := ResumeSearch(prev.value);
        if resumed.Err? {
          return Err(resumed.error);
        }
        start := resumed.value;
        from := prev.value.lastDiscrepancyIndex + 1;
      } else {
        start := SearchState(0, 0, 0);
        from := 0;
      }
      var found := DiscoverPath(from, start);
      if found.Err? {
        return Err(found.error);
      }
      var crc := ComputeCrc8(LeBytes(found.value.address));
      if crc != 0 {
        return Err(CrcMismatch);
      }
      return Ok(Some((Address(found.value.address), found.value)));
    }

    /** `device_search`: one pass of the search, resuming from `prev` when there is one. */
    method DeviceSearch(prev: Option<SearchState>, onlyAlarming: bool)
      returns (r: Result<Option<(Address, SearchState)>>)
      modifies this
      ensures (r, Now()) == Pass(bus, old(Now()), prev, onlyAlarming)
    {
      if prev.Some? && prev.value.discrepancies == 0 {
        return Ok(None);
      }
      var reset := Reset();
      if reset.Err? {
        return Err(reset.error);
      }
      if !reset.value {
        return Ok(None);
      }
      if onlyAlarming {
        WriteByte(SEARCH_ALARM);
      } else {
        WriteByte(SEARCH_NORMAL);
      }
      r := WalkTree(prev);
    }

    /** `devices`: an iterator over the devices on this bus. */
    method Devices(onlyAlarming: bool) returns (it: DeviceSearch<W>)
      ensures fresh(it) && it.onewire == this && it.onlyAlarming == onlyAlarming
      ensures it.Fields() == Fresh
    {
      it := new DeviceSearch(this, onlyAlarming);
    }
  }

  /** `DeviceSearch`: the iterator `devices` returns. */
  class DeviceSearch<W> {
    const onewire: OneWire<W>
    const onlyAlarming: bool
    var state: Option<SearchState>
    var finished: bool

    /** The fields `next` updates. */
    ghost function Fields(): Cursor
      reads this
    {
      Cursor(state, finished)
    }

    constructor (onewire: OneWire<W>, onlyAlarming: bool)
      ensures this.onewire == onewire && this.onlyAlarming == onlyAlarming
      ensures Fields() == Fresh
    {
      this.onewire := onewire;
      this.onlyAlarming := onlyAlarming;
      this.state := None;
      this.finished := false;
    }

    /** `next`. */
    method Next() returns (item: Option<Result<Address>>)
      modifies this, onewire
      ensures (item, Fields(), onewire.Now())
           == Search.Next(onewire.bus, old(onewire.Now()), old(Fields()), onlyAlarming)
    {
      if finished {
        return None;
      }
      var result := onewire.DeviceSearch(state, onlyAlarming);
      match result {
        case Ok(Some((address, st))) =>
          state := Some(st);
          return Some(Ok(address));
        case Ok(None) =>
          state := None;
          finished := true;
          return None;
        case Err(e) =>
          state := None;
          finished := true;
          return Some(Err(e));
      }
    }
  }
}
