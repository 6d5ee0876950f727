/** The search of module Search run against the devices of module Population. Every slot
    the driver produces is answered as the selected devices dictate, so a whole pass
    computes a function of sets of addresses (`Searched`, `SearchAmong`) and leaves the
    population as it was, with the line quiet. */
module SearchOnBus {
  import opened Errors
  import opened Addresses
  import opened Wire
  import opened Search
  import opened Population

  // ----- the search on sets of addresses ----------------------------------------------

  /** Discovery on the set level: at bit `i` the devices of `s` answer whether any has a 0
      and whether any has a 1, and those whose bit differs from the chosen one drop out. */
  function Descend(s: set<bv64>, i: bv8, st: SearchState): Result<SearchState>
    requires i <= 64
    decreases 64 - i as int
  {
    if i == 64 then Ok(st)
    else
      match Choose(HasZero(s, i), HasOne(s, i), i, st)
      case Err(e) => Err(e)
      case Ok((chosen, next)) => Descend(Keep(s, i, chosen), i + 1, next)
  }

  /** The selection left from `s` after following the bits `i .. k` of `a`. */
  function Along(s: set<bv64>, a: bv64, i: bv8, k: BitIndex): set<bv64>
    requires i <= k
    decreases k as int - i as int
  {
    if i == k then s else Along(Keep(s, i, Bit(a, i)), a, i + 1, k)
  }

  /** A pass after the search command, on the set level, among the selected devices `q`:
      the first pass descends from bit 0; a resumed pass follows the previous path up to
      its last discrepancy, fails unless both branches are still present there, and
      otherwise descends along the 1 branch. */
  function Searched(q: set<bv64>, prev: Option<SearchState>): Result<Option<(Address, SearchState)>> {
    if prev.None? then Gate(Descend(q, 0, SearchState(0, 0, 0)))
    else
      var p := prev.value;
      var k := p.lastDiscrepancyIndex;
      var t := Along(q, p.address, 0, k);
      if !(HasZero(t, k) && HasOne(t, k)) then Err(UnexpectedResponse)
      else Gate(Descend(Keep(t, k, true), k + 1, Restart(p)))
  }

  /** `device_search` on the set level: the end of the search after the last address or
      when no device is present, and otherwise `Searched` among the devices the search
      command selects. */
  function SearchAmong(present: set<bv64>, alarming: set<bv64>, prev: Option<SearchState>, onlyAlarming: bool)
    : Result<Option<(Address, SearchState)>>
  {
    if prev.Some? && prev.value.discrepancies == 0 then Ok(None)
    else if present == {} then Ok(None)
    else Searched(Participants(present, alarming, onlyAlarming), prev)
  }

  lemma DescendStep(s: set<bv64>, i: BitIndex, st: SearchState)
    requires Choose(HasZero(s, i), HasOne(s, i), i, st).Ok?
    ensures var (v, next) := Choose(HasZero(s, i), HasOne(s, i), i, st).value;
      Descend(s, i, st) == Descend(Keep(s, i, v), i + 1, next)
      && next.address == SetBit(st.address, i, v)
  {}

  /** Discovery on the set level promises what discovery on any wire does. */
  lemma {:induction false} DescendDiscovered(s: set<bv64>, i: bv8, st: SearchState)
    requires i <= 64 && Clear(st.discrepancies, i, 64)
    ensures var r := Descend(s, i, st);
      (r.Err? ==> r.error == UnexpectedResponse) && (r.Ok? ==> Discovered(st, i, r.value))
    decreases 64 - i as int
  {
    if i == 64 {
      DiscoveredAtEnd(st);
    } else {
      var z, o := HasZero(s, i), HasOne(s, i);
      if Choose(z, o, i, st).Ok? {
        var (v, next) := Choose(z, o, i, st).value;
        DescendStep(s, i, st);
        ChooseKeepsClear(z, o, i, st);
        DescendDiscovered(Keep(s, i, v), i + 1, next);
        var r := Descend(Keep(s, i, v), i + 1, next);
        if r.Ok? {
          ComposeDiscovered(r.value, next, st, z, o, i);
        }
      }
    }
  }

  // ----- the slots of a pass on the wire ----------------------------------------------

  /** One turn of the discovery loop on the wire: the devices answer as the set level
      says, and those whose bit differs from the chosen one drop out. */
  lemma DiscoverBitOnBus(l: Line<Devices>, s: set<bv64>, i: BitIndex, st: SearchState)
    requires Quiet(l.world) && l.world.mode == Searching(s, i, FirstRead)
    ensures var (r, l') := DiscoverBit(Bus, l, i, st);
      var c := Choose(HasZero(s, i), HasOne(s, i), i, st);
      (c.Err? ==> r == Err(c.error) && Same(l.world, l'.world))
      && (c.Ok? ==> r == Ok(c.value.1) && Settled(l.world, l'.world, SearchMode(Keep(s, i, c.value.0), i + 1)))
  {
    ReadFirst(l, s, i);
    var l1 := ReadBit(Bus, l).1;
    ReadSecond(l1, s, i);
    var l2 := ReadBit(Bus, l1).1;
    var c := Choose(HasZero(s, i), HasOne(s, i), i, st);
    if c.Ok? {
      WriteDirection(l2, s, i, c.value.0);
    }
  }

  /** The discovery loop on the wire computes `Descend` of the devices still selected. */
  lemma {:induction false} DiscoverOnBus(l: Line<Devices>, s: set<bv64>, i: bv8, st: SearchState)
    requires i <= 64 && Quiet(l.world) && l.world.mode == SearchMode(s, i)
    ensures Discover(Bus, l, i, st).0 == Descend(s, i, st)
    ensures Same(l.world, Discover(Bus, l, i, st).1.world)
    decreases 64 - i as int
  {
    if i < 64 {
      DiscoverStep(Bus, l, i, st);
      DiscoverBitOnBus(l, s, i, st);
      var c := Choose(HasZero(s, i), HasOne(s, i), i, st);
      if c.Ok? {
        DiscoverOnBus(DiscoverBit(Bus, l, i, st).1, Keep(s, i, c.value.0), i + 1, c.value.1);
      }
    }
  }

  /** One turn of the replay loop on the wire: the devices off the previous path drop
      out. */
  lemma ReplayBitOnBus(l: Line<Devices>, s: set<bv64>, prev: SearchState, i: BitIndex, last: BitIndex)
    requires Quiet(l.world) && l.world.mode == Searching(s, i, FirstRead)
    ensures Settled(l.world, ReplayBit(Bus, l, prev, i, last).1.world,
      SearchMode(Keep(s, i, Bit(prev.address, i)), i + 1))
  {
    ReadFirst(l, s, i);
    var l1 := ReadBit(Bus, l).1;
    ReadSecond(l1, s, i);
    WriteDirection(ReadBit(Bus, l1).1, s, i, Bit(prev.address, i));
  }

  /** The replay loop on the wire leaves selected the devices on the previous path up to
      the previous last discrepancy. */
  lemma {:induction false} ReplayOnBus(l: Line<Devices>, s: set<bv64>, prev: SearchState, i: bv8, last: BitIndex)
    requires i <= prev.lastDiscrepancyIndex
    requires Quiet(l.world) && l.world.mode == Searching(s, i, FirstRead)
    ensures var k := prev.lastDiscrepancyIndex;
      Settled(l.world, Replay(Bus, l, prev, i, last).1.world, Searching(Along(s, prev.address, i, k), k, FirstRead))
    decreases prev.lastDiscrepancyIndex as int - i as int
  {
    if i < prev.lastDiscrepancyIndex {
      ReplayStep(Bus, l, prev, i, last);
      ReplayBitOnBus(l, s, prev, i, last);
      var last1 := ReplayBit(Bus, l, prev, i, last).0;
      var l1 := ReplayBit(Bus, l, prev, i, last).1;
      ReplayOnBus(l1, Keep(s, i, Bit(prev.address, i)), prev, i + 1, last1);
    }
  }

  /** The switch on the wire: it goes on exactly when both branches are still present at
      the previous last discrepancy, and then keeps the devices on the 1 branch. */
  lemma SwitchOnBus(l: Line<Devices>, s: set<bv64>, prev: SearchState)
    requires Quiet(l.world) && l.world.mode == Searching(s, prev.lastDiscrepancyIndex, FirstRead)
    ensures var (r, l') := Switch(Bus, l, prev);
      var k := prev.lastDiscrepancyIndex;
      Same(l.world, l'.world) && (r.Ok? <==> HasZero(s, k) && HasOne(s, k))
      && (r.Ok? ==> l'.world.mode == SearchMode(Keep(s, k, true), k + 1))
  {
    var k := prev.lastDiscrepancyIndex;
    ReadFirst(l, s, k);
    var l1 := ReadBit(Bus, l).1;
    ReadSecond(l1, s, k);
    if HasZero(s, k) && HasOne(s, k) {
      WriteDirection(ReadBit(Bus, l1).1, s, k, true);
    }
  }

  /** Replay and switch on the wire: the switch fails exactly when one branch is missing
      at the previous last discrepancy; otherwise discovery resumes from `Restart` with
      the devices on its path selected. */
  lemma ResumeOnBus(l: Line<Devices>, s: set<bv64>, prev: SearchState)
    requires Quiet(l.world) && l.world.mode == Searching(s, 0, FirstRead)
    ensures var (r, l') := Resume(Bus, l, prev);
      var k := prev.lastDiscrepancyIndex;
      var t := Along(s, prev.address, 0, k);
      Same(l.world, l'.world) && (r.Ok? <==> HasZero(t, k) && HasOne(t, k))
      && (r.Err? ==> r.error == UnexpectedResponse)
      && (r.Ok? ==> r.value == Restart(prev) && l'.world.mode == SearchMode(Keep(t, k, true), k + 1))
  {
    ReplayOnBus(l, s, prev, 0, 0);
    ReplayLast(Bus, l, prev, 0, 0);
    SwitchOnBus(Replay(Bus, l, prev, 0, 0).1, Along(s, prev.address, 0, prev.lastDiscrepancyIndex), prev);
  }

  lemma WalkFirstStep<W>(bus: Responder<W>, l: Line<W>)
    ensures Walk(bus, l, None)
         == (Gate(Discover(bus, l, 0, SearchState(0, 0, 0)).0), Discover(bus, l, 0, SearchState(0, 0, 0)).1)
  {}

  lemma WalkResumedStep<W>(bus: Responder<W>, l: Line<W>, prev: SearchState)
    ensures var (start, l1) := Resume(bus, l, prev);
      var from := prev.lastDiscrepancyIndex + 1;
      Walk(bus, l, Some(prev))
        == if start.Err? then (Err(start.error), l1)
           else (Gate(Discover(bus, l1, from, start.value).0), Discover(bus, l1, from, start.value).1)
  {}

  /** The first pass after the search command, on the wire, computes `Searched`. */
  lemma WalkFirstOnBus(l: Line<Devices>, s: set<bv64>)
    requires Quiet(l.world) && l.world.mode == Searching(s, 0, FirstRead)
    ensures Walk(Bus, l, None).0 == Searched(s, None)
    ensures Same(l.world, Walk(Bus, l, None).1.world)
  {
    WalkFirstStep(Bus, l);
    DiscoverOnBus(l, s, 0, SearchState(0, 0, 0));
  }

  /** ... and so does a resumed pass. */
  lemma WalkResumedOnBus(l: Line<Devices>, s: set<bv64>, prev: SearchState)
    requires Quiet(l.world) && l.world.mode == Searching(s, 0, FirstRead)
    ensures Walk(Bus, l, Some(prev)).0 == Searched(s, Some(prev))
    ensures Same(l.world, Walk(Bus, l, Some(prev)).1.world)
  {
    WalkResumedStep(Bus, l, prev);
    ResumeOnBus(l, s, prev);
    var start := Resume(Bus, l, prev).0;
    var l1 := Resume(Bus, l, prev).1;
    if start.Ok? {
      var k: bv8 := prev.lastDiscrepancyIndex;
      DiscoverOnBus(l1, Keep(Along(s, prev.address, 0, k), k, true), k + 1, start.value);
    }
  }

  /** Everything after the search command, on the wire, computes `Searched`. */
  lemma WalkOnBus(l: Line<Devices>, s: set<bv64>, prev: Option<SearchState>)
    requires Quiet(l.world) && l.world.mode == Searching(s, 0, FirstRead)
    ensures Walk(Bus, l, prev).0 == Searched(s, prev)
    ensures Same(l.world, Walk(Bus, l, prev).1.world)
  {
    if prev.None? {
      WalkFirstOnBus(l, s);
    } else {
      WalkResumedOnBus(l, s, prev.value);
    }
  }

  /** `device_search` on this wire computes `SearchAmong` and leaves the population as it
      was, with the line quiet. */
  lemma PassOnBus(l: Line<Devices>, prev: Option<SearchState>, onlyAlarming: bool)
    requires Quiet(l.world)
    ensures var w := l.world;
      Pass(Bus, l, prev, onlyAlarming).0 == SearchAmong(w.present, w.alarming, prev, onlyAlarming)
    ensures Same(l.world, Pass(Bus, l, prev, onlyAlarming).1.world)
  {
    if !(prev.Some? && prev.value.discrepancies == 0) {
      ResetOnBus(l);
      var l1 := Reset(Bus, l).1;
      if l.world.present != {} {
        SearchCommandOnBus(l1, onlyAlarming);
        var w := l.world;
        WalkOnBus(WriteByte(Bus, l1, SearchCommand(onlyAlarming)), Participants(w.present, w.alarming, onlyAlarming), prev);
      }
    }
  }

  // ----- the iterator on the wire -----------------------------------------------------

  /** `DeviceSearch::next` on the set level: the item yielded and the new fields. */
  function NextAmong(present: set<bv64>, alarming: set<bv64>, c: Cursor, onlyAlarming: bool)
    : (Option<Result<Address>>, Cursor)
  {
    if c.finished then (None, c)
    else Advance(SearchAmong(present, alarming, c.state, onlyAlarming))
  }

  /** `n` calls of `next` in a row on the set level: the items yielded and the fields
      after. */
  function RunAmong(present: set<bv64>, alarming: set<bv64>, c: Cursor, onlyAlarming: bool, n: nat)
    : (r: (seq<Option<Result<Address>>>, Cursor))
    ensures |r.0| == n
    decreases n
  {
    if n == 0 then ([], c)
    else
      var (item, c1) := NextAmong(present, alarming, c, onlyAlarming);
      var rest := RunAmong(present, alarming, c1, onlyAlarming, n - 1);
      ([item] + rest.0, rest.1)
  }

  /** One call of `next` on this wire is `NextAmong` and leaves the population as it was,
      with the line quiet. */
  lemma NextOnBus(l: Line<Devices>, c: Cursor, onlyAlarming: bool)
    requires Quiet(l.world)
    ensures var (item, c', l') := Next(Bus, l, c, onlyAlarming);
      (item, c') == NextAmong(l.world.present, l.world.alarming, c, onlyAlarming) && Same(l.world, l'.world)
  {
    if !c.finished {
      PassOnBus(l, c.state, onlyAlarming);
    }
  }

  lemma RunStep<W>(bus: Responder<W>, l: Line<W>, c: Cursor, onlyAlarming: bool, n: nat)
    requires n > 0
    ensures var (item, c1, l1) := Next(bus, l, c, onlyAlarming);
      var rest := Run(bus, l1, c1, onlyAlarming, n - 1);
      Run(bus, l, c, onlyAlarming, n) == ([item] + rest.0, rest.1, rest.2)
  {}

  /** `n` calls of `next` on this wire are `RunAmong`. */
  lemma {:induction false} RunOnBus(l: Line<Devices>, c: Cursor, onlyAlarming: bool, n: nat)
    requires Quiet(l.world)
    ensures var run := Run(Bus, l, c, onlyAlarming, n);
      (run.0, run.1) == RunAmong(l.world.present, l.world.alarming, c, onlyAlarming, n)
    decreases n
  {
    if n > 0 {
      RunStep(Bus, l, c, onlyAlarming, n);
      NextOnBus(l, c, onlyAlarming);
      var (item, c1, l1) := Next(Bus, l, c, onlyAlarming);
      RunOnBus(l1, c1, onlyAlarming, n - 1);
    }
  }
}
