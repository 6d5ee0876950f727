/** The ROM search of `device_search` (src/lib.rs:253-359) and the iterator that drives it
    (src/lib.rs:362-401), as functions of the line in the style of module Wire.

    A search pass walks the binary tree of 64-bit addresses from bit 0 upwards. At every
    bit the master reads two slots: the first is low when some still-selected device has
    a 0 there, the second when some has a 1. It then writes the bit it chooses, which
    deselects the devices that disagree. Where both answers come (a discrepancy) it takes
    the 0 branch and remembers the position, so that the next pass can replay the path up
    to the last such position and take the 1 branch there. */
module Search {
  import opened Errors
  import opened Addresses
  import opened Commands
  import opened Crc
  import opened Wire

  /** `SearchState`: the address found last, the bit positions where both branches were
      present and the 0 branch was taken, and the highest of those positions. The same
      three values are the variables the loops of `device_search` update. */
  datatype SearchState = SearchState(address: bv64, discrepancies: bv64, lastDiscrepancyIndex: BitIndex)

  /** No bit of `d` at a position in `from .. to` is set. */
  ghost predicate Clear(d: bv64, from: bv8, to: bv8) {
    forall j: BitIndex :: from <= j < to ==> !Bit(d, j)
  }

  /** The index names the highest discrepancy, unless there is none. */
  ghost predicate WellFormed(st: SearchState) {
    st.discrepancies == 0
    || (Bit(st.discrepancies, st.lastDiscrepancyIndex)
        && Clear(st.discrepancies, st.lastDiscrepancyIndex + 1, 64))
  }

  /** At every discrepancy the address took the 0 branch. */
  ghost predicate ZeroAtForks(st: SearchState) {
    forall j: BitIndex :: Bit(st.discrepancies, j) ==> !Bit(st.address, j)
  }

  // ----- one bit of discovery ---------------------------------------------------------

  /** The decision at bit `i` of the discovery loop, from whether some device answered that
      it has a 0 there (`falseBit`) and whether some device answered that it has a 1
      (`trueBit`): no answer is an error, a single answer is followed, and two answers are
      a discrepancy, resolved towards 0 and recorded. The result is the chosen bit and the
      updated loop variables. */
  function Choose(falseBit: bool, trueBit: bool, i: BitIndex, st: SearchState)
    : (r: Result<(bool, SearchState)>)
    ensures r.Err? <==> !falseBit && !trueBit
    ensures r.Err? ==> r.error == UnexpectedResponse
    ensures r.Ok? ==> r.value.0 == !falseBit
  {
    match (falseBit, trueBit)
    case (false, false) => Err(UnexpectedResponse)
    case (false, true) => Ok((true, st.(address := SetBit(st.address, i, true))))
    case (true, false) => Ok((false, st.(address := SetBit(st.address, i, false))))
    case (true, true) =>
      Ok((false, SearchState(SetBit(st.address, i, false), st.discrepancies | Mask(i), i)))
  }

  /** The body of the discovery loop at bit `i`: two read slots, the decision, and the write
      slot of the chosen bit. */
  function DiscoverBit<W>(bus: Responder<W>, l: Line<W>, i: BitIndex, st: SearchState)
    : (Result<SearchState>, Line<W>)
  {
    var falseBit := !ReadBit(bus, l).0;
    var l1 := ReadBit(bus, l).1;
    var trueBit := !ReadBit(bus, l1).0;
    var l2 := ReadBit(bus, l1).1;
    match Choose(falseBit, trueBit, i, st)
    case Err(e) => (Err(e), l2)
    case Ok((chosen, next)) => (Ok(next), WriteBit(bus, l2, chosen))
  }

  /** The discovery loop from bit `i` to bit 63. */
  function Discover<W>(bus: Responder<W>, l: Line<W>, i: bv8, st: SearchState)
    : (Result<SearchState>, Line<W>)
    requires i <= 64
    decreases 64 - i as int
  {
    if i == 64 then (Ok(st), l)
    else
      var r := DiscoverBit(bus, l, i, st).0;
      var l1 := DiscoverBit(bus, l, i, st).1;
      if r.Err? then (r, l1) else Discover(bus, l1, i + 1, r.value)
  }

  // ----- resuming -------------------------------------------------------------------

  /** The body of the replay loop at bit `i`: two read slots whose levels are ignored, then
      the bit the previous address took. A discrepancy recorded at `i` becomes the current
      candidate for the last one. */
  function ReplayBit<W>(bus: Responder<W>, l: Line<W>, prev: SearchState, i: BitIndex, last: BitIndex)
    : (BitIndex, Line<W>)
  {
    var l1 := ReadBit(bus, l).1;
    var l2 := ReadBit(bus, l1).1;
    var last' := if Bit(prev.discrepancies, i) then i else last;
    (last', WriteBit(bus, l2, Bit(prev.address, i)))
  }

  /** The replay loop from bit `i` up to, not including, the previous last discrepancy. */
  function Replay<W>(bus: Responder<W>, l: Line<W>, prev: SearchState, i: bv8, last: BitIndex)
    : (BitIndex, Line<W>)
    requires i <= prev.lastDiscrepancyIndex
    decreases prev.lastDiscrepancyIndex as int - i as int
  {
    if i == prev.lastDiscrepancyIndex then (last, l)
    else
      var last' := ReplayBit(bus, l, prev, i, last).0;
      var l1 := ReplayBit(bus, l, prev, i, last).1;
      Replay(bus, l1, prev, i + 1, last')
  }

  /** The switch at the previous last discrepancy: both branches must still answer; then the
      1 branch is taken this time. */
  function Switch<W>(bus: Responder<W>, l: Line<W>, prev: SearchState): (Result<bv64>, Line<W>) {
    var falseBit := !ReadBit(bus, l).0;
    var l1 := ReadBit(bus, l).1;
    var trueBit := !ReadBit(bus, l1).0;
    var l2 := ReadBit(bus, l1).1;
    if !(falseBit && trueBit) then (Err(UnexpectedResponse), l2)
    else (Ok(prev.address | Mask(prev.lastDiscrepancyIndex)), WriteBit(bus, l2, true))
  }

  /** Replay and switch: the loop variables discovery continues from, which keep every
      discrepancy except the last one. */
  function Resume<W>(bus: Responder<W>, l: Line<W>, prev: SearchState): (Result<SearchState>, Line<W>) {
    var last := Replay(bus, l, prev, 0, 0).0;
    var l1 := Replay(bus, l, prev, 0, 0).1;
    var switched := Switch(bus, l1, prev).0;
    var l2 := Switch(bus, l1, prev).1;
    if switched.Err? then (Err(switched.error), l2)
    else
      var discrepancies := prev.discrepancies & !Mask(prev.lastDiscrepancyIndex);
      (Ok(SearchState(switched.value, discrepancies, last)), l2)
  }

  // ----- a whole pass ---------------------------------------------------------------

  /** The ROM command that starts a search. */
  function SearchCommand(onlyAlarming: bool): bv8 {
    if onlyAlarming then SEARCH_ALARM else SEARCH_NORMAL
  }

  /** The CRC gate at the end of a pass: a discovered address is returned only when its
      little-endian bytes pass the CRC check. */
  function Gate(found: Result<SearchState>): (r: Result<Option<(Address, SearchState)>>)
    ensures found.Err? ==> r == Err(found.error)
    ensures found.Ok? ==> (r.Ok? <==> Crc8(LeBytes(found.value.address)) == 0)
    ensures found.Ok? && r.Err? ==> r.error == CrcMismatch
    ensures r.Ok? ==> found.Ok? && r.value == Some((Address(found.value.address), found.value))
  {
    if found.Err? then Err(found.error)
    else
      var check := CheckCrc8(LeBytes(found.value.address));
      if check.Err? then Err(check.error)
      else Ok(Some((Address(found.value.address), found.value)))
  }

  /** Everything after the search command: replay and switch when resuming, discovery up to
      bit 63, then the CRC gate. */
  function Walk<W>(bus: Responder<W>, l: Line<W>, prev: Option<SearchState>)
    : (Result<Option<(Address, SearchState)>>, Line<W>)
  {
    var start := if prev.Some? then Resume(bus, l, prev.value).0 else Ok(SearchState(0, 0, 0));
    var l1 := if prev.Some? then Resume(bus, l, prev.value).1 else l;
    if start.Err? then (Err(start.error), l1)
    else
      var from: bv8 := if prev.Some? then prev.value.lastDiscrepancyIndex + 1 else 0;
      var found := Discover(bus, l1, from, start.value).0;
      var l2 := Discover(bus, l1, from, start.value).1;
      (Gate(found), l2)
  }

  /** `device_search`: one pass of the search, resuming from `prev` when there is one. */
  function Pass<W>(bus: Responder<W>, l: Line<W>, prev: Option<SearchState>, onlyAlarming: bool)
    : (Result<Option<(Address, SearchState)>>, Line<W>)
  {
    if prev.Some? && prev.value.discrepancies == 0 then (Ok(None), l)
    else
      var reset := Reset(bus, l).0;
      var l1 := Reset(bus, l).1;
      if reset.Err? then (Err(reset.error), l1)
      else if !reset.value then (Ok(None), l1)
      else Walk(bus, WriteByte(bus, l1, SearchCommand(onlyAlarming)), prev)
  }

  // ----- the iterator ---------------------------------------------------------------

  /** The fields of `DeviceSearch` that `next` updates. */
  datatype Cursor = Cursor(state: Option<SearchState>, finished: bool)

  /** `devices`: an iterator that has neither searched nor finished. */
  const Fresh: Cursor := Cursor(None, false)

  /** What `next` makes of a pass: the address is yielded and the state kept; the end of
      the search finishes the iterator; an error is yielded and finishes it too. */
  function Advance(r: Result<Option<(Address, SearchState)>>): (Option<Result<Address>>, Cursor) {
    match r
    case Ok(Some((address, st))) => (Some(Ok(address)), Cursor(Some(st), false))
    case Ok(None) => (None, Cursor(None, true))
    case Err(e) => (Some(Err(e)), Cursor(None, true))
  }

  /** `DeviceSearch::next`: the item yielded, the new fields, and the line after. */
  function Next<W>(bus: Responder<W>, l: Line<W>, c: Cursor, onlyAlarming: bool)
    : (Option<Result<Address>>, Cursor, Line<W>)
  {
    if c.finished then (None, c, l)
    else
      var r := Pass(bus, l, c.state, onlyAlarming).0;
      var l1 := Pass(bus, l, c.state, onlyAlarming).1;
      (Advance(r).0, Advance(r).1, l1)
  }

  // ----- what one bit of discovery does ---------------------------------------------

  /** The per-bit cases, for the address: the chosen bit is written at `i` and nowhere
      else. */
  lemma ChooseAddress(falseBit: bool, trueBit: bool, i: BitIndex, st: SearchState, j: BitIndex)
    requires Choose(falseBit, trueBit, i, st).Ok?
    ensures Bit(Choose(falseBit, trueBit, i, st).value.1.address, j)
         == (if j == i then !falseBit else Bit(st.address, j))
  {
    BitOfSetBit(st.address, i, !falseBit, j);
  }

  /** ... and for the discrepancies: bit `i` is added exactly when both branches answered,
      and then `i` becomes the last discrepancy. */
  lemma ChooseDiscrepancies(falseBit: bool, trueBit: bool, i: BitIndex, st: SearchState, j: BitIndex)
    requires Choose(falseBit, trueBit, i, st).Ok?
    ensures Bit(Choose(falseBit, trueBit, i, st).value.1.discrepancies, j)
         <==> (j == i && falseBit && trueBit) || Bit(st.discrepancies, j)
    ensures Choose(falseBit, trueBit, i, st).value.1.lastDiscrepancyIndex
         == (if falseBit && trueBit then i else st.lastDiscrepancyIndex)
  {
    if falseBit && trueBit {
      BitOfSet(st.discrepancies, i, j);
    }
  }

  lemma DiscoverStep<W>(bus: Responder<W>, l: Line<W>, i: bv8, st: SearchState)
    requires i < 64
    ensures var (r, l1) := DiscoverBit(bus, l, i, st);
      Discover(bus, l, i, st) == if r.Err? then (r, l1) else Discover(bus, l1, i + 1, r.value)
  {}

  /** What one turn of the discovery loop at bit `i` changes, from the levels it read. */
  lemma DiscoverBitFacts<W>(bus: Responder<W>, l: Line<W>, i: BitIndex, st: SearchState)
    ensures var r := DiscoverBit(bus, l, i, st).0;
      var falseBit := !ReadBit(bus, l).0;
      var trueBit := !ReadBit(bus, ReadBit(bus, l).1).0;
      (r.Err? <==> !falseBit && !trueBit)
      && (r.Err? ==> r.error == UnexpectedResponse)
      && (r.Ok? ==> r.value == Choose(falseBit, trueBit, i, st).value.1)
  {}

  // ----- what discovery does ----------------------------------------------------------

  /** What discovery from bit `i` promises about the loop variables `res` it ends with,
      started from `st`: nothing below `i` changes; every discrepancy from `i` on took the
      0 branch; and either no discrepancy was found from `i` on and the index is kept, or
      the index names the highest discrepancy, found at or after `i`. */
  ghost predicate Discovered(st: SearchState, i: bv8, res: SearchState)
    requires i <= 64
  {
    Agree(res.address, st.address, i)
    && Agree(res.discrepancies, st.discrepancies, i)
    && (forall j: BitIndex :: i <= j && Bit(res.discrepancies, j) ==> !Bit(res.address, j))
    && ((Clear(res.discrepancies, i, 64) && res.lastDiscrepancyIndex == st.lastDiscrepancyIndex)
        || (i <= res.lastDiscrepancyIndex && Bit(res.discrepancies, res.lastDiscrepancyIndex)
            && Clear(res.discrepancies, res.lastDiscrepancyIndex + 1, 64)))
  }

  lemma ChooseKeepsClear(falseBit: bool, trueBit: bool, i: BitIndex, st: SearchState)
    requires Choose(falseBit, trueBit, i, st).Ok? && Clear(st.discrepancies, i, 64)
    ensures Clear(Choose(falseBit, trueBit, i, st).value.1.discrepancies, i + 1, 64)
  {
    var next := Choose(falseBit, trueBit, i, st).value.1;
    forall j: BitIndex | i + 1 <= j
      ensures !Bit(next.discrepancies, j)
    {
      ChooseDiscrepancies(falseBit, trueBit, i, st, j);
    }
  }

  lemma ComposeAgree(res: SearchState, next: SearchState, st: SearchState, falseBit: bool, trueBit: bool, i: BitIndex)
    requires Choose(falseBit, trueBit, i, st).Ok? && next == Choose(falseBit, trueBit, i, st).value.1
    requires Agree(res.address, next.address, i + 1) && Agree(res.discrepancies, next.discrepancies, i + 1)
    ensures Agree(res.address, st.address, i) && Agree(res.discrepancies, st.discrepancies, i)
  {
    forall j: BitIndex | j < i
      ensures Bit(res.address, j) == Bit(st.address, j)
      ensures Bit(res.discrepancies, j) == Bit(st.discrepancies, j)
    {
      ChooseAddress(falseBit, trueBit, i, st, j);
      ChooseDiscrepancies(falseBit, trueBit, i, st, j);
    }
  }

  lemma ComposeForks(res: SearchState, next: SearchState, st: SearchState, falseBit: bool, trueBit: bool, i: BitIndex)
    requires Choose(falseBit, trueBit, i, st).Ok? && next == Choose(falseBit, trueBit, i, st).value.1
    requires Agree(res.address, next.address, i + 1) && Agree(res.discrepancies, next.discrepancies, i + 1)
    requires forall j: BitIndex :: i + 1 <= j && Bit(res.discrepancies, j) ==> !Bit(res.address, j)
    requires Clear(st.discrepancies, i, 64)
    ensures forall j: BitIndex :: i <= j && Bit(res.discrepancies, j) ==> !Bit(res.address, j)
  {
    ChooseAddress(falseBit, trueBit, i, st, i);
    ChooseDiscrepancies(falseBit, trueBit, i, st, i);
    assert Bit(res.address, i) == Bit(next.address, i);
    assert Bit(res.discrepancies, i) == Bit(next.discrepancies, i);
  }

  lemma ComposeLast(res: SearchState, next: SearchState, st: SearchState, falseBit: bool, trueBit: bool, i: BitIndex)
    requires Choose(falseBit, trueBit, i, st).Ok? && next == Choose(falseBit, trueBit, i, st).value.1
    requires Agree(res.discrepancies, next.discrepancies, i + 1)
    requires Clear(st.discrepancies, i, 64)
    requires (Clear(res.discrepancies, i + 1, 64) && res.lastDiscrepancyIndex == next.lastDiscrepancyIndex)
      || (i + 1 <= res.lastDiscrepancyIndex && Bit(res.discrepancies, res.lastDiscrepancyIndex)
          && Clear(res.discrepancies, res.lastDiscrepancyIndex + 1, 64))
    ensures (Clear(res.discrepancies, i, 64) && res.lastDiscrepancyIndex == st.lastDiscrepancyIndex)
      || (i <= res.lastDiscrepancyIndex && Bit(res.discrepancies, res.lastDiscrepancyIndex)
          && Clear(res.discrepancies, res.lastDiscrepancyIndex + 1, 64))
  {
    ChooseDiscrepancies(falseBit, trueBit, i, st, i);
    assert Bit(res.discrepancies, i) == Bit(next.discrepancies, i);
  }

  lemma ComposeDiscovered(res: SearchState, next: SearchState, st: SearchState, falseBit: bool, trueBit: bool, i: BitIndex)
    requires Choose(falseBit, trueBit, i, st).Ok? && next == Choose(falseBit, trueBit, i, st).value.1
    requires Clear(st.discrepancies, i, 64)
    requires Discovered(next, i + 1, res)
    ensures Discovered(st, i, res)
  {
    ComposeAgree(res, next, st, falseBit, trueBit, i);
    ComposeForks(res, next, st, falseBit, trueBit, i);
    ComposeLast(res, next, st, falseBit, trueBit, i);
  }

  lemma DiscoveredAtEnd(st: SearchState)
    ensures Discovered(st, 64, st)
  {}

  lemma {:induction false} DiscoverFacts<W>(bus: Responder<W>, l: Line<W>, i: bv8, st: SearchState)
    requires i <= 64 && Clear(st.discrepancies, i, 64)
    ensures var r := Discover(bus, l, i, st).0;
      (r.Err? ==> r.error == UnexpectedResponse) && (r.Ok? ==> Discovered(st, i, r.value))
    decreases 64 - i as int
  {
    if i == 64 {
      DiscoveredAtEnd(st);
    } else {
      DiscoverStep(bus, l, i, st);
      DiscoverBitFacts(bus, l, i, st);
      var r1 := DiscoverBit(bus, l, i, st).0;
      var l1 := DiscoverBit(bus, l, i, st).1;
      if r1.Ok? {
        var falseBit := !ReadBit(bus, l).0;
        var trueBit := !ReadBit(bus, ReadBit(bus, l).1).0;
        var next := r1.value;
        ChooseKeepsClear(falseBit, trueBit, i, st);
        DiscoverFacts(bus, l1, i + 1, next);
        var r := Discover(bus, l1, i + 1, next).0;
        if r.Ok? {
          ComposeDiscovered(r.value, next, st, falseBit, trueBit, i);
        }
      }
    }
  }

  // ----- what resuming does -----------------------------------------------------------

  lemma ReplayStep<W>(bus: Responder<W>, l: Line<W>, prev: SearchState, i: bv8, last: BitIndex)
    requires i < prev.lastDiscrepancyIndex
    ensures var (last', l1) := ReplayBit(bus, l, prev, i, last);
      Replay(bus, l, prev, i, last) == Replay(bus, l1, prev, i + 1, last')
  {}

  /** What the replay loop from bit `i` with candidate `last` ends with: the highest
      discrepancy of `d` in `i .. k`, or `last` itself when there is none. */
  ghost predicate Replayed(d: bv64, k: BitIndex, i: bv8, last: BitIndex, last': BitIndex) {
    (last' == last && Clear(d, i, k)) || (i <= last' < k && Bit(d, last') && Clear(d, last' + 1, k))
  }

  lemma ReplayCompose(d: bv64, k: BitIndex, i: BitIndex, last: BitIndex, last': BitIndex)
    requires i < k && Replayed(d, k, i + 1, if Bit(d, i) then i else last, last')
    ensures Replayed(d, k, i, last, last')
  {
    if !Bit(d, i) && last' == last && Clear(d, i + 1, k) {
      assert Clear(d, i, k);
    }
  }

  /** The candidate the replay loop from bit `i` ends with, below `k`: it depends on the
      previous discrepancies `d` only, not on what the devices answer. */
  function LastBelow(d: bv64, i: bv8, k: BitIndex, last: BitIndex): BitIndex
    requires i <= k
    decreases k as int - i as int
  {
    if i == k then last else LastBelow(d, i + 1, k, if Bit(d, i) then i else last)
  }

  lemma {:induction false} ReplayLast<W>(bus: Responder<W>, l: Line<W>, prev: SearchState, i: bv8, last: BitIndex)
    requires i <= prev.lastDiscrepancyIndex
    ensures Replay(bus, l, prev, i, last).0 == LastBelow(prev.discrepancies, i, prev.lastDiscrepancyIndex, last)
    decreases prev.lastDiscrepancyIndex as int - i as int
  {
    if i < prev.lastDiscrepancyIndex {
      ReplayStep(bus, l, prev, i, last);
      var last1 := ReplayBit(bus, l, prev, i, last).0;
      var l1 := ReplayBit(bus, l, prev, i, last).1;
      ReplayLast(bus, l1, prev, i + 1, last1);
    }
  }

  /** `LastBelow` is the highest discrepancy in `i .. k`, or `last` when there is none. */
  lemma {:induction false} LastBelowFacts(d: bv64, i: bv8, k: BitIndex, last: BitIndex)
    requires i <= k
    ensures Replayed(d, k, i, last, LastBelow(d, i, k, last))
    decreases k as int - i as int
  {
    if i < k {
      var last1 := if Bit(d, i) then i else last;
      var r := LastBelow(d, i + 1, k, last1);
      assert LastBelow(d, i, k, last) == r;
      LastBelowFacts(d, i + 1, k, last1);
      ReplayCompose(d, k, i, last, r);
    }
  }

  /** The replay loop from bit `i` ends with the highest discrepancy below the previous last
      one, or with the index it started from when there is none from `i` on. */
  lemma ReplayFacts<W>(bus: Responder<W>, l: Line<W>, prev: SearchState, i: bv8, last: BitIndex)
    requires i <= prev.lastDiscrepancyIndex
    ensures Replayed(prev.discrepancies, prev.lastDiscrepancyIndex, i, last, Replay(bus, l, prev, i, last).0)
  {
    ReplayLast(bus, l, prev, i, last);
    LastBelowFacts(prev.discrepancies, i, prev.lastDiscrepancyIndex, last);
  }

  /** The loop variables a resumed pass continues from after a successful switch. */
  function Restart(prev: SearchState): SearchState {
    var k := prev.lastDiscrepancyIndex;
    SearchState(SetBit(prev.address, k, true), prev.discrepancies & !Mask(k), LastBelow(prev.discrepancies, 0, k, 0))
  }

  /** The loop variables discovery resumes from: the previous address with the 1 branch
      taken at the previous last discrepancy, that discrepancy dropped, and the index of the
      highest one left (0 when none is left). */
  ghost predicate Resumed(prev: SearchState, start: SearchState) {
    var k := prev.lastDiscrepancyIndex;
    start.address == prev.address | Mask(k)
    && start.discrepancies == prev.discrepancies & !Mask(k)
    && ((start.lastDiscrepancyIndex == 0 && Clear(start.discrepancies, 0, 64))
        || (start.lastDiscrepancyIndex < k && Bit(start.discrepancies, start.lastDiscrepancyIndex)
            && Clear(start.discrepancies, start.lastDiscrepancyIndex + 1, 64)))
  }

  lemma DroppedLast(prev: SearchState, j: BitIndex)
    requires WellFormed(prev) && prev.discrepancies != 0
    ensures var k := prev.lastDiscrepancyIndex;
      Bit(prev.discrepancies & !Mask(k), j) == (j < k && Bit(prev.discrepancies, j))
  {
    BitOfClear(prev.discrepancies, prev.lastDiscrepancyIndex, j);
  }

  lemma DroppedNone(prev: SearchState)
    requires WellFormed(prev) && prev.discrepancies != 0
    requires Clear(prev.discrepancies, 0, prev.lastDiscrepancyIndex)
    ensures Clear(prev.discrepancies & !Mask(prev.lastDiscrepancyIndex), 0, 64)
  {
    var d' := prev.discrepancies & !Mask(prev.lastDiscrepancyIndex);
    forall j: BitIndex
      ensures !Bit(d', j)
    {
      DroppedLast(prev, j);
    }
  }

  lemma DroppedBelow(prev: SearchState, last: BitIndex)
    requires WellFormed(prev) && prev.discrepancies != 0
    requires last < prev.lastDiscrepancyIndex
    requires Bit(prev.discrepancies, last) && Clear(prev.discrepancies, last + 1, prev.lastDiscrepancyIndex)
    ensures Bit(prev.discrepancies & !Mask(prev.lastDiscrepancyIndex), last)
    ensures Clear(prev.discrepancies & !Mask(prev.lastDiscrepancyIndex), last + 1, 64)
  {
    DroppedLast(prev, last);
    var d' := prev.discrepancies & !Mask(prev.lastDiscrepancyIndex);
    forall j: BitIndex | last + 1 <= j
      ensures !Bit(d', j)
    {
      DroppedLast(prev, j);
    }
  }

  lemma ResumedStart(prev: SearchState, last: BitIndex)
    requires WellFormed(prev) && prev.discrepancies != 0
    requires Replayed(prev.discrepancies, prev.lastDiscrepancyIndex, 0, 0, last)
    ensures var k := prev.lastDiscrepancyIndex;
      Resumed(prev, SearchState(prev.address | Mask(k), prev.discrepancies & !Mask(k), last))
  {
    var d := prev.discrepancies;
    var k := prev.lastDiscrepancyIndex;
    if last == 0 && Clear(d, 0, k) {
      DroppedNone(prev);
    } else {
      DroppedBelow(prev, last);
    }
  }

  /** The loop variables `Restart` gives are those `Resumed` describes. */
  lemma RestartResumed(prev: SearchState)
    requires WellFormed(prev) && prev.discrepancies != 0
    ensures Resumed(prev, Restart(prev))
  {
    LastBelowFacts(prev.discrepancies, 0, prev.lastDiscrepancyIndex, 0);
    ResumedStart(prev, Restart(prev).lastDiscrepancyIndex);
  }

  /** Replay and switch: the switch fails unless both branches answer at the previous last
      discrepancy; otherwise discovery resumes from the variables `Resumed` describes. */
  lemma ResumeFacts<W>(bus: Responder<W>, l: Line<W>, prev: SearchState)
    requires WellFormed(prev) && prev.discrepancies != 0
    ensures var r := Resume(bus, l, prev).0;
      var l1 := Replay(bus, l, prev, 0, 0).1;
      var falseBit := !ReadBit(bus, l1).0;
      var trueBit := !ReadBit(bus, ReadBit(bus, l1).1).0;
      (r.Err? <==> !(falseBit && trueBit))
      && (r.Err? ==> r.error == UnexpectedResponse)
      && (r.Ok? ==> r.value == Restart(prev) && Resumed(prev, r.value))
  {
    ReplayFacts(bus, l, prev, 0, 0);
    ReplayLast(bus, l, prev, 0, 0);
    var last := Replay(bus, l, prev, 0, 0).0;
    ResumedStart(prev, last);
  }

  // ----- what a pass returns ----------------------------------------------------------

  lemma ResumedBits(prev: SearchState, start: SearchState, j: BitIndex)
    requires WellFormed(prev) && prev.discrepancies != 0 && Resumed(prev, start)
    ensures var k := prev.lastDiscrepancyIndex;
      Bit(start.address, j) == (j == k || Bit(prev.address, j))
      && Bit(start.discrepancies, j) == (j < k && Bit(prev.discrepancies, j))
  {
    BitOfSet(prev.address, prev.lastDiscrepancyIndex, j);
    DroppedLast(prev, j);
  }

  lemma NoBitsIsZero(d: bv64)
    requires Clear(d, 0, 64)
    ensures d == 0
  {
    forall j: BitIndex
      ensures Bit(d, j) == Bit(0, j)
    {
      BitOfZero(j);
    }
    BitsDetermineValue(d, 0);
  }

  /** The first pass ends with well-formed variables. */
  lemma FirstPassResult(res: SearchState)
    requires Discovered(SearchState(0, 0, 0), 0, res)
    ensures WellFormed(res) && ZeroAtForks(res)
  {
    if Clear(res.discrepancies, 0, 64) {
      NoBitsIsZero(res.discrepancies);
    }
  }

  /** A clear range survives into a value that agrees below `to` and is clear above it. */
  lemma ClearThroughAgree(a: bv64, b: bv64, from: bv8, to: bv8)
    requires to <= 64 && Agree(a, b, to) && Clear(b, from, 64) && Clear(a, to, 64)
    ensures Clear(a, from, 64)
  {}

  /** Discovery from `i` that records no discrepancy keeps the highest one below `i`. */
  lemma KeptWellFormed(start: SearchState, res: SearchState, i: bv8)
    requires i <= 64
    requires (start.lastDiscrepancyIndex == 0 && Clear(start.discrepancies, 0, 64))
      || (start.lastDiscrepancyIndex < i && Bit(start.discrepancies, start.lastDiscrepancyIndex)
          && Clear(start.discrepancies, start.lastDiscrepancyIndex + 1, 64))
    requires Agree(res.discrepancies, start.discrepancies, i) && Clear(res.discrepancies, i, 64)
    requires res.lastDiscrepancyIndex == start.lastDiscrepancyIndex
    ensures WellFormed(res)
  {
    var last: bv8 := start.lastDiscrepancyIndex;
    if last == 0 && Clear(start.discrepancies, 0, 64) {
      ClearThroughAgree(res.discrepancies, start.discrepancies, 0, i);
      NoBitsIsZero(res.discrepancies);
    } else {
      assert Bit(res.discrepancies, last) == Bit(start.discrepancies, last);
      ClearThroughAgree(res.discrepancies, start.discrepancies, last + 1, i);
    }
  }

  /** A resumed pass ends with well-formed variables: the highest discrepancy is either one
      discovered after the previous last discrepancy or the highest one replayed below it. */
  lemma ResumedWellFormed(prev: SearchState, start: SearchState, res: SearchState)
    requires WellFormed(prev) && prev.discrepancies != 0 && Resumed(prev, start)
    requires Discovered(start, prev.lastDiscrepancyIndex + 1, res)
    ensures WellFormed(res)
  {
    var k: bv8 := prev.lastDiscrepancyIndex;
    if Clear(res.discrepancies, k + 1, 64) && res.lastDiscrepancyIndex == start.lastDiscrepancyIndex {
      KeptWellFormed(start, res, k + 1);
    }
  }

  /** The bits a resumed pass ends with at and below the previous last discrepancy `k`: the
      previous address with a 1 at `k`, and the previous discrepancies below `k`. */
  ghost predicate SwitchedAt(prev: SearchState, res: SearchState) {
    var k := prev.lastDiscrepancyIndex;
    forall j: BitIndex :: j <= k ==>
      Bit(res.address, j) == (j == k || Bit(prev.address, j))
      && Bit(res.discrepancies, j) == (j < k && Bit(prev.discrepancies, j))
  }

  lemma ResumedSwitchedAt(prev: SearchState, start: SearchState, res: SearchState)
    requires WellFormed(prev) && prev.discrepancies != 0 && Resumed(prev, start)
    requires Agree(res.address, start.address, prev.lastDiscrepancyIndex + 1)
    requires Agree(res.discrepancies, start.discrepancies, prev.lastDiscrepancyIndex + 1)
    ensures SwitchedAt(prev, res)
  {
    forall j: BitIndex | j <= prev.lastDiscrepancyIndex
      ensures Bit(res.address, j) == (j == prev.lastDiscrepancyIndex || Bit(prev.address, j))
      ensures Bit(res.discrepancies, j) == (j < prev.lastDiscrepancyIndex && Bit(prev.discrepancies, j))
    {
      ResumedBits(prev, start, j);
    }
  }

  lemma SwitchedZeroAtForks(prev: SearchState, res: SearchState)
    requires ZeroAtForks(prev) && SwitchedAt(prev, res)
    requires forall j: BitIndex ::
      prev.lastDiscrepancyIndex + 1 <= j && Bit(res.discrepancies, j) ==> !Bit(res.address, j)
    ensures ZeroAtForks(res)
  {
    forall j: BitIndex | Bit(res.discrepancies, j)
      ensures !Bit(res.address, j)
    {
      if j <= prev.lastDiscrepancyIndex {
        assert Bit(prev.discrepancies, j);
      }
    }
  }

  /** A resumed pass ends with the 0 branch taken at every discrepancy it records. */
  lemma ResumedZeroAtForks(prev: SearchState, start: SearchState, res: SearchState)
    requires WellFormed(prev) && ZeroAtForks(prev) && prev.discrepancies != 0 && Resumed(prev, start)
    requires Discovered(start, prev.lastDiscrepancyIndex + 1, res)
    ensures ZeroAtForks(res)
  {
    ResumedSwitchedAt(prev, start, res);
    SwitchedZeroAtForks(prev, res);
  }

  /** How a resumed pass moves on from the previous address `prev`: the same bits below the
      previous last discrepancy `k`, where the previous address had a 0 and the new one has
      a 1; the discrepancies below `k` are kept and the one at `k` is gone. */
  ghost predicate Advanced(prev: SearchState, st: SearchState) {
    var k := prev.lastDiscrepancyIndex;
    Agree(st.address, prev.address, k) && !Bit(prev.address, k) && Bit(st.address, k)
    && Agree(st.discrepancies, prev.discrepancies, k) && !Bit(st.discrepancies, k)
  }

  lemma SwitchedAgree(prev: SearchState, res: SearchState)
    requires SwitchedAt(prev, res)
    ensures Agree(res.address, prev.address, prev.lastDiscrepancyIndex)
    ensures Agree(res.discrepancies, prev.discrepancies, prev.lastDiscrepancyIndex)
  {}

  lemma SwitchedAdvanced(prev: SearchState, res: SearchState)
    requires ZeroAtForks(prev) && WellFormed(prev) && prev.discrepancies != 0 && SwitchedAt(prev, res)
    ensures Advanced(prev, res)
  {
    SwitchedAgree(prev, res);
    var k := prev.lastDiscrepancyIndex;
    assert Bit(res.address, k) && !Bit(res.discrepancies, k);
  }

  lemma ResumedAdvanced(prev: SearchState, start: SearchState, res: SearchState)
    requires WellFormed(prev) && ZeroAtForks(prev) && prev.discrepancies != 0 && Resumed(prev, start)
    requires Discovered(start, prev.lastDiscrepancyIndex + 1, res)
    ensures Advanced(prev, res)
  {
    ResumedSwitchedAt(prev, start, res);
    SwitchedAdvanced(prev, res);
  }

  /** A resumed pass finds an address strictly after the previous one in search order. */
  lemma AdvancedIsLater(prev: SearchState, st: SearchState)
    requires Advanced(prev, st)
    ensures LsbLess(prev.address, st.address)
  {
    var k := prev.lastDiscrepancyIndex;
    assert Agree(prev.address, st.address, k);
    LessAtFirstDifference(prev.address, st.address, k);
  }

  // ----- a pass, end to end -----------------------------------------------------------

  /** Loop variables a pass may resume from: the index names the highest discrepancy and
      every discrepancy took the 0 branch. Every state a pass returns is one. */
  ghost predicate Resumable(st: SearchState) {
    WellFormed(st) && ZeroAtForks(st)
  }

  /** What every address a pass returns satisfies: it is the address of the loop variables
      returned with it, those are resumable, and its little-endian bytes pass the CRC. */
  ghost predicate Found(a: Address, st: SearchState) {
    a.raw == st.address && Resumable(st) && Crc8(LeBytes(st.address)) == 0
  }

  /** What a search that got past the search command ends with: an error only where no
      device answered or on a bad CRC, otherwise a `Found` address, which, when the pass
      resumed from `prev`, has `Advanced` from it and comes strictly after it in search
      order. */
  ghost predicate Walked(prev: Option<SearchState>, r: Result<Option<(Address, SearchState)>>) {
    match r
    case Err(e) => e == UnexpectedResponse || e == CrcMismatch
    case Ok(None) => false
    case Ok(Some((a, st))) =>
      Found(a, st) && (prev.Some? ==> Advanced(prev.value, st) && LsbLess(prev.value.address, a.raw))
  }

  lemma ZeroIsClear()
    ensures Clear(0, 0, 64)
  {
    forall j: BitIndex
      ensures !Bit(0, j)
    {
      BitOfZero(j);
    }
  }

  lemma GateWalked(prev: Option<SearchState>, found: Result<SearchState>)
    requires found.Err? ==> found.error == UnexpectedResponse
    requires found.Ok? ==> Resumable(found.value)
    requires found.Ok? && prev.Some? ==>
      Advanced(prev.value, found.value) && LsbLess(prev.value.address, found.value.address)
    ensures Walked(prev, Gate(found))
  {}

  /** The first pass: it fails only on a bit where no device answered or on a bad CRC, and
      otherwise returns a `Found` address. */
  lemma WalkFirst<W>(bus: Responder<W>, l: Line<W>)
    ensures Walked(None, Walk(bus, l, None).0)
  {
    ZeroIsClear();
    DiscoverFacts(bus, l, 0, SearchState(0, 0, 0));
    var found := Discover(bus, l, 0, SearchState(0, 0, 0)).0;
    if found.Ok? {
      FirstPassResult(found.value);
    }
    GateWalked(None, found);
  }

  lemma ResumedClearAbove(prev: SearchState, start: SearchState)
    requires WellFormed(prev) && prev.discrepancies != 0 && Resumed(prev, start)
    ensures Clear(start.discrepancies, prev.lastDiscrepancyIndex + 1, 64)
  {}

  /** Discovery after the switch ends with resumable variables that have advanced. */
  lemma ResumedResult(prev: SearchState, start: SearchState, res: SearchState)
    requires Resumable(prev) && prev.discrepancies != 0 && Resumed(prev, start)
    requires Discovered(start, prev.lastDiscrepancyIndex + 1, res)
    ensures Resumable(res) && Advanced(prev, res) && LsbLess(prev.address, res.address)
  {
    ResumedWellFormed(prev, start, res);
    ResumedZeroAtForks(prev, start, res);
    ResumedAdvanced(prev, start, res);
    AdvancedIsLater(prev, res);
  }

  /** A resumed pass: it fails only at the switch, on a bit where no device answered, or on
      a bad CRC; otherwise it returns a `Found` address that has `Advanced` from the
      previous one, and so comes strictly after it in search order. */
  lemma WalkResumed<W>(bus: Responder<W>, l: Line<W>, prev: SearchState)
    requires Resumable(prev) && prev.discrepancies != 0
    ensures Walked(Some(prev), Walk(bus, l, Some(prev)).0)
  {
    ResumeFacts(bus, l, prev);
    var start := Resume(bus, l, prev).0;
    var l1 := Resume(bus, l, prev).1;
    if start.Ok? {
      var from: bv8 := prev.lastDiscrepancyIndex + 1;
      ResumedClearAbove(prev, start.value);
      DiscoverFacts(bus, l1, from, start.value);
      var found := Discover(bus, l1, from, start.value).0;
      if found.Ok? {
        ResumedResult(prev, start.value, found.value);
      }
      GateWalked(Some(prev), found);
    }
  }

  // ----- device_search ----------------------------------------------------------------

  /** After the last address (no discrepancy left) a pass reports the end of the search
      without touching the line. */
  lemma PassExhausted<W>(bus: Responder<W>, l: Line<W>, prev: SearchState, onlyAlarming: bool)
    requires prev.discrepancies == 0
    ensures Pass(bus, l, Some(prev), onlyAlarming) == (Ok(None), l)
  {}

  /** Otherwise a pass starts with a reset: a failed reset is returned as is, and a reset
      that no device answered ends the search. */
  lemma PassReset<W>(bus: Responder<W>, l: Line<W>, prev: Option<SearchState>, onlyAlarming: bool)
    requires prev.Some? ==> prev.value.discrepancies != 0
    ensures var (reset, l1) := Reset(bus, l);
      var (r, l2) := Pass(bus, l, prev, onlyAlarming);
      (reset.Err? ==> r == Err(BusNotHigh) && l2 == l1 && l2.trace == l.trace + FailedPolls(HIGH_POLLS))
      && (reset == Ok(false) ==> r == Ok(None) && l2 == l1)
  {
    ResetEvents(bus, l);
  }

  /** When a device answered the reset, a pass sends SEARCH_ALARM when only alarming
      devices are wanted and SEARCH_NORMAL otherwise, and then walks the tree. */
  lemma PassCommand<W>(bus: Responder<W>, l: Line<W>, prev: Option<SearchState>, onlyAlarming: bool)
    requires prev.Some? ==> prev.value.discrepancies != 0
    requires Reset(bus, l).0 == Ok(true)
    ensures var l1 := Reset(bus, l).1;
      var command := if onlyAlarming then SEARCH_ALARM else SEARCH_NORMAL;
      var l2 := WriteByte(bus, l1, command);
      l2.trace == l1.trace + WriteSlots(BitsOf(command))
      && Pass(bus, l, prev, onlyAlarming) == Walk(bus, l2, prev)
  {
    WriteByteEvents(bus, Reset(bus, l).1, SearchCommand(onlyAlarming));
  }

  /** What a pass returns: the errors a reset, a missing answer or a bad CRC cause; the end
      of the search; or a `Found` address that, when resuming from `prev`, comes strictly
      after `prev`'s in search order. */
  ghost predicate Passed(prev: Option<SearchState>, r: Result<Option<(Address, SearchState)>>) {
    match r
    case Err(e) => e == BusNotHigh || e == UnexpectedResponse || e == CrcMismatch
    case Ok(None) => true
    case Ok(Some((a, st))) =>
      Found(a, st) && (prev.Some? ==> Advanced(prev.value, st) && LsbLess(prev.value.address, a.raw))
  }

  lemma WalkedPassed(prev: Option<SearchState>, r: Result<Option<(Address, SearchState)>>)
    requires Walked(prev, r)
    ensures Passed(prev, r)
  {}

  /** `device_search`, from a resumable state or from none. */
  lemma PassFacts<W>(bus: Responder<W>, l: Line<W>, prev: Option<SearchState>, onlyAlarming: bool)
    requires prev.Some? ==> Resumable(prev.value)
    ensures Passed(prev, Pass(bus, l, prev, onlyAlarming).0)
  {
    if !(prev.Some? && prev.value.discrepancies == 0) {
      PassReset(bus, l, prev, onlyAlarming);
      var (reset, l1) := Reset(bus, l);
      if reset == Ok(true) {
        var l2 := WriteByte(bus, l1, SearchCommand(onlyAlarming));
        if prev.Some? {
          WalkResumed(bus, l2, prev.value);
        } else {
          WalkFirst(bus, l2);
        }
        WalkedPassed(prev, Walk(bus, l2, prev).0);
      }
    }
  }

  // ----- the iterator -----------------------------------------------------------------

  /** The fields `next` keeps: a finished iterator holds no state, and a state it holds is
      one a pass may resume from. */
  ghost predicate CursorValid(c: Cursor) {
    (c.finished ==> c.state.None?) && (c.state.Some? ==> Resumable(c.state.value))
  }

  lemma FreshValid()
    ensures CursorValid(Fresh) && Fresh.state.None? && !Fresh.finished
  {}

  /** A finished iterator yields nothing, keeps its fields and leaves the line alone. */
  lemma NextFinished<W>(bus: Responder<W>, l: Line<W>, c: Cursor, onlyAlarming: bool)
    requires c.finished
    ensures Next(bus, l, c, onlyAlarming) == (None, c, l)
  {}

  /** One call of `next` on an unfinished iterator: an address is yielded and its state
      kept; the end of the search finishes the iterator; an error is yielded and finishes
      the iterator, so it is yielded once. */
  lemma NextFacts<W>(bus: Responder<W>, l: Line<W>, c: Cursor, onlyAlarming: bool)
    requires !c.finished
    ensures var (item, c', l') := Next(bus, l, c, onlyAlarming);
      var r := Pass(bus, l, c.state, onlyAlarming).0;
      l' == Pass(bus, l, c.state, onlyAlarming).1
      && (item.None? <==> r == Ok(None))
      && (item.None? ==> c' == Cursor(None, true))
      && (item.Some? && item.value.Err? ==> c' == Cursor(None, true) && r == Err(item.value.error))
      && (item.Some? && item.value.Ok? ==>
            r.Ok? && r.value.Some? && c' == Cursor(Some(r.value.value.1), false)
            && item.value.value == r.value.value.0)
  {}

  /** How the fields move on in one call: they stay valid; a call that yields no address
      finishes the iterator; one that yields an address keeps the state it was found with,
      and the address comes after the one the fields held before. */
  ghost predicate Stepped(c: Cursor, item: Option<Result<Address>>, c': Cursor) {
    CursorValid(c')
    && (!(item.Some? && item.value.Ok?) ==> c'.finished)
    && (item.Some? && item.value.Ok? ==>
          c'.state.Some? && c'.state.value.address == item.value.value.raw
          && (c.state.Some? ==> LsbLess(c.state.value.address, item.value.value.raw)))
  }

  lemma AdvanceStepped(c: Cursor, r: Result<Option<(Address, SearchState)>>)
    requires Passed(c.state, r)
    ensures Stepped(c, Advance(r).0, Advance(r).1)
  {}

  /** A call that yields no address leaves the iterator finished. */
  lemma NextFinishes<W>(bus: Responder<W>, l: Line<W>, c: Cursor, onlyAlarming: bool)
    ensures var (item, c', _) := Next(bus, l, c, onlyAlarming);
      item.None? || item.value.Err? ==> c'.finished
  {}

  lemma NextStepped<W>(bus: Responder<W>, l: Line<W>, c: Cursor, onlyAlarming: bool)
    requires CursorValid(c) && !c.finished
    ensures Stepped(c, Next(bus, l, c, onlyAlarming).0, Next(bus, l, c, onlyAlarming).1)
  {
    PassFacts(bus, l, c.state, onlyAlarming);
    AdvanceStepped(c, Pass(bus, l, c.state, onlyAlarming).0);
  }

  /** `n` calls of `next` in a row: the items yielded, the fields and the line after. */
  function Run<W>(bus: Responder<W>, l: Line<W>, c: Cursor, onlyAlarming: bool, n: nat)
    : (r: (seq<Option<Result<Address>>>, Cursor, Line<W>))
    ensures |r.0| == n
    decreases n
  {
    if n == 0 then ([], c, l)
    else
      var item := Next(bus, l, c, onlyAlarming).0;
      var c1 := Next(bus, l, c, onlyAlarming).1;
      var l1 := Next(bus, l, c, onlyAlarming).2;
      var rest := Run(bus, l1, c1, onlyAlarming, n - 1);
      ([item] + rest.0, rest.1, rest.2)
  }

  /** The addresses among the items, in order. */
  function Yielded(items: seq<Option<Result<Address>>>): seq<bv64>
    decreases |items|
  {
    if |items| == 0 then []
    else
      (if items[0].Some? && items[0].value.Ok? then [items[0].value.value.raw] else [])
      + Yielded(items[1..])
  }

  /** Each address comes after the one before it in search order. */
  ghost predicate Chain(s: seq<bv64>) {
    forall i :: 0 <= i < |s| - 1 ==> LsbLess(s[i], s[i + 1])
  }

  /** The addresses from the one a cursor holds on. */
  function Trail(c: Cursor, items: seq<Option<Result<Address>>>): seq<bv64> {
    (if c.state.Some? then [c.state.value.address] else []) + Yielded(items)
  }

  /** `n` items that are all `None`. */
  function Nothing(n: nat): seq<Option<Result<Address>>> {
    seq(n, i => None)
  }

  lemma {:induction false} RunFinished<W>(bus: Responder<W>, l: Line<W>, c: Cursor, onlyAlarming: bool, n: nat)
    requires c.finished
    ensures Run(bus, l, c, onlyAlarming, n) == (Nothing(n), c, l)
    decreases n
  {
    if n > 0 {
      RunFinished(bus, l, c, onlyAlarming, n - 1);
      assert Nothing(n) == [None] + Nothing(n - 1);
    }
  }

  lemma {:induction false} YieldedNone(n: nat)
    ensures Yielded(Nothing(n)) == []
    decreases n
  {
    if n > 0 {
      assert Nothing(n)[1..] == Nothing(n - 1);
      YieldedNone(n - 1);
    }
  }

  lemma ChainCons(x: bv64, s: seq<bv64>)
    requires Chain(s) && (|s| > 0 ==> LsbLess(x, s[0]))
    ensures Chain([x] + s)
  {
    var t := [x] + s;
    forall i | 0 <= i < |t| - 1
      ensures LsbLess(t[i], t[i + 1])
    {
      if i > 0 {
        assert t[i] == s[i - 1] && t[i + 1] == s[i];
      }
    }
  }

  /** After an item that is nothing or an error, every item is nothing. */
  ghost predicate Stops(items: seq<Option<Result<Address>>>) {
    forall i, j :: 0 <= i < j < |items| && (items[i].None? || items[i].value.Err?) ==> items[j].None?
  }

  lemma StopsCons(item: Option<Result<Address>>, rest: seq<Option<Result<Address>>>)
    requires Stops(rest)
    requires item.None? || item.value.Err? ==> rest == Nothing(|rest|)
    ensures Stops([item] + rest)
  {
    var items := [item] + rest;
    forall i, j | 0 <= i < j < |items| && (items[i].None? || items[i].value.Err?)
      ensures items[j].None?
    {
      assert items[j] == rest[j - 1];
      if i > 0 {
        assert items[i] == rest[i - 1];
      }
    }
  }

  /** Once a call yields nothing or an error, every later call yields nothing: an error is
      yielded at most once. */
  lemma {:induction false} RunStops<W>(bus: Responder<W>, l: Line<W>, c: Cursor, onlyAlarming: bool, n: nat)
    ensures Stops(Run(bus, l, c, onlyAlarming, n).0)
    decreases n
  {
    if n > 0 {
      var item := Next(bus, l, c, onlyAlarming).0;
      var c1 := Next(bus, l, c, onlyAlarming).1;
      var l1 := Next(bus, l, c, onlyAlarming).2;
      var rest := Run(bus, l1, c1, onlyAlarming, n - 1).0;
      RunStops(bus, l1, c1, onlyAlarming, n - 1);
      NextFinishes(bus, l, c, onlyAlarming);
      if item.None? || item.value.Err? {
        RunFinished(bus, l1, c1, onlyAlarming, n - 1);
      }
      StopsCons(item, rest);
    }
  }

  lemma TrailCons(c: Cursor, item: Option<Result<Address>>, c1: Cursor, rest: seq<Option<Result<Address>>>)
    requires Chain(Trail(c1, rest)) && Stepped(c, item, c1)
    requires !(item.Some? && item.value.Ok?) ==> Yielded(rest) == []
    ensures Chain(Trail(c, [item] + rest))
  {
    var items := [item] + rest;
    assert items[1..] == rest;
    if item.Some? && item.value.Ok? {
      var a := item.value.value.raw;
      assert Yielded(items) == [a] + Yielded(rest);
      if c.state.Some? {
        ChainCons(c.state.value.address, [a] + Yielded(rest));
      }
    } else {
      assert Yielded(items) == [];
    }
  }

  /** The iterator yields addresses in strictly increasing search order, starting after the
      one its fields hold; hence no address is yielded twice. */
  lemma {:induction false} RunAscending<W>(bus: Responder<W>, l: Line<W>, c: Cursor, onlyAlarming: bool, n: nat)
    requires CursorValid(c)
    ensures Chain(Trail(c, Run(bus, l, c, onlyAlarming, n).0))
    decreases n
  {
    if n == 0 {
      assert Yielded([]) == [];
    } else if c.finished {
      RunFinished(bus, l, c, onlyAlarming, n);
      YieldedNone(n);
    } else {
      NextStepped(bus, l, c, onlyAlarming);
      var item := Next(bus, l, c, onlyAlarming).0;
      var c1 := Next(bus, l, c, onlyAlarming).1;
      var l1 := Next(bus, l, c, onlyAlarming).2;
      var rest := Run(bus, l1, c1, onlyAlarming, n - 1).0;
      RunAscending(bus, l1, c1, onlyAlarming, n - 1);
      if !(item.Some? && item.value.Ok?) {
        RunFinished(bus, l1, c1, onlyAlarming, n - 1);
        YieldedNone(n - 1);
      }
      TrailCons(c, item, c1, rest);
    }
  }
}
