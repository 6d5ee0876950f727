/** What the search finds on a wire with a fixed population of devices (module
    Population): each pass returns the next device in search order, the iterator yields
    every selected device exactly once, in ascending search order, and then ends.

    The argument runs on sets of addresses. At bit `i` of a pass the devices still
    selected are those of the participants whose low `i` bits are those of the path taken
    so far (`Prefixed`); the master's choice keeps the 0 branch whenever it is present,
    so a pass descends to the least selected address, and the discrepancies it records
    are exactly the places where the tree forks off to the right of its path
    (`Branches`). Resuming at the highest such fork therefore reaches the least address
    after the previous one. */
module Enumeration {
  import opened Errors
  import opened Addresses
  import opened Crc
  import opened Wire
  import opened Search
  import opened Population
  import opened SearchOnBus

  // ----- the search tree of a set of addresses ----------------------------------------

  /** The addresses of `q` whose bits below `i` are those of `a`. */
  ghost function Prefixed(q: set<bv64>, a: bv64, i: bv8): set<bv64>
    requires i <= 64
  {
    set d | d in q && Agree(d, a, i)
  }

  /** The tree of `q` forks at bit `j` of the path to `a`, and `a` took the 0 branch. */
  ghost predicate Branches(q: set<bv64>, a: bv64, j: BitIndex) {
    !Bit(a, j) && HasOne(Prefixed(q, a, j), j)
  }

  /** `m` is the least member of `s` in search order. */
  ghost predicate Least(m: bv64, s: set<bv64>) {
    m in s && forall d :: d in s && d != m ==> LsbLess(m, d)
  }

  /** The addresses of `q` after `a` in search order. */
  ghost function After(q: set<bv64>, a: bv64): set<bv64> {
    set d | d in q && LsbLess(a, d)
  }

  /** A state that describes a position in the tree of `q`: its address is in `q`, it is
      resumable, and its discrepancies are exactly the forks on the path to it. */
  ghost predicate Marks(q: set<bv64>, st: SearchState) {
    st.address in q && Resumable(st) && MarksFrom(q, st, 0)
  }

  /** From bit `i` on, the discrepancies of `st` are exactly the forks on the path to its
      address. */
  ghost predicate MarksFrom(q: set<bv64>, st: SearchState, i: bv8) {
    forall j: BitIndex {:trigger Branches(q, st.address, j)} ::
      i <= j ==> (Bit(st.discrepancies, j) <==> Branches(q, st.address, j))
  }

  // ----- set-level facts --------------------------------------------------------------

  lemma BitsOfSetBit(a: bv64, i: BitIndex, v: bool)
    ensures Agree(SetBit(a, i, v), a, i) && Bit(SetBit(a, i, v), i) == v
  {
    forall j: BitIndex | j <= i
      ensures Bit(SetBit(a, i, v), j) == (if j == i then v else Bit(a, j))
    {
      BitOfSetBit(a, i, v, j);
    }
  }

  lemma AgreeSetBit(d: bv64, a: bv64, i: BitIndex, v: bool)
    ensures (Agree(d, a, i) && Bit(d, i) == v) == Agree(d, SetBit(a, i, v), i + 1)
  {
    var a' := SetBit(a, i, v);
    BitsOfSetBit(a, i, v);
    if Agree(d, a', i + 1) {
      assert Bit(d, i) == Bit(a', i);
      AgreeShrink(d, a', i + 1, i);
      AgreeTransitive(d, a', a, i);
    } else if Agree(d, a, i) && Bit(d, i) == v {
      AgreeSymmetric(a', a, i);
      AgreeTransitive(d, a, a', i);
      AgreeExtend(d, a', i);
    }
  }

  /** Choosing bit `v` at `i` narrows the selection to the path with `v` there. */
  lemma PrefixedStep(q: set<bv64>, a: bv64, i: BitIndex, v: bool)
    ensures Keep(Prefixed(q, a, i), i, v) == Prefixed(q, SetBit(a, i, v), i + 1)
  {
    forall d | d in q
      ensures (Agree(d, a, i) && Bit(d, i) == v) == Agree(d, SetBit(a, i, v), i + 1)
    {
      AgreeSetBit(d, a, i, v);
    }
  }

  /** The selection depends only on the bits of the path below `i`. */
  lemma PrefixedAgree(q: set<bv64>, a: bv64, c: bv64, i: bv8)
    requires i <= 64 && Agree(a, c, i)
    ensures Prefixed(q, a, i) == Prefixed(q, c, i)
  {}

  /** At the end of the tree only the address itself is left. */
  lemma PrefixedAll(q: set<bv64>, a: bv64)
    requires Prefixed(q, a, 64) != {}
    ensures Least(a, Prefixed(q, a, 64))
  {
    var d := Member(Prefixed(q, a, 64));
    BitsDetermineValue(d, a);
    forall e | e in Prefixed(q, a, 64)
      ensures e == a
    {
      BitsDetermineValue(e, a);
    }
  }

  lemma Member(s: set<bv64>) returns (d: bv64)
    requires s != {}
    ensures d in s
  {
    if forall e :: e !in s {
      assert false;
    }
    d :| d in s;
  }

  /** Some device answers a nonempty selection, and the branch chosen is not empty. */
  lemma ChosenNonEmpty(s: set<bv64>, i: BitIndex)
    requires s != {}
    ensures HasZero(s, i) || HasOne(s, i)
    ensures Keep(s, i, !HasZero(s, i)) != {}
  {
    var d := Member(s);
    if HasZero(s, i) {
      var z :| z in s && !Bit(z, i);
      assert z in Keep(s, i, false);
    } else {
      assert d in Keep(s, i, true);
    }
  }

  /** The least address of the chosen branch is the least of the whole selection: when
      the 0 branch is present it is chosen, and everything on the 1 branch comes after. */
  lemma LeastStep(q: set<bv64>, a: bv64, i: BitIndex, res: bv64)
    requires Least(res, Keep(Prefixed(q, a, i), i, !HasZero(Prefixed(q, a, i), i)))
    ensures Least(res, Prefixed(q, a, i))
  {
    var s := Prefixed(q, a, i);
    var v := !HasZero(s, i);
    forall d | d in s && d != res
      ensures LsbLess(res, d)
    {
      if Bit(d, i) != v {
        assert !v && !Bit(res, i) && Bit(d, i);
        assert Agree(res, d, i);
        LessAtFirstDifference(res, d, i);
      }
    }
  }

  /** What discovery from bit `i` finds in the tree of `q`, started from `st`: the least
      address of the selection, the same bits below `i`, and from `i` on a discrepancy
      exactly where the tree forks to the right of the path. */
  ghost predicate Descended(q: set<bv64>, st: SearchState, i: bv8, res: SearchState)
    requires i <= 64
  {
    Least(res.address, Prefixed(q, st.address, i))
    && Agree(res.address, st.address, i) && Agree(res.discrepancies, st.discrepancies, i)
    && MarksFrom(q, res, i)
  }

  /** The fork at bit `i`: a discrepancy is recorded there exactly when the tree forks to
      the right of the path found. */
  lemma ForkAt(q: set<bv64>, st: SearchState, i: BitIndex, z: bool, o: bool, res: SearchState)
    requires z == HasZero(Prefixed(q, st.address, i), i) && o == HasOne(Prefixed(q, st.address, i), i)
    requires Choose(z, o, i, st).Ok? && Clear(st.discrepancies, i, 64)
    requires Agree(res.address, st.address, i)
    requires Bit(res.address, i) == Bit(Choose(z, o, i, st).value.1.address, i)
    requires Bit(res.discrepancies, i) == Bit(Choose(z, o, i, st).value.1.discrepancies, i)
    ensures Bit(res.discrepancies, i) <==> Branches(q, res.address, i)
  {
    ChooseAddress(z, o, i, st, i);
    ChooseDiscrepancies(z, o, i, st, i);
    PrefixedAgree(q, res.address, st.address, i);
  }

  lemma ChosenBits(st: SearchState, i: BitIndex, z: bool, o: bool, next: SearchState, res: SearchState)
    requires Choose(z, o, i, st).Ok? && next == Choose(z, o, i, st).value.1
    requires Agree(res.address, next.address, i + 1) && Agree(res.discrepancies, next.discrepancies, i + 1)
    ensures Bit(res.discrepancies, i) == Bit(next.discrepancies, i)
    ensures Bit(res.address, i) == Bit(next.address, i)
  {}

  lemma LeastChosen(q: set<bv64>, st: SearchState, i: BitIndex, z: bool, o: bool, next: SearchState, res: SearchState)
    requires z == HasZero(Prefixed(q, st.address, i), i)
    requires Choose(z, o, i, st).Ok? && next == Choose(z, o, i, st).value.1
    requires Least(res.address, Prefixed(q, next.address, i + 1))
    ensures Least(res.address, Prefixed(q, st.address, i))
  {
    PrefixedStep(q, st.address, i, !z);
    LeastStep(q, st.address, i, res.address);
  }

  lemma DescendedCompose(q: set<bv64>, st: SearchState, i: BitIndex, z: bool, o: bool, next: SearchState, res: SearchState)
    requires z == HasZero(Prefixed(q, st.address, i), i) && o == HasOne(Prefixed(q, st.address, i), i)
    requires Clear(st.discrepancies, i, 64)
    requires Choose(z, o, i, st).Ok? && next == Choose(z, o, i, st).value.1
    requires Descended(q, next, i + 1, res)
    ensures Descended(q, st, i, res)
  {
    ChosenBits(st, i, z, o, next, res);
    LeastChosen(q, st, i, z, o, next, res);
    ComposeAgree(res, next, st, z, o, i);
    ForkAt(q, st, i, z, o, res);
  }

  /** Discovery from bit `i` succeeds and finds what `Descended` describes. */
  ghost predicate DescendsTo(q: set<bv64>, st: SearchState, i: bv8)
    requires i <= 64
  {
    var r := Descend(Prefixed(q, st.address, i), i, st);
    r.Ok? && Descended(q, st, i, r.value)
  }

  /** The decision discovery takes at bit `i` of the path to `st.address`. */
  ghost function Chosen(q: set<bv64>, st: SearchState, i: BitIndex): Result<(bool, SearchState)> {
    var s := Prefixed(q, st.address, i);
    Choose(HasZero(s, i), HasOne(s, i), i, st)
  }

  lemma DescendsStep(q: set<bv64>, st: SearchState, i: BitIndex)
    requires Clear(st.discrepancies, i, 64)
    requires Chosen(q, st, i).Ok? && DescendsTo(q, Chosen(q, st, i).value.1, i + 1)
    ensures DescendsTo(q, st, i)
  {
    var s := Prefixed(q, st.address, i);
    var z, o := HasZero(s, i), HasOne(s, i);
    var next := Chosen(q, st, i).value.1;
    DescendStep(s, i, st);
    PrefixedStep(q, st.address, i, !z);
    DescendedCompose(q, st, i, z, o, next, Descend(Prefixed(q, next.address, i + 1), i + 1, next).value);
  }

  lemma DescendsAtEnd(q: set<bv64>, st: SearchState)
    requires Prefixed(q, st.address, 64) != {}
    ensures DescendsTo(q, st, 64)
  {
    PrefixedAll(q, st.address);
  }

  /** One bit down a nonempty selection: some device answers, the chosen branch is not
      empty, and no discrepancy is recorded above `i`. */
  lemma DescendNext(q: set<bv64>, st: SearchState, i: BitIndex)
    requires Prefixed(q, st.address, i) != {} && Clear(st.discrepancies, i, 64)
    ensures var c := Chosen(q, st, i);
      c.Ok? && Prefixed(q, c.value.1.address, i + 1) != {} && Clear(c.value.1.discrepancies, i + 1, 64)
  {
    var s := Prefixed(q, st.address, i);
    var z, o := HasZero(s, i), HasOne(s, i);
    ChosenNonEmpty(s, i);
    DescendStep(s, i, st);
    PrefixedStep(q, st.address, i, !z);
    ChooseKeepsClear(z, o, i, st);
  }

  /** Discovery on a nonempty selection finds its least address and records exactly the
      forks to the right of the path. */
  lemma {:induction false} DescendFacts(q: set<bv64>, st: SearchState, i: bv8)
    requires i <= 64 && Prefixed(q, st.address, i) != {} && Clear(st.discrepancies, i, 64)
    ensures DescendsTo(q, st, i)
    decreases 64 - i as int
  {
    if i == 64 {
      DescendsAtEnd(q, st);
    } else {
      DescendNext(q, st, i);
      DescendFacts(q, Chosen(q, st, i).value.1, i + 1);
      DescendsStep(q, st, i);
    }
  }

  // ----- following a known path -------------------------------------------------------

  /** Every address agrees with every other below bit 0. */
  lemma PrefixedZero(q: set<bv64>, a: bv64)
    ensures Prefixed(q, a, 0) == q
  {}

  /** Following the path to `a` at bit `i` narrows the selection to the next bit. */
  lemma PrefixedOwn(q: set<bv64>, a: bv64, i: BitIndex)
    ensures Keep(Prefixed(q, a, i), i, Bit(a, i)) == Prefixed(q, a, i + 1)
  {
    forall d | d in q
      ensures (Agree(d, a, i) && Bit(d, i) == Bit(a, i)) == Agree(d, a, i + 1)
    {
      if Agree(d, a, i) && Bit(d, i) == Bit(a, i) {
        AgreeExtend(d, a, i);
      }
      if Agree(d, a, i + 1) {
        AgreeShrink(d, a, i + 1, i);
      }
    }
  }

  /** Replaying the bits `i .. k` of `a` leaves selected the addresses on its path up to
      `k`. */
  lemma {:induction false} AlongPrefixed(q: set<bv64>, a: bv64, i: bv8, k: BitIndex)
    requires i <= k
    ensures Along(Prefixed(q, a, i), a, i, k) == Prefixed(q, a, k)
    decreases k as int - i as int
  {
    if i < k {
      PrefixedOwn(q, a, i);
      AlongPrefixed(q, a, i + 1, k);
    }
  }

  // ----- what a pass finds ------------------------------------------------------------

  /** Every address of `q` passes the CRC check. */
  ghost predicate CrcValid(q: set<bv64>) {
    forall d :: d in q ==> Crc8(LeBytes(d)) == 0
  }

  /** What a pass over the tree of `q` returns when the addresses `rest` are still to be
      found: the end of the search when there are none, and otherwise the least of them,
      with loop variables that mark its position in the tree. */
  ghost predicate Yields(q: set<bv64>, rest: set<bv64>, r: Result<Option<(Address, SearchState)>>) {
    if rest == {} then r == Ok(None)
    else
      r.Ok? && r.value.Some? && Least(r.value.value.0.raw, rest)
      && r.value.value.1.address == r.value.value.0.raw && Marks(q, r.value.value.1)
  }

  /** The first pass finds the least address of a nonempty tree. */
  lemma FirstSearched(q: set<bv64>)
    requires q != {} && CrcValid(q)
    ensures Yields(q, q, Searched(q, None))
  {
    var st := SearchState(0, 0, 0);
    PrefixedZero(q, 0);
    ZeroIsClear();
    DescendFacts(q, st, 0);
    DescendDiscovered(q, 0, st);
    var res := Descend(q, 0, st).value;
    FirstPassResult(res);
  }

  /** The tree forks to the right of the path to `a` below every later address: at their
      first difference `j`, where the later one has a 1. */
  lemma ForkBelowLater(q: set<bv64>, a: bv64, d: bv64) returns (j: BitIndex)
    requires d in After(q, a)
    ensures Branches(q, a, j) && Agree(d, a, j) && Bit(d, j)
  {
    j := FirstDifference(a, d);
    AgreeSymmetric(a, d, j);
    assert d in Prefixed(q, a, j);
  }

  /** A fork to the right of the path to `a` leaves some address after `a`. */
  lemma LaterAtFork(q: set<bv64>, a: bv64, j: BitIndex)
    requires Branches(q, a, j)
    ensures After(q, a) != {}
  {
    var d :| d in Prefixed(q, a, j) && Bit(d, j);
    AgreeSymmetric(d, a, j);
    LessAtFirstDifference(a, d, j);
    assert d in After(q, a);
  }

  /** The search is over exactly when the state marks no fork: no address of `q` comes
      after the last one found. */
  lemma Exhausted(q: set<bv64>, p: SearchState)
    requires Marks(q, p)
    ensures p.discrepancies == 0 <==> After(q, p.address) == {}
  {
    if p.discrepancies == 0 && After(q, p.address) != {} {
      var d := Member(After(q, p.address));
      var j := ForkBelowLater(q, p.address, d);
      BitOfZero(j);
      assert false;
    }
    if p.discrepancies != 0 {
      assert Branches(q, p.address, p.lastDiscrepancyIndex);
      LaterAtFork(q, p.address, p.lastDiscrepancyIndex);
    }
  }

  /** At the last discrepancy the tree forks, so both branches answer the switch. */
  lemma SwitchAnswers(q: set<bv64>, p: SearchState)
    requires Marks(q, p) && p.discrepancies != 0
    ensures var k := p.lastDiscrepancyIndex;
      HasZero(Prefixed(q, p.address, k), k) && HasOne(Prefixed(q, p.address, k), k)
  {
    var k := p.lastDiscrepancyIndex;
    assert Branches(q, p.address, k);
    assert p.address in Prefixed(q, p.address, k);
  }

  /** Below the last discrepancy `k` the resumed path is the previous one, so it forks
      where the previous one did. */
  lemma MarkBelow(q: set<bv64>, p: SearchState, res: SearchState, j: BitIndex)
    requires MarksFrom(q, p, 0) && Agree(res.address, p.address, j)
    requires Bit(res.address, j) == Bit(p.address, j) && Bit(res.discrepancies, j) == Bit(p.discrepancies, j)
    ensures Bit(res.discrepancies, j) <==> Branches(q, res.address, j)
  {
    PrefixedAgree(q, res.address, p.address, j);
    assert Branches(q, p.address, j) <==> Bit(p.discrepancies, j);
  }

  /** The resumed path forks where the previous one did below the last discrepancy `k`,
      not at `k`, and where discovery recorded a discrepancy above `k`. */
  lemma ResumedMarks(q: set<bv64>, p: SearchState, res: SearchState)
    requires MarksFrom(q, p, 0) && SwitchedAt(p, res) && Agree(res.address, p.address, p.lastDiscrepancyIndex)
    requires MarksFrom(q, res, p.lastDiscrepancyIndex + 1)
    ensures MarksFrom(q, res, 0)
  {
    forall j: BitIndex
      ensures Bit(res.discrepancies, j) <==> Branches(q, res.address, j)
    {
      ResumedMarkAt(q, p, res, j);
    }
  }

  lemma ResumedMarkAt(q: set<bv64>, p: SearchState, res: SearchState, j: BitIndex)
    requires MarksFrom(q, p, 0) && Agree(res.address, p.address, p.lastDiscrepancyIndex)
    requires MarksFrom(q, res, p.lastDiscrepancyIndex + 1)
    requires j <= p.lastDiscrepancyIndex ==>
      Bit(res.address, j) == (j == p.lastDiscrepancyIndex || Bit(p.address, j))
      && Bit(res.discrepancies, j) == (j < p.lastDiscrepancyIndex && Bit(p.discrepancies, j))
    ensures Bit(res.discrepancies, j) <==> Branches(q, res.address, j)
  {
    var k: bv8 := p.lastDiscrepancyIndex;
    if j < k {
      AgreeShrink(res.address, p.address, k, j);
      MarkBelow(q, p, res, j);
    } else if j == k {
      MarkAtSwitch(q, res, j);
    } else {
      MarkAbove(q, res, p.lastDiscrepancyIndex + 1, j);
    }
  }

  /** At the last discrepancy the resumed path took the 1 branch, so it does not fork
      there, and no discrepancy is recorded there. */
  lemma MarkAtSwitch(q: set<bv64>, res: SearchState, k: BitIndex)
    requires Bit(res.address, k) && !Bit(res.discrepancies, k)
    ensures Bit(res.discrepancies, k) <==> Branches(q, res.address, k)
  {}

  lemma MarkAbove(q: set<bv64>, res: SearchState, i: bv8, j: BitIndex)
    requires MarksFrom(q, res, i) && i <= j
    ensures Bit(res.discrepancies, j) <==> Branches(q, res.address, j)
  {}

  /** An address after the previous one that leaves its path at the last discrepancy `k`
      is on the branch the resumed pass descends, so it is not before the one found. */
  lemma LaterAtSwitch(q: set<bv64>, a: bv64, k: BitIndex, res: bv64, d: bv64)
    requires Least(res, Prefixed(q, SetBit(a, k, true), k + 1))
    requires d in q && d != res && Agree(d, a, k) && Bit(d, k)
    ensures LsbLess(res, d)
  {
    AgreeSetBit(d, a, k, true);
    assert d in Prefixed(q, SetBit(a, k, true), k + 1);
  }

  /** An address that leaves the previous path below the last discrepancy, to the 1 side,
      comes after the resumed address, which keeps the previous path there. */
  lemma LaterBelowSwitch(res: bv64, a: bv64, d: bv64, j: BitIndex, k: BitIndex)
    requires j < k && Agree(res, a, k) && Agree(d, a, j) && !Bit(a, j) && Bit(d, j)
    ensures LsbLess(res, d)
  {
    AgreeShrink(res, a, k, j);
    AgreeSymmetric(d, a, j);
    AgreeTransitive(res, a, d, j);
    LessAtFirstDifference(res, d, j);
  }

  /** An address after the previous one leaves the previous path, to the 1 side, at a
      recorded discrepancy, so at or below the last one. */
  lemma LeavesAtFork(q: set<bv64>, p: SearchState, d: bv64) returns (j: BitIndex)
    requires MarksFrom(q, p, 0) && WellFormed(p) && p.discrepancies != 0
    requires d in After(q, p.address)
    ensures j <= p.lastDiscrepancyIndex && Agree(d, p.address, j) && !Bit(p.address, j) && Bit(d, j)
  {
    j := ForkBelowLater(q, p.address, d);
    assert Bit(p.discrepancies, j);
  }

  /** No address after the previous one comes before the one a resumed pass finds. */
  lemma LaterThan(q: set<bv64>, a: bv64, k: BitIndex, res: bv64, d: bv64, j: BitIndex)
    requires Least(res, Prefixed(q, SetBit(a, k, true), k + 1)) && Agree(res, a, k)
    requires d in q && d != res
    requires j <= k && Agree(d, a, j) && !Bit(a, j) && Bit(d, j)
    ensures LsbLess(res, d)
  {
    if j == k {
      LaterAtSwitch(q, a, j, res, d);
    } else {
      LaterBelowSwitch(res, a, d, j, k);
    }
  }

  lemma ResumedLeast(q: set<bv64>, p: SearchState, res: bv64)
    requires MarksFrom(q, p, 0) && WellFormed(p) && p.discrepancies != 0
    requires Least(res, Prefixed(q, SetBit(p.address, p.lastDiscrepancyIndex, true), p.lastDiscrepancyIndex + 1))
    requires Agree(res, p.address, p.lastDiscrepancyIndex) && LsbLess(p.address, res)
    ensures Least(res, After(q, p.address))
  {
    forall d | d in After(q, p.address) && d != res
      ensures LsbLess(res, d)
    {
      var j := LeavesAtFork(q, p, d);
      LaterThan(q, p.address, p.lastDiscrepancyIndex, res, d, j);
    }
  }

  /** After replaying the previous path up to the last discrepancy `k` and taking the 1
      branch there, the devices selected are those on the path to `Restart`'s address. */
  lemma SwitchSelection(q: set<bv64>, p: SearchState)
    ensures var a, k := p.address, p.lastDiscrepancyIndex;
      Along(q, a, 0, k) == Prefixed(q, a, k)
      && Keep(Along(q, a, 0, k), k, true) == Prefixed(q, Restart(p).address, k + 1)
  {
    var a, k := p.address, p.lastDiscrepancyIndex;
    PrefixedZero(q, a);
    AlongPrefixed(q, a, 0, k);
    PrefixedStep(q, a, k, true);
  }

  lemma KeepOne(s: set<bv64>, i: BitIndex)
    requires HasOne(s, i)
    ensures Keep(s, i, true) != {}
  {
    var d :| d in s && Bit(d, i);
    assert d in Keep(s, i, true);
  }

  /** Resuming in the tree of `q` at the last discrepancy: both branches answer the switch,
      and the 1 branch, which discovery then descends, is not empty. */
  lemma SwitchBranch(q: set<bv64>, p: SearchState)
    requires Marks(q, p) && p.discrepancies != 0
    ensures var a, k := p.address, p.lastDiscrepancyIndex;
      var t := Along(q, a, 0, k);
      HasZero(t, k) && HasOne(t, k) && Keep(t, k, true) == Prefixed(q, Restart(p).address, k + 1) != {}
  {
    SwitchSelection(q, p);
    SwitchAnswers(q, p);
    KeepOne(Prefixed(q, p.address, p.lastDiscrepancyIndex), p.lastDiscrepancyIndex);
  }

  /** What discovery after the switch finds: the least address after the previous one,
      with loop variables that mark its position in the tree. */
  lemma ResumedFinds(q: set<bv64>, p: SearchState, res: SearchState)
    requires Marks(q, p) && p.discrepancies != 0
    requires Descended(q, Restart(p), p.lastDiscrepancyIndex + 1, res)
    requires Discovered(Restart(p), p.lastDiscrepancyIndex + 1, res)
    ensures Least(res.address, After(q, p.address)) && Marks(q, res)
  {
    RestartResumed(p);
    ResumedResult(p, Restart(p), res);
    ResumedSwitchedAt(p, Restart(p), res);
    SwitchedAgree(p, res);
    ResumedMarks(q, p, res);
    ResumedLeast(q, p, res.address);
  }

  /** A resumed pass in a tree it marks: the switch goes on, and discovery descends the 1
      branch at the last discrepancy. */
  lemma SearchedResumed(q: set<bv64>, p: SearchState)
    requires Marks(q, p) && p.discrepancies != 0
    ensures var k: bv8 := p.lastDiscrepancyIndex;
      Searched(q, Some(p)) == Gate(Descend(Prefixed(q, Restart(p).address, k + 1), k + 1, Restart(p)))
  {
    SwitchBranch(q, p);
  }

  /** A found address that is the least of those still to be found and passes the CRC
      check is returned. */
  lemma GateYields(q: set<bv64>, rest: set<bv64>, found: Result<SearchState>)
    requires found.Ok? && Least(found.value.address, rest) && Marks(q, found.value) && CrcValid(q)
    ensures Yields(q, rest, Gate(found))
  {}

  /** A resumed pass finds the least address after the previous one, and marks its
      position in the tree. */
  lemma ResumedSearched(q: set<bv64>, p: SearchState)
    requires Marks(q, p) && p.discrepancies != 0 && CrcValid(q)
    ensures Yields(q, After(q, p.address), Searched(q, Some(p)))
  {
    var k: bv8 := p.lastDiscrepancyIndex;
    var start := Restart(p);
    SwitchBranch(q, p);
    SearchedResumed(q, p);
    RestartResumed(p);
    ResumedClearAbove(p, start);
    DescendFacts(q, start, k + 1);
    var found := Descend(Prefixed(q, start.address, k + 1), k + 1, start);
    DescendDiscovered(Prefixed(q, start.address, k + 1), k + 1, start);
    ResumedFinds(q, p, found.value);
    GateYields(q, After(q, p.address), found);
  }

  // ----- device_search and the iterator on the wire -----------------------------------

  /** The addresses of `q` a search that last returned `prev` has still to find. */
  ghost function Remaining(q: set<bv64>, prev: Option<SearchState>): set<bv64> {
    if prev.Some? then After(q, prev.value.address) else q
  }

  /** `device_search` among the devices a search command selects: from no state it finds
      the least of them, from a state that marks a position in their tree the least after
      it, and the end of the search when there is none. The first pass needs a device
      that answers the command: when devices are present but none is selected, it fails
      (`NoAlarmingDevice`). */
  lemma SearchAmongYields(present: set<bv64>, alarming: set<bv64>, prev: Option<SearchState>, onlyAlarming: bool)
    requires CrcValid(Participants(present, alarming, onlyAlarming))
    requires prev.Some? ==> Marks(Participants(present, alarming, onlyAlarming), prev.value)
    requires prev.None? ==> Participants(present, alarming, onlyAlarming) != {} || present == {}
    ensures var q := Participants(present, alarming, onlyAlarming);
      Yields(q, Remaining(q, prev), SearchAmong(present, alarming, prev, onlyAlarming))
  {
    var q := Participants(present, alarming, onlyAlarming);
    if prev.Some? {
      Exhausted(q, prev.value);
      if prev.value.discrepancies != 0 {
        assert prev.value.address in present;
        ResumedSearched(q, prev.value);
      }
    } else if present != {} {
      FirstSearched(q);
    }
  }

  /** A search for alarming devices when devices are present but none is alarming fails at
      bit 0, where no device answers, rather than reporting that there is none. */
  lemma NoAlarmingDevice(present: set<bv64>, alarming: set<bv64>)
    requires present != {} && present * alarming == {}
    ensures SearchAmong(present, alarming, None, true) == Err(UnexpectedResponse)
  {
    assert !HasZero({}, 0) && !HasOne({}, 0);
  }

  /** The addresses after the least one still to be found are the others still to be
      found. */
  lemma AfterLeast(q: set<bv64>, prev: Option<SearchState>, m: bv64)
    requires Least(m, Remaining(q, prev))
    ensures After(q, m) == Remaining(q, prev) - {m}
  {
    forall x | x in After(q, m)
      ensures x in Remaining(q, prev) && x != m
    {
      LsbLessIrreflexive(m);
      if prev.Some? {
        LsbLessTransitive(prev.value.address, m, x);
      }
    }
  }

  /** The items of a run of the iterator that lists the addresses `rest`: one address per
      call, each after the one before in search order, exactly those of `rest`, and then
      the end of the iteration. */
  ghost predicate Lists(items: seq<Option<Result<Address>>>, rest: set<bv64>) {
    |items| == |rest| + 1 && items[|rest|] == None
    && (forall i :: 0 <= i < |rest| ==> items[i].Some? && items[i].value.Ok?)
    && var ys := Yielded(items);
       |ys| == |rest| && Chain(ys) && (forall x :: x in ys <==> x in rest)
  }

  lemma ListsNone()
    ensures Lists([None], {})
  {
    var items: seq<Option<Result<Address>>> := [None];
    assert items[1..] == [];
  }

  lemma ListsCons(m: bv64, items: seq<Option<Result<Address>>>, rest: set<bv64>, rest': set<bv64>)
    requires Lists(items, rest') && m in rest && rest' == rest - {m}
    requires forall x :: x in rest' ==> LsbLess(m, x)
    ensures Lists([Some(Ok(Address(m)))] + items, rest)
  {
    var all := [Some(Ok(Address(m)))] + items;
    assert all[1..] == items;
    assert Yielded(all) == [m] + Yielded(items);
    var ys := Yielded(items);
    if |ys| > 0 {
      assert ys[0] in ys;
    }
    ChainCons(m, ys);
    forall i | 0 <= i < |rest|
      ensures all[i].Some? && all[i].value.Ok?
    {
      if i > 0 {
        assert all[i] == items[i - 1];
      }
    }
  }

  lemma RunAmongStep(present: set<bv64>, alarming: set<bv64>, c: Cursor, onlyAlarming: bool, n: nat)
    requires n > 0
    ensures var (item, c1) := NextAmong(present, alarming, c, onlyAlarming);
      var rest := RunAmong(present, alarming, c1, onlyAlarming, n - 1);
      RunAmong(present, alarming, c, onlyAlarming, n) == ([item] + rest.0, rest.1)
  {}

  /** What one call of `next` does to a cursor in the tree of `q` with the addresses
      `rest` still to be found: it ends the iteration when there are none, and otherwise
      yields the least of them and keeps loop variables that mark it. */
  ghost predicate Advances(q: set<bv64>, rest: set<bv64>, item: Option<Result<Address>>, c: Cursor) {
    if rest == {} then item == None && c.finished
    else
      !c.finished && c.state.Some? && item == Some(Ok(Address(c.state.value.address)))
      && Least(c.state.value.address, rest) && Marks(q, c.state.value)
  }

  lemma AdvanceYields(q: set<bv64>, rest: set<bv64>, r: Result<Option<(Address, SearchState)>>)
    requires Yields(q, rest, r)
    ensures Advances(q, rest, Advance(r).0, Advance(r).1)
  {}

  /** The cursor after a call that yields the least address `m` still to be found has
      the others still to find, one fewer. */
  lemma RemainingAfter(q: set<bv64>, prev: Option<SearchState>, st: SearchState)
    requires Least(st.address, Remaining(q, prev))
    ensures Remaining(q, Some(st)) == Remaining(q, prev) - {st.address}
    ensures |Remaining(q, Some(st))| + 1 == |Remaining(q, prev)|
  {
    AfterLeast(q, prev, st.address);
  }

  /** A cursor the iterator can go on from: not finished, every selected device passes
      the CRC check, and its state marks the last address found in the tree of the
      selected devices; without a state, some device is selected unless none is
      present. */
  ghost predicate Resumes(present: set<bv64>, alarming: set<bv64>, c: Cursor, onlyAlarming: bool) {
    var q := Participants(present, alarming, onlyAlarming);
    !c.finished && CrcValid(q) && (c.state.Some? ==> Marks(q, c.state.value))
    && (c.state.None? ==> q != {} || present == {})
  }

  /** The calls of `next` from cursor `c` list the selected addresses still to be found,
      and leave the iterator finished. */
  ghost predicate Enumerated(present: set<bv64>, alarming: set<bv64>, c: Cursor, onlyAlarming: bool) {
    var rest := Remaining(Participants(present, alarming, onlyAlarming), c.state);
    var run := RunAmong(present, alarming, c, onlyAlarming, |rest| + 1);
    Lists(run.0, rest) && run.1.finished
  }

  /** A call of `next` with no address still to be found ends the iteration. */
  lemma NextEnds(present: set<bv64>, alarming: set<bv64>, c: Cursor, onlyAlarming: bool)
    requires Resumes(present, alarming, c, onlyAlarming)
    requires Remaining(Participants(present, alarming, onlyAlarming), c.state) == {}
    ensures var (item, c1) := NextAmong(present, alarming, c, onlyAlarming);
      item == None && c1.finished
  {
    var q := Participants(present, alarming, onlyAlarming);
    var r := SearchAmong(present, alarming, c.state, onlyAlarming);
    SearchAmongYields(present, alarming, c.state, onlyAlarming);
    AdvanceYields(q, {}, r);
  }

  lemma EnumeratedLast(present: set<bv64>, alarming: set<bv64>, c: Cursor, onlyAlarming: bool)
    requires Remaining(Participants(present, alarming, onlyAlarming), c.state) == {}
    requires NextAmong(present, alarming, c, onlyAlarming).0 == None
    requires NextAmong(present, alarming, c, onlyAlarming).1.finished
    ensures Enumerated(present, alarming, c, onlyAlarming)
  {
    RunAmongStep(present, alarming, c, onlyAlarming, 1);
    ListsNone();
    var c1 := NextAmong(present, alarming, c, onlyAlarming).1;
    var items: seq<Option<Result<Address>>> := [None];
    assert RunAmong(present, alarming, c1, onlyAlarming, 0) == ([], c1);
    assert items + [] == items;
    assert RunAmong(present, alarming, c, onlyAlarming, 1) == (items, c1);
  }

  /** A call of `next` with addresses still to be found yields the least of them and
      leaves a cursor the iterator can go on from, with one address fewer to find. */
  lemma ResumesNext(present: set<bv64>, alarming: set<bv64>, c: Cursor, onlyAlarming: bool)
    requires Resumes(present, alarming, c, onlyAlarming)
    requires Remaining(Participants(present, alarming, onlyAlarming), c.state) != {}
    ensures var q := Participants(present, alarming, onlyAlarming);
      var (item, c1) := NextAmong(present, alarming, c, onlyAlarming);
      var rest := Remaining(q, c.state);
      Resumes(present, alarming, c1, onlyAlarming) && c1.state.Some?
      && item == Some(Ok(Address(c1.state.value.address))) && Least(c1.state.value.address, rest)
      && Remaining(q, c1.state) == rest - {c1.state.value.address}
      && |Remaining(q, c1.state)| + 1 == |rest|
  {
    var q := Participants(present, alarming, onlyAlarming);
    var r := SearchAmong(present, alarming, c.state, onlyAlarming);
    SearchAmongYields(present, alarming, c.state, onlyAlarming);
    AdvanceYields(q, Remaining(q, c.state), r);
    RemainingAfter(q, c.state, Advance(r).1.state.value);
  }

  lemma EnumeratedCons(present: set<bv64>, alarming: set<bv64>, c: Cursor, onlyAlarming: bool, c1: Cursor, m: bv64)
    requires c1 == NextAmong(present, alarming, c, onlyAlarming).1
    requires NextAmong(present, alarming, c, onlyAlarming).0 == Some(Ok(Address(m)))
    requires var q := Participants(present, alarming, onlyAlarming);
      var rest := Remaining(q, c.state);
      Least(m, rest) && Remaining(q, c1.state) == rest - {m} && |Remaining(q, c1.state)| + 1 == |rest|
    requires Enumerated(present, alarming, c1, onlyAlarming)
    ensures Enumerated(present, alarming, c, onlyAlarming)
  {
    var q := Participants(present, alarming, onlyAlarming);
    var rest := Remaining(q, c.state);
    RunAmongStep(present, alarming, c, onlyAlarming, |rest| + 1);
    ListsCons(m, RunAmong(present, alarming, c1, onlyAlarming, |rest|).0, rest, rest - {m});
  }

  /** From a cursor whose state marks the last address found, the iterator lists the
      addresses still to be found among those the search command selects, and is
      finished after. */
  lemma {:induction false} RunEnumerates(present: set<bv64>, alarming: set<bv64>, c: Cursor, onlyAlarming: bool)
    requires Resumes(present, alarming, c, onlyAlarming)
    ensures Enumerated(present, alarming, c, onlyAlarming)
    decreases |Remaining(Participants(present, alarming, onlyAlarming), c.state)|
  {
    var q := Participants(present, alarming, onlyAlarming);
    if Remaining(q, c.state) == {} {
      NextEnds(present, alarming, c, onlyAlarming);
      EnumeratedLast(present, alarming, c, onlyAlarming);
    } else {
      ResumesNext(present, alarming, c, onlyAlarming);
      var c1 := NextAmong(present, alarming, c, onlyAlarming).1;
      RunEnumerates(present, alarming, c1, onlyAlarming);
      EnumeratedCons(present, alarming, c, onlyAlarming, c1, c1.state.value.address);
    }
  }

  /** The iterator of `devices`, on a wire whose selected devices all pass the CRC check,
      yields each selected device exactly once, in ascending search order, and then
      ends; when devices are present, at least one of them must be selected. */
  lemma EveryDeviceOnce(l: Line<Devices>, onlyAlarming: bool)
    requires Quiet(l.world)
    requires var q := Participants(l.world.present, l.world.alarming, onlyAlarming);
      CrcValid(q) && (q != {} || l.world.present == {})
    ensures var q := Participants(l.world.present, l.world.alarming, onlyAlarming);
      var run := Run(Bus, l, Fresh, onlyAlarming, |q| + 1);
      Lists(run.0, q) && run.1.finished
  {
    var q := Participants(l.world.present, l.world.alarming, onlyAlarming);
    RunOnBus(l, Fresh, onlyAlarming, |q| + 1);
    RunEnumerates(l.world.present, l.world.alarming, Fresh, onlyAlarming);
  }

  /** Otherwise, on a search for alarming devices, the first call yields an error. */
  lemma NoAlarmingDeviceOnBus(l: Line<Devices>)
    requires Quiet(l.world) && l.world.present != {} && l.world.present * l.world.alarming == {}
    ensures Next(Bus, l, Fresh, true).0 == Some(Err(UnexpectedResponse))
  {
    PassOnBus(l, None, true);
    NoAlarmingDevice(l.world.present, l.world.alarming);
  }
}
