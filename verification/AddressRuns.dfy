/** Whole runs of the fixed-address calls: when an address that several rows have can
    be assigned twice without having been freed. */
module AddressRuns {

  import opened AddressAllocation
  import opened Lists
  import opened Wrappers

  /** A run from a table without history; no rows are created meanwhile. */
  function Ran(e: Known, rows: seq<FixedIp>, calls: seq<Call>): Table {
    if calls == [] then Table(rows, [])
    else After(e, Ran(e, rows, calls[..|calls| - 1]), calls[|calls| - 1])
  }

  lemma RanNext(e: Known, rows: seq<FixedIp>, calls: seq<Call>, c: Call)
    ensures Ran(e, rows, calls + [c]) == After(e, Ran(e, rows, calls), c)
  {
    assert (calls + [c])[..|calls|] == calls;
  }

  // ---------- every run keeps the trace ----------

  /** The first `n` rows have been looked at. */
  function ExpiredUpTo(rows: seq<FixedIp>, n: nat, networks: set<int>, time: int, now: int): seq<FixedIp> {
    seq(|rows|, i requires 0 <= i < |rows| => if i < n then Expired(rows[i], networks, time, now) else rows[i])
  }

  lemma {:induction false} TimeoutKeepsTrace(rows: seq<FixedIp>, log: seq<Event>, n: nat,
      networks: set<int>, time: int, now: int)
    requires Traced(rows, log) && n <= |rows|
    ensures Traced(ExpiredUpTo(rows, n, networks, time, now), log + Freeing(rows[..n], networks, time))
  {
    var after := ExpiredUpTo(rows, n, networks, time, now);
    if n == 0 {
      assert after == rows && log + Freeing(rows[..0], networks, time) == log;
    } else {
      var k := n - 1;
      var before := ExpiredUpTo(rows, k, networks, time, now);
      TimeoutKeepsTrace(rows, log, k, networks, time, now);
      assert rows[..n][..k] == rows[..k];
      var freed := log + Freeing(rows[..k], networks, time);
      hide Traced;
      if TimedOut(rows[k], networks, time) {
        FreeKeepsTrace(before, freed, k, before[k].(leased := false, updatedAt := now));
        assert after == before[k := before[k].(leased := false, updatedAt := now).(instance := None)];
        assert log + Freeing(rows[..n], networks, time) == freed + [Freed(k)];
      } else {
        assert after == before;
        assert log + Freeing(rows[..n], networks, time) == freed;
      }
    }
  }

  lemma AfterKeepsTrace(e: Known, t: Table, c: Call)
    requires Traced(t.rows, t.log)
    ensures Traced(After(e, t, c).rows, After(e, t, c).log)
  {
    hide Traced;
    var next := After(e, t, c);
    match c
    case ByAddress(a, x, n, reserved) =>
      if next != t {
        var i := FirstRequested(t.rows, a, n, reserved);
        AssignKeepsTrace(t.rows, t.log, i, Joined(t.rows[i], n).(instance := Some(x)), x);
      }
    case FromPool(n, x, h) =>
      if next != t {
        var i := FirstAvailable(t.rows, Some(n));
        var r := Joined(t.rows[i], Some(n)).(instance := x, host := h);
        if x.Some? {
          AssignKeepsTrace(t.rows, t.log, i, r, x.value);
        } else {
          SameHoldersKeepTrace(t.rows, t.log, t.rows[i := r]);
        }
      }
    case Release(a) =>
      if next != t {
        var i := FirstAddress(t.rows, a);
        FreeKeepsTrace(t.rows, t.log, i, t.rows[i]);
      }
    case ReleaseTimedOut(networks, time, now) =>
      TimeoutKeepsTrace(t.rows, t.log, |t.rows|, networks, time, now);
      assert t.rows[..|t.rows|] == t.rows;
      assert next.rows == ExpiredUpTo(t.rows, |t.rows|, networks, time, now);
  }

  lemma {:induction false} RanKeepsTrace(e: Known, rows: seq<FixedIp>, calls: seq<Call>)
    ensures Traced(Ran(e, rows, calls).rows, Ran(e, rows, calls).log)
  {
    if calls != [] {
      RanKeepsTrace(e, rows, calls[..|calls| - 1]);
      AfterKeepsTrace(e, Ran(e, rows, calls[..|calls| - 1]), calls[|calls| - 1]);
    }
  }

  // ---------- what no call changes ----------

  /** A row keeps its address, its flags and the network it has; a host only comes. */
  predicate SameRow(was: FixedIp, r: FixedIp) {
    && r.address == was.address && r.deleted == was.deleted && r.reserved == was.reserved
    && (was.network.Some? ==> r.network == was.network)
    && (r.host == None ==> was.host == None)
  }

  ghost predicate SameRows(rows: seq<FixedIp>, now: seq<FixedIp>) {
    |now| == |rows| && forall i :: 0 <= i < |rows| ==> SameRow(rows[i], now[i])
  }

  lemma AfterKeepsRows(e: Known, rows: seq<FixedIp>, t: Table, c: Call)
    requires SameRows(rows, t.rows)
    ensures SameRows(rows, After(e, t, c).rows)
  {
    match c
    case ByAddress(_, _, _, _) =>
    case FromPool(_, _, _) =>
    case Release(_) =>
    case ReleaseTimedOut(_, _, _) =>
  }

  lemma {:induction false} RanKeepsRows(e: Known, rows: seq<FixedIp>, calls: seq<Call>)
    ensures SameRows(rows, Ran(e, rows, calls).rows)
  {
    if calls != [] {
      RanKeepsRows(e, rows, calls[..|calls| - 1]);
      AfterKeepsRows(e, rows, Ran(e, rows, calls[..|calls| - 1]), calls[|calls| - 1]);
    }
  }

  /** Whatever networks the rows have: where live addresses are distinct, every run
      frees an address before it is assigned again. */
  lemma DistinctAddressesFreed(e: Known, rows: seq<FixedIp>, calls: seq<Call>)
    requires DistinctAddresses(rows)
    ensures AddressesFreed(Ran(e, rows, calls).rows, Ran(e, rows, calls).log)
  {
    var t := Ran(e, rows, calls);
    RanKeepsTrace(e, rows, calls);
    RanKeepsRows(e, rows, calls);
    assert DistinctAddresses(t.rows);
    hide Traced, DistinctAddresses, Ran;
    forall j: nat, k: nat | j < k < |t.log| && SameAddressAssigned(t.rows, t.log, j, k)
      ensures AddressFreedBetween(t.rows, t.log, t.rows[t.log[j].row].address, j, k)
    {
      AddressTrace(t.rows, t.log, j, k);
    }
  }

  // ---------- the exact condition ----------

  /** Two live rows of one address that a run can assign both: a request by address
      tells them apart by network or by the reserved flag, and the pool reaches the
      later one if it is neither reserved nor bound to a host. */
  predicate Clashes(a: FixedIp, b: FixedIp) {
    && !a.deleted && !b.deleted && a.address == b.address
    && (a.network != b.network || a.reserved != b.reserved || (!b.reserved && b.host == None))
  }

  ghost predicate Clash(rows: seq<FixedIp>) {
    exists i, j :: 0 <= i < j < |rows| && Clashes(rows[i], rows[j])
  }

  ghost predicate Unheld(rows: seq<FixedIp>) {
    forall i :: 0 <= i < |rows| ==> rows[i].instance == None
  }

  ghost predicate Networked(rows: seq<FixedIp>) {
    forall i :: 0 <= i < |rows| && !rows[i].deleted ==> rows[i].network.Some?
  }

  /** No live row before this one has its address. */
  ghost predicate First(rows: seq<FixedIp>, i: nat) {
    i < |rows| && forall k :: 0 <= k < i && !rows[k].deleted ==> rows[k].address != rows[i].address
  }

  ghost predicate OnlyFirst(e: Known, rows: seq<FixedIp>, log: seq<Event>) {
    forall j :: 0 <= j < |log| && log[j].Assigned? ==> First(rows, log[j].row) && log[j].instance in e.instances
  }

  lemma RequestedIsFirst(rows: seq<FixedIp>, now: seq<FixedIp>, c: Call)
    requires c.ByAddress? && SameRows(rows, now) && Networked(rows) && !Clash(rows)
    requires FirstRequested(now, c.address, c.network, c.reserved) < |now|
    ensures First(rows, FirstRequested(now, c.address, c.network, c.reserved))
  {
    var i := FirstRequested(now, c.address, c.network, c.reserved);
    assert SameRow(rows[i], now[i]);
    forall k | 0 <= k < i && !rows[k].deleted ensures rows[k].address != rows[i].address {
      assert SameRow(rows[k], now[k]);
      assert !Requested(now[k], c.address, c.network, c.reserved);
      assert !Clashes(rows[k], rows[i]);
    }
  }

  lemma AvailableIsFirst(rows: seq<FixedIp>, now: seq<FixedIp>, network: Option<int>)
    requires SameRows(rows, now) && !Clash(rows)
    requires FirstAvailable(now, network) < |now|
    ensures First(rows, FirstAvailable(now, network))
  {
    var i := FirstAvailable(now, network);
    assert SameRow(rows[i], now[i]);
    forall k | 0 <= k < i && !rows[k].deleted ensures rows[k].address != rows[i].address {
      assert !Clashes(rows[k], rows[i]);
    }
  }

  lemma {:induction false} FreeingOnlyFrees(rows: seq<FixedIp>, networks: set<int>, time: int)
    ensures forall j :: 0 <= j < |Freeing(rows, networks, time)| ==> Freeing(rows, networks, time)[j].Freed?
  {
    if rows != [] { FreeingOnlyFrees(rows[..|rows| - 1], networks, time); }
  }

  lemma AfterAssignsFirst(e: Known, rows: seq<FixedIp>, t: Table, c: Call)
    requires SameRows(rows, t.rows) && Networked(rows) && !Clash(rows) && OnlyFirst(e, rows, t.log)
    ensures OnlyFirst(e, rows, After(e, t, c).log)
  {
    hide SameRows, Networked, Clash, First;
    match c
    case ByAddress(a, _, n, reserved) =>
      if FirstRequested(t.rows, a, n, reserved) < |t.rows| { RequestedIsFirst(rows, t.rows, c); }
    case FromPool(n, _, _) =>
      if FirstAvailable(t.rows, Some(n)) < |t.rows| { AvailableIsFirst(rows, t.rows, Some(n)); }
    case Release(_) =>
    case ReleaseTimedOut(networks, time, _) =>
      FreeingOnlyFrees(t.rows, networks, time);
  }

  lemma {:induction false} RanAssignsFirst(e: Known, rows: seq<FixedIp>, calls: seq<Call>)
    requires Networked(rows) && !Clash(rows)
    ensures OnlyFirst(e, rows, Ran(e, rows, calls).log)
  {
    if calls != [] {
      RanAssignsFirst(e, rows, calls[..|calls| - 1]);
      RanKeepsRows(e, rows, calls[..|calls| - 1]);
      AfterAssignsFirst(e, rows, Ran(e, rows, calls[..|calls| - 1]), calls[|calls| - 1]);
    }
  }

  lemma {:induction false} RanAssignsToExisting(e: Known, rows: seq<FixedIp>, calls: seq<Call>)
    requires forall x :: x !in e.instances
    ensures forall j :: 0 <= j < |Ran(e, rows, calls).log| ==> Ran(e, rows, calls).log[j].Freed?
  {
    if calls != [] {
      var t, c := Ran(e, rows, calls[..|calls| - 1]), calls[|calls| - 1];
      RanAssignsToExisting(e, rows, calls[..|calls| - 1]);
      if c.ReleaseTimedOut? { FreeingOnlyFrees(t.rows, c.hostNetworks, c.time); }
    }
  }

  lemma NoClashFreed(e: Known, rows: seq<FixedIp>, calls: seq<Call>)
    requires Networked(rows) && !Clash(rows)
    ensures AddressesFreed(Ran(e, rows, calls).rows, Ran(e, rows, calls).log)
  {
    var t := Ran(e, rows, calls);
    RanKeepsTrace(e, rows, calls);
    RanKeepsRows(e, rows, calls);
    RanAssignsFirst(e, rows, calls);
    hide Ran, Networked, Clash;
    forall j: nat, k: nat | j < k < |t.log| && SameAddressAssigned(t.rows, t.log, j, k)
      ensures AddressFreedBetween(t.rows, t.log, t.rows[t.log[j].row].address, j, k)
    {
      var a, b := t.log[j].row, t.log[k].row;
      assert First(rows, a) && First(rows, b) && Recorded(t.rows, t.log[j]) && Recorded(t.rows, t.log[k]);
      assert SameRow(rows[a], t.rows[a]) && SameRow(rows[b], t.rows[b]);
      assert a == b;
      assert SameAssigned(t.log, j, k) && FreedBetween(t.log, a, j, k);
    }
  }

  // ---------- and a run where it fails ----------

  lemma OneByAddress(e: Known, t: Table, a: string, x: int, network: int, reserved: bool)
    requires x in e.instances && Networked(t.rows)
    requires var i := FirstRequested(t.rows, a, Some(network), reserved); i < |t.rows| && t.rows[i].instance == None
    ensures var i := FirstRequested(t.rows, a, Some(network), reserved);
      After(e, t, ByAddress(a, x, Some(network), reserved))
        == Table(t.rows[i := t.rows[i].(instance := Some(x))], t.log + [Assigned(i, x)])
  {}

  /** A request by address goes to the first row that fits, whoever holds it. */
  lemma FirstWhoeverHolds(rows: seq<FixedIp>, k: nat, x: int, a: string, network: Option<int>, reserved: bool)
    requires k < |rows|
    ensures var after := rows[k := rows[k].(instance := Some(x))];
      FirstRequested(after, a, network, reserved) == FirstRequested(rows, a, network, reserved)
  {
    var after := rows[k := rows[k].(instance := Some(x))];
    var i, j := FirstRequested(rows, a, network, reserved), FirstRequested(after, a, network, reserved);
    assert i < |rows| ==> Requested(after[i], a, network, reserved);
    assert j < |rows| ==> Requested(rows[j], a, network, reserved);
  }

  lemma ByTwoRequests(e: Known, rows: seq<FixedIp>, i: nat, j: nat, x: int) returns (calls: seq<Call>)
    requires Unheld(rows) && Networked(rows) && x in e.instances
    requires i < j < |rows| && Clashes(rows[i], rows[j])
    requires rows[i].network != rows[j].network || rows[i].reserved != rows[j].reserved
    ensures !AddressesFreed(Ran(e, rows, calls).rows, Ran(e, rows, calls).log)
  {
    var a, b := rows[i], rows[j];
    var first := ByAddress(a.address, x, a.network, a.reserved);
    var second := ByAddress(a.address, x, b.network, b.reserved);
    var k := FirstRequested(rows, a.address, a.network, a.reserved);
    var l := FirstRequested(rows, a.address, b.network, b.reserved);
    calls := [first] + [second];
    assert Requested(a, a.address, a.network, a.reserved) && Requested(b, a.address, b.network, b.reserved);
    OneByAddress(e, Table(rows, []), a.address, x, a.network.value, a.reserved);
    var t := Table(rows[k := rows[k].(instance := Some(x))], [Assigned(k, x)]);
    assert [] + [Assigned(k, x)] == [Assigned(k, x)];
    FirstWhoeverHolds(rows, k, x, a.address, b.network, b.reserved);
    assert k != l;
    OneByAddress(e, t, a.address, x, b.network.value, b.reserved);
    RanNext(e, rows, [], first);
    RanNext(e, rows, [first], second);
    assert [] + [first] == [first];
    var last := Ran(e, rows, calls);
    assert last.log == [Assigned(k, x)] + [Assigned(l, x)];
    assert SameAddressAssigned(last.rows, last.log, 0, 1);
  }

  /** Only assignments, so nothing was ever freed. */
  ghost predicate NeverFreed(log: seq<Event>) {
    forall j :: 0 <= j < |log| ==> log[j].Assigned?
  }

  lemma OneFromPool(e: Known, t: Table, network: int, x: int)
    requires x in e.instances && Networked(t.rows) && FirstAvailable(t.rows, Some(network)) < |t.rows|
    ensures var i := FirstAvailable(t.rows, Some(network));
      After(e, t, FromPool(network, Some(x), None))
        == Table(t.rows[i := t.rows[i].(instance := Some(x), host := None)], t.log + [Assigned(i, x)])
  {}

  /** Call after call, the pool works its way up to an available row. */
  lemma {:induction false} PoolReaches(e: Known, rows: seq<FixedIp>, calls: seq<Call>, network: int, j: nat, x: int)
      returns (more: seq<Call>)
    requires x in e.instances && Networked(rows) && NeverFreed(Ran(e, rows, calls).log)
    requires j < |rows| == |Ran(e, rows, calls).rows| && Available(Ran(e, rows, calls).rows[j], Some(network))
    ensures var t := Ran(e, rows, more);
      && NeverFreed(t.log) && Ran(e, rows, calls).log < t.log && t.log[|t.log| - 1] == Assigned(j, x)
    decreases j - FirstAvailable(Ran(e, rows, calls).rows, Some(network))
  {
    hide Ran, After;
    var t, c := Ran(e, rows, calls), FromPool(network, Some(x), None);
    var i := FirstAvailable(t.rows, Some(network));
    RanKeepsRows(e, rows, calls);
    StaysNetworked(rows, t.rows);
    PoolStep(e, t, network, j, x);
    RanNext(e, rows, calls, c);
    more := calls + [c];
    if i != j {
      more := PoolReaches(e, rows, more, network, j, x);
    }
  }

  lemma StaysNetworked(rows: seq<FixedIp>, now: seq<FixedIp>)
    requires SameRows(rows, now) && Networked(rows)
    ensures Networked(now)
  {
    forall k | 0 <= k < |rows| && !now[k].deleted ensures now[k].network.Some? { assert SameRow(rows[k], now[k]); }
  }

  /** One call to the pool assigns the available row or brings the pool closer to it. */
  lemma PoolStep(e: Known, t: Table, network: int, j: nat, x: int)
    requires x in e.instances && Networked(t.rows) && NeverFreed(t.log)
    requires j < |t.rows| && Available(t.rows[j], Some(network))
    ensures var i, next := FirstAvailable(t.rows, Some(network)), After(e, t, FromPool(network, Some(x), None));
      && i <= j && |next.rows| == |t.rows|
      && next.log == t.log + [Assigned(i, x)] && NeverFreed(next.log)
      && (i != j ==> Available(next.rows[j], Some(network)) && i < FirstAvailable(next.rows, Some(network)) <= j)
  {
    OneFromPool(e, t, network, x);
    var i, next := FirstAvailable(t.rows, Some(network)), After(e, t, FromPool(network, Some(x), None));
    hide After;
    forall k | 0 <= k < i ensures !Available(next.rows[k], Some(network)) { assert next.rows[k] == t.rows[k]; }
    assert !Available(next.rows[i], Some(network));
  }

  lemma ByThePool(e: Known, rows: seq<FixedIp>, i: nat, j: nat, x: int) returns (calls: seq<Call>)
    requires Unheld(rows) && Networked(rows) && x in e.instances
    requires i < j < |rows| && Clashes(rows[i], rows[j])
    requires rows[i].network == rows[j].network && rows[i].reserved == rows[j].reserved
    ensures !AddressesFreed(Ran(e, rows, calls).rows, Ran(e, rows, calls).log)
  {
    var a := rows[i];
    var first := ByAddress(a.address, x, a.network, a.reserved);
    var k := FirstRequested(rows, a.address, a.network, a.reserved);
    assert Requested(a, a.address, a.network, a.reserved) && k <= i;
    OneByAddress(e, Table(rows, []), a.address, x, a.network.value, a.reserved);
    RanNext(e, rows, [], first);
    assert [] + [first] == [first] && [] + [Assigned(k, x)] == [Assigned(k, x)];
    assert Ran(e, rows, [first]) == Table(rows[k := rows[k].(instance := Some(x))], [Assigned(k, x)]);
    calls := PoolReaches(e, rows, [first], a.network.value, j, x);
    var t := Ran(e, rows, calls);
    RanKeepsRows(e, rows, calls);
    assert t.log[0] == [Assigned(k, x)][0];
    assert SameRow(rows[k], t.rows[k]) && SameRow(rows[j], t.rows[j]);
    assert SameAddressAssigned(t.rows, t.log, 0, |t.log| - 1);
  }

  /** For a table in which every live row has a network and none is held: some run
      assigns an address twice without freeing it if and only if there is an instance
      at all and two live rows of the address clash. Two rows of one network that are
      both reserved, or of which the later one is bound to a host, do not. */
  lemma RunsFreeAddressesIff(e: Known, rows: seq<FixedIp>)
    requires Unheld(rows) && Networked(rows)
    ensures (exists calls :: !AddressesFreed(Ran(e, rows, calls).rows, Ran(e, rows, calls).log)) <==>
      (exists x :: x in e.instances) && Clash(rows)
  {
    if (exists x :: x in e.instances) && Clash(rows) {
      var x :| x in e.instances;
      var i, j :| 0 <= i < j < |rows| && Clashes(rows[i], rows[j]);
      var calls;
      if rows[i].network != rows[j].network || rows[i].reserved != rows[j].reserved {
        calls := ByTwoRequests(e, rows, i, j, x);
      } else {
        calls := ByThePool(e, rows, i, j, x);
      }
      assert !AddressesFreed(Ran(e, rows, calls).rows, Ran(e, rows, calls).log);
    } else {
      forall calls ensures AddressesFreed(Ran(e, rows, calls).rows, Ran(e, rows, calls).log) {
        if forall x :: x !in e.instances {
          RanAssignsToExisting(e, rows, calls);
        } else {
          NoClashFreed(e, rows, calls);
        }
      }
    }
  }

  /** The input: two pool rows of one address, and two calls to the pool. */
  lemma PoolAssignsTwice(e: Known, r: FixedIp, network: int, x: int)
    requires Available(r, Some(network)) && r.network == Some(network) && x in e.instances
    ensures var c := FromPool(network, Some(x), None);
      var t := Ran(e, [r, r], [c, c]);
      t.log == [Assigned(0, x), Assigned(1, x)] && !AddressesFreed(t.rows, t.log)
  {
    hide After, Ran;
    var c, held := FromPool(network, Some(x), None), r.(instance := Some(x), host := None);
    var start, middle := Table([r, r], []), Table([held, r], [Assigned(0, x)]);
    RanNext(e, [r, r], [], c);
    RanNext(e, [r, r], [c], c);
    RanNone(e, [r, r]);
    assert [] + [c] == [c] && [c] + [c] == [c, c];
    OneFromPool(e, start, network, x);
    assert FirstAvailable(start.rows, Some(network)) == 0;
    assert [] + [Assigned(0, x)] == [Assigned(0, x)] && [r, r][0 := held] == [held, r];
    OneFromPool(e, middle, network, x);
    assert !Available(held, Some(network)) && FirstAvailable(middle.rows, Some(network)) == 1;
    var t := Ran(e, [r, r], [c, c]);
    assert t.log == [Assigned(0, x)] + [Assigned(1, x)];
    assert SameAddressAssigned(t.rows, t.log, 0, 1);
  }

  lemma RanNone(e: Known, rows: seq<FixedIp>)
    ensures Ran(e, rows, []) == Table(rows, [])
  {}
}
