/** Fixed addresses and networks: who holds an address, which network a project has,
    and which host serves it. Each database function is one step. */
module AddressAllocation {

  import opened Lists
  import opened Wrappers

  datatype FixedIp = FixedIp(address: string, network: Option<int>, instance: Option<int>, host: Option<string>,
    reserved: bool, deleted: bool, isAllocated: bool, leased: bool, updatedAt: int)

  /** What happened to the row with a given position. */
  datatype Event = Assigned(row: nat, instance: int) | Freed(row: nat)

  predicate FreedBetween(log: seq<Event>, row: nat, j: nat, k: nat) {
    exists f :: j < f < k && f < |log| && log[f] == Freed(row)
  }

  predicate SameAssigned(log: seq<Event>, j: nat, k: nat)
    requires j < k < |log|
  {
    log[j].Assigned? && log[k].Assigned? && log[j].row == log[k].row
  }

  /** Step `j` assigned a row that has not been freed since. */
  predicate Standing(log: seq<Event>, j: nat)
    requires j < |log|
  {
    log[j].Assigned? && !FreedBetween(log, log[j].row, j, |log|)
  }

  predicate Holds(rows: seq<FixedIp>, row: nat, instance: int) {
    row < |rows| && rows[row].instance == Some(instance)
  }

  predicate Recorded(rows: seq<FixedIp>, e: Event) {
    e.row < |rows| && (e.Assigned? ==> !rows[e.row].deleted)
  }

  /** Only live rows are assigned; between two assignments of a row there is a step
      that frees it; and a row that was assigned and not freed since is held by that
      instance. */
  ghost predicate Traced(rows: seq<FixedIp>, log: seq<Event>) {
    && (forall j :: 0 <= j < |log| ==> Recorded(rows, log[j]))
    && (forall j, k :: 0 <= j < k < |log| && SameAssigned(log, j, k) ==> FreedBetween(log, log[j].row, j, k))
    && (forall j :: 0 <= j < |log| && Standing(log, j) ==> Holds(rows, log[j].row, log[j].instance))
  }

  datatype Failure = NotFoundForNetwork | AlreadyInUse | NoMoreFixedIps | NetworkNotFound
    | InstanceNotFound | FixedIpNotFound

  datatype Outcome<T> = Done(value: T) | Failed(error: Failure)

  predicate InNetwork(r: FixedIp, network: Option<int>) {
    r.network == network || r.network == None
  }

  predicate Requested(r: FixedIp, address: string, network: Option<int>, reserved: bool) {
    InNetwork(r, network) && r.reserved == reserved && !r.deleted && r.address == address
  }

  predicate Available(r: FixedIp, network: Option<int>) {
    InNetwork(r, network) && !r.reserved && !r.deleted && r.instance == None && r.host == None
  }

  predicate TimedOut(r: FixedIp, networks: set<int>, time: int) {
    r.network.Some? && r.network.value in networks && r.updatedAt < time && r.instance.Some? && !r.isAllocated
  }

  function Expired(r: FixedIp, networks: set<int>, time: int, now: int): FixedIp {
    if TimedOut(r, networks, time) then r.(instance := None, leased := false, updatedAt := now) else r
  }

  /** The steps that free the timed-out rows, one for each. */
  function Freeing(rows: seq<FixedIp>, networks: set<int>, time: int): seq<Event> {
    if rows == [] then []
    else
      var n := |rows| - 1;
      Freeing(rows[..n], networks, time) + if TimedOut(rows[n], networks, time) then [Freed(n)] else []
  }

  /** Each timed-out row is freed once, and no other row. */
  lemma {:induction false} FreesTimedOut(rows: seq<FixedIp>, networks: set<int>, time: int, k: nat)
    ensures var f := Freed(k);
      multiset(Freeing(rows, networks, time))[f] ==
        if && k < |rows| && rows[k].network.Some? && rows[k].network.value in networks
           && rows[k].instance.Some? && !rows[k].isAllocated && rows[k].updatedAt < time then 1 else 0
    ensures forall e :: e in Freeing(rows, networks, time) ==> e.Freed? && e.row < |rows|
  {
    if rows != [] {
      FreesTimedOut(rows[..|rows| - 1], networks, time, k);
    }
  }

  lemma AssignKeepsTrace(rows: seq<FixedIp>, log: seq<Event>, row: nat, r: FixedIp, x: int)
    requires Traced(rows, log) && row < |rows| && rows[row].instance == None && r.instance == Some(x)
    requires !rows[row].deleted && !r.deleted
    ensures Traced(rows[row := r], log + [Assigned(row, x)])
  {
    var more := log + [Assigned(row, x)];
    forall i, j, k | 0 <= j < k <= |log| ensures FreedBetween(more, i, j, k) <==> FreedBetween(log, i, j, k) {
      if FreedBetween(more, i, j, k) {
        var f :| j < f < k && f < |more| && more[f] == Freed(i);
        assert log[f] == Freed(i);
      }
      if FreedBetween(log, i, j, k) {
        var f :| j < f < k && f < |log| && log[f] == Freed(i);
        assert more[f] == Freed(i);
      }
    }
    forall i, j | 0 <= j < |log| ensures FreedBetween(log, i, j, |log|) ==> FreedBetween(more, i, j, |more|) {
      if FreedBetween(log, i, j, |log|) {
        var f :| j < f < |log| && log[f] == Freed(i);
        assert more[f] == Freed(i);
      }
    }
  }

  /** A step that changes no holder, on rows that may have grown. */
  lemma SameHoldersKeepTrace(rows: seq<FixedIp>, log: seq<Event>, after: seq<FixedIp>)
    requires Traced(rows, log) && |rows| <= |after|
    requires forall i :: 0 <= i < |rows| ==>
      after[i].instance == rows[i].instance && after[i].deleted == rows[i].deleted
    ensures Traced(after, log)
  {}

  lemma FreeKeepsTrace(rows: seq<FixedIp>, log: seq<Event>, row: nat, r: FixedIp)
    requires Traced(rows, log) && row < |rows| && r.deleted == rows[row].deleted
    ensures Traced(rows[row := r.(instance := None)], log + [Freed(row)])
  {
    var more := log + [Freed(row)];
    forall i, j, k | 0 <= j < k <= |log| ensures FreedBetween(log, i, j, k) ==> FreedBetween(more, i, j, k) {
      if FreedBetween(log, i, j, k) {
        var f :| j < f < k && f < |log| && log[f] == Freed(i);
        assert more[f] == Freed(i);
      }
    }
    forall j | 0 <= j < |log| ensures FreedBetween(more, row, j, |more|) { assert more[|log|] == Freed(row); }
    forall i, j | 0 <= j < |log| ensures FreedBetween(log, i, j, |log|) ==> FreedBetween(more, i, j, |more|) {
      if FreedBetween(log, i, j, |log|) {
        var f :| j < f < |log| && log[f] == Freed(i);
        assert more[f] == Freed(i);
      }
    }
  }

  /** No two live rows have the same address. */
  ghost predicate DistinctAddresses(rows: seq<FixedIp>) {
    forall i, j :: 0 <= i < j < |rows| && !rows[i].deleted && !rows[j].deleted ==> rows[i].address != rows[j].address
  }

  predicate AddressFreedBetween(rows: seq<FixedIp>, log: seq<Event>, address: string, j: nat, k: nat) {
    exists f :: j < f < k && f < |log| && log[f].Freed? && log[f].row < |rows| && rows[log[f].row].address == address
  }

  /** Where addresses are distinct, there is a freeing step between two assignments of
      one address. */
  lemma AddressTrace(rows: seq<FixedIp>, log: seq<Event>, j: nat, k: nat)
    requires Traced(rows, log) && DistinctAddresses(rows)
    requires j < k < |log| && log[j].Assigned? && log[k].Assigned?
    ensures Recorded(rows, log[j]) && Recorded(rows, log[k])
    ensures rows[log[j].row].address == rows[log[k].row].address ==>
      AddressFreedBetween(rows, log, rows[log[j].row].address, j, k)
  {
    assert Recorded(rows, log[j]) && Recorded(rows, log[k]);
    if rows[log[j].row].address == rows[log[k].row].address {
      assert SameAssigned(log, j, k);
      var f :| j < f < k && f < |log| && log[f] == Freed(log[j].row);
      assert log[f].Freed? && log[f].row < |rows|;
    }
  }

  /** Between two assignments of one address there is a freeing step. */
  ghost predicate AddressesFreed(rows: seq<FixedIp>, log: seq<Event>) {
    forall j, k :: 0 <= j < k < |log| && SameAddressAssigned(rows, log, j, k) ==>
      AddressFreedBetween(rows, log, rows[log[j].row].address, j, k)
  }

  predicate SameAddressAssigned(rows: seq<FixedIp>, log: seq<Event>, j: nat, k: nat)
    requires j < k < |log|
  {
    && log[j].Assigned? && log[k].Assigned? && log[j].row < |rows| && log[k].row < |rows|
    && rows[log[j].row].address == rows[log[k].row].address
  }

  /** The first row that an address is requested from; the number of rows if none. */
  function FirstRequested(rows: seq<FixedIp>, address: string, network: Option<int>, reserved: bool): (i: nat)
    ensures i <= |rows|
    ensures i < |rows| ==>
      && rows[i].address == address && !rows[i].deleted && rows[i].reserved == reserved
      && (rows[i].network == network || rows[i].network == None)
    ensures forall k :: 0 <= k < i ==>
      || rows[k].address != address || rows[k].deleted || rows[k].reserved != reserved
      || (rows[k].network != network && rows[k].network != None)
  {
    FirstIndex(rows, (r: FixedIp) => Requested(r, address, network, reserved))
  }

  function FirstAvailable(rows: seq<FixedIp>, network: Option<int>): (i: nat)
    ensures i <= |rows|
    ensures i < |rows| ==>
      && !rows[i].reserved && !rows[i].deleted && rows[i].instance == None && rows[i].host == None
      && (rows[i].network == network || rows[i].network == None)
    ensures forall k :: 0 <= k < i ==>
      || rows[k].reserved || rows[k].deleted || rows[k].instance != None || rows[k].host != None
      || (rows[k].network != network && rows[k].network != None)
  {
    FirstIndex(rows, (r: FixedIp) => Available(r, network))
  }

  function FirstAddress(rows: seq<FixedIp>, address: string): (i: nat)
    ensures i <= |rows|
    ensures i < |rows| ==> rows[i].address == address && !rows[i].deleted
    ensures forall k :: 0 <= k < i ==> rows[k].address != address || rows[k].deleted
  {
    FirstIndex(rows, (r: FixedIp) => r.address == address && !r.deleted)
  }

  /** A row without a network joins the given one, which must exist. */
  predicate NetworkMissing(r: FixedIp, network: Option<int>, networks: set<int>) {
    r.network.None? && (network.None? || network.value !in networks)
  }

  function Joined(r: FixedIp, network: Option<int>): FixedIp {
    if r.network.None? then r.(network := network) else r
  }

  // ---------- the calls as functions ----------

  datatype Call =
    | ByAddress(address: string, instance: int, network: Option<int>, reserved: bool)
    | FromPool(poolNetwork: int, holder: Option<int>, host: Option<string>)
    | Release(address: string)
    | ReleaseTimedOut(hostNetworks: set<int>, time: int, now: int)

  datatype Table = Table(rows: seq<FixedIp>, log: seq<Event>)

  /** The networks and instances that exist. */
  datatype Known = Known(networks: set<int>, instances: set<int>)

  function AfterByAddress(e: Known, t: Table, c: Call): Table
    requires c.ByAddress?
  {
    var i := FirstRequested(t.rows, c.address, c.network, c.reserved);
    if i == |t.rows| || t.rows[i].instance.Some? || NetworkMissing(t.rows[i], c.network, e.networks) then t
    else if c.instance !in e.instances then t
    else
      Table(t.rows[i := Joined(t.rows[i], c.network).(instance := Some(c.instance))], t.log + [Assigned(i, c.instance)])
  }

  function AfterFromPool(e: Known, t: Table, c: Call): Table
    requires c.FromPool?
  {
    var i := FirstAvailable(t.rows, Some(c.poolNetwork));
    if i == |t.rows| || NetworkMissing(t.rows[i], Some(c.poolNetwork), e.networks) then t
    else if c.holder.Some? && c.holder.value !in e.instances then t
    else
      Table(t.rows[i := Joined(t.rows[i], Some(c.poolNetwork)).(instance := c.holder, host := c.host)],
        if c.holder.Some? then t.log + [Assigned(i, c.holder.value)] else t.log)
  }

  function AfterRelease(t: Table, c: Call): Table
    requires c.Release?
  {
    var i := FirstAddress(t.rows, c.address);
    if i == |t.rows| then t else Table(t.rows[i := t.rows[i].(instance := None)], t.log + [Freed(i)])
  }

  function AfterTimeout(t: Table, c: Call): Table
    requires c.ReleaseTimedOut?
  {
    Table(seq(|t.rows|, i requires 0 <= i < |t.rows| => Expired(t.rows[i], c.hostNetworks, c.time, c.now)),
      t.log + Freeing(t.rows, c.hostNetworks, c.time))
  }

  /** The rows and their history after one call; a call that fails changes nothing. */
  function After(e: Known, t: Table, c: Call): Table {
    match c
    case ByAddress(_, _, _, _) => AfterByAddress(e, t, c)
    case FromPool(_, _, _) => AfterFromPool(e, t, c)
    case Release(_) => AfterRelease(t, c)
    case ReleaseTimedOut(_, _, _) => AfterTimeout(t, c)
  }

  class FixedIps {
    const networks: set<int>
    const instances: set<int>
    var rows: seq<FixedIp>
    ghost var log: seq<Event>

    ghost predicate Valid()
      reads this
    {
      Traced(rows, log)
    }

    ghost function AsTable(): Table
      reads this
    {
      Table(rows, log)
    }

    ghost function Existing(): Known {
      Known(networks, instances)
    }

    constructor (networks: set<int>, instances: set<int>, rows: seq<FixedIp>)
      ensures Valid() && this.rows == rows && log == [] && this.networks == networks && this.instances == instances
    {
      this.networks, this.instances, this.rows, log := networks, instances, rows, [];
    }

    /** An address by name: refused when held, and no effect when refused. */
    method Associate(address: string, instance: int, network: Option<int>, reserved: bool) returns (r: Outcome<string>)
      requires Valid()
      modifies this
      ensures Valid()
      ensures var i := FirstRequested(old(rows), address, network, reserved);
        r == (if i == |old(rows)| then Failed(NotFoundForNetwork)
              else if old(rows)[i].instance.Some? then Failed(AlreadyInUse)
              else if old(rows)[i].network.None? && (network.None? || network.value !in networks) then
                Failed(NetworkNotFound)
              else if instance !in instances then Failed(InstanceNotFound)
              else Done(address))
        && rows == (if r.Failed? then old(rows)
                    else
                      var joined := if old(rows)[i].network.None? then network else old(rows)[i].network;
                      old(rows)[i := old(rows)[i].(network := joined, instance := Some(instance))])
        && log == (if r.Failed? then old(log) else old(log) + [Assigned(i, instance)])
      ensures AsTable() == After(Existing(), old(AsTable()), ByAddress(address, instance, network, reserved))
    {
      var i := FirstRequested(rows, address, network, reserved);
      if i == |rows| {
        return Failed(NotFoundForNetwork);
      }
      var ref := rows[i];
      if ref.instance.Some? {
        return Failed(AlreadyInUse);
      }
      if ref.network.None? {
        if network.None? || network.value !in networks {
          return Failed(NetworkNotFound);
        }
        ref := ref.(network := network);
      }
      if instance !in instances {
        return Failed(InstanceNotFound);
      }
      ref := ref.(instance := Some(instance));
      AssignKeepsTrace(rows, log, i, ref, instance);
      rows := rows[i := ref];
      log := log + [Assigned(i, instance)];
      return Done(ref.address);
    }

    /** Any address of the pool: never one that is reserved, deleted or held. */
    method AssociatePool(network: int, instance: Option<int>, host: Option<string>) returns (r: Outcome<string>)
      requires Valid()
      modifies this
      ensures Valid()
      ensures r == Failed(NoMoreFixedIps) <==>
        !exists f :: f in old(rows) && !f.reserved && !f.deleted && f.instance == None && f.host == None
          && f.network in {Some(network), None}
      ensures r.Failed? ==> rows == old(rows) && log == old(log)
      ensures r == Failed(NetworkNotFound) <==> var i := FirstAvailable(old(rows), Some(network));
        i < |old(rows)| && old(rows)[i].network == None && network !in networks
      ensures r == Failed(InstanceNotFound) <==> var i := FirstAvailable(old(rows), Some(network));
        && i < |old(rows)| && (old(rows)[i].network == None ==> network in networks)
        && instance.Some? && instance.value !in instances
      ensures r.Failed? ==> r.error in {NoMoreFixedIps, NetworkNotFound, InstanceNotFound}
      ensures r.Done? ==> var i := FirstAvailable(old(rows), Some(network));
        && i < |old(rows)| && r.value == old(rows)[i].address
        && rows == old(rows)[i := old(rows)[i].(network := Some(network), instance := instance, host := host)]
        && log == if instance.Some? then old(log) + [Assigned(i, instance.value)] else old(log)
      ensures AsTable() == After(Existing(), old(AsTable()), FromPool(network, instance, host))
    {
      var i := FirstAvailable(rows, Some(network));
      if i == |rows| {
        return Failed(NoMoreFixedIps);
      }
      var ref := rows[i];
      if ref.network.None? {
        if network !in networks {
          return Failed(NetworkNotFound);
        }
        ref := ref.(network := Some(network));
      }
      if instance.Some? {
        if instance.value !in instances {
          return Failed(InstanceNotFound);
        }
        ref := ref.(instance := instance);
      }
      if host.Some? {
        ref := ref.(host := host);
      }
      if instance.Some? {
        AssignKeepsTrace(rows, log, i, ref, instance.value);
        log := log + [Assigned(i, instance.value)];
      } else {
        SameHoldersKeepTrace(rows, log, rows[i := ref]);
      }
      rows := rows[i := ref];
      return Done(ref.address);
    }

    method Create(row: FixedIp)
      requires Valid()
      modifies this
      ensures Valid() && rows == old(rows) + [row] && log == old(log)
    {
      SameHoldersKeepTrace(rows, log, rows + [row]);
      rows := rows + [row];
    }

    method Disassociate(address: string) returns (r: Outcome<()>)
      requires Valid()
      modifies this
      ensures Valid()
      ensures var i := FirstAddress(old(rows), address);
        if i == |old(rows)| then r == Failed(FixedIpNotFound) && rows == old(rows) && log == old(log)
        else r == Done(()) && rows == old(rows)[i := old(rows)[i].(instance := None)] && log == old(log) + [Freed(i)]
      ensures AsTable() == After(Existing(), old(AsTable()), Release(address))
    {
      var i := FirstAddress(rows, address);
      if i == |rows| {
        return Failed(FixedIpNotFound);
      }
      FreeKeepsTrace(rows, log, i, rows[i]);
      rows := rows[i := rows[i].(instance := None)];
      log := log + [Freed(i)];
      return Done(());
    }

    /** Frees the addresses of the host's networks that were not confirmed in time. */
    method DisassociateAllByTimeout(hostNetworks: set<int>, time: int, now: int) returns (count: nat)
      requires Valid()
      modifies this
      ensures Valid()
      ensures |rows| == |old(rows)| && count == |Freeing(old(rows), hostNetworks, time)|
      ensures log == old(log) + Freeing(old(rows), hostNetworks, time)
      ensures forall k :: 0 <= k < |rows| ==> var f := old(rows)[k];
        rows[k] ==
          if && f.network.Some? && f.network.value in hostNetworks
             && f.instance.Some? && !f.isAllocated && f.updatedAt < time
          then f.(instance := None, leased := false, updatedAt := now) else f
      ensures AsTable() == After(Existing(), old(AsTable()), ReleaseTimedOut(hostNetworks, time, now))
    {
      count := 0;
      for i := 0 to |rows|
        invariant Valid()
        invariant |rows| == |old(rows)| && count == |Freeing(old(rows)[..i], hostNetworks, time)|
        invariant log == old(log) + Freeing(old(rows)[..i], hostNetworks, time)
        invariant forall k :: i <= k < |rows| ==> rows[k] == old(rows)[k]
        invariant forall k :: 0 <= k < i ==> rows[k] == Expired(old(rows)[k], hostNetworks, time, now)
      {
        assert old(rows)[..i + 1][..i] == old(rows)[..i];
        if TimedOut(rows[i], hostNetworks, time) {
          FreeKeepsTrace(rows, log, i, rows[i].(leased := false, updatedAt := now));
          rows := rows[i := rows[i].(leased := false, updatedAt := now).(instance := None)];
          log := log + [Freed(i)];
          count := count + 1;
        }
      }
      assert old(rows)[..|rows|] == old(rows);
    }
  }

  // ---------- networks ----------

  datatype Network = Network(id: int, project: Option<string>, host: Option<string>, deleted: bool)

  /** No project has two live networks. */
  ghost predicate OnePerProject(rows: seq<Network>) {
    forall i, j :: 0 <= i < j < |rows| && !rows[i].deleted && !rows[j].deleted && rows[i].project.Some? ==>
      rows[i].project != rows[j].project
  }

  ghost predicate DistinctIds(rows: seq<Network>) {
    forall i, j :: 0 <= i < j < |rows| ==> rows[i].id != rows[j].id
  }

  function FirstOfProject(rows: seq<Network>, project: Option<string>): (i: nat)
    ensures i <= |rows|
    ensures i < |rows| ==> !rows[i].deleted && rows[i].project == project
    ensures forall k :: 0 <= k < i ==> rows[k].deleted || rows[k].project != project
  {
    FirstIndex(rows, (n: Network) => !n.deleted && n.project == project)
  }

  function FirstWithId(rows: seq<Network>, id: int): (i: nat)
    ensures i <= |rows|
    ensures i < |rows| ==> !rows[i].deleted && rows[i].id == id
    ensures forall k :: 0 <= k < i ==> rows[k].deleted || rows[k].id != id
  {
    FirstIndex(rows, (n: Network) => !n.deleted && n.id == id)
  }

  predicate OfProject(n: Network, project: string) {
    !n.deleted && n.project == Some(project)
  }

  /** An empty host name counts as none. */
  predicate HasHost(n: Network) {
    n.host.Some? && n.host.value != ""
  }

  /** What the callers of a network's host learned, and when it was given up. */
  datatype HostEvent = Served(id: int, host: string) | GivenUp(id: int)

  predicate GivenUpBetween(log: seq<HostEvent>, id: int, j: nat, k: nat) {
    exists f :: j < f < k && f < |log| && log[f] == GivenUp(id)
  }

  predicate SameServed(log: seq<HostEvent>, j: nat, k: nat)
    requires j < k < |log|
  {
    log[j].Served? && log[k].Served? && log[j].id == log[k].id && !GivenUpBetween(log, log[j].id, j, k)
  }

  /** Call `j` learned a host of network `id`, and it has not been given up since. */
  predicate Serving(log: seq<HostEvent>, j: nat, id: int)
    requires j < |log|
  {
    log[j].Served? && log[j].id == id && !GivenUpBetween(log, id, j, |log|)
  }

  /** All callers since the last disassociation learned the same host, and it is the
      one in the row. */
  ghost predicate HostsAgree(rows: seq<Network>, log: seq<HostEvent>) {
    && (forall j :: 0 <= j < |log| && log[j].Served? ==> log[j].host != "")
    && (forall j, k :: 0 <= j < k < |log| && SameServed(log, j, k) ==> log[j].host == log[k].host)
    && (forall j, i :: 0 <= j < |log| && 0 <= i < |rows| && Serving(log, j, rows[i].id) ==>
          rows[i].host == Some(log[j].host))
  }

  lemma LogGrows(log: seq<HostEvent>, e: HostEvent)
    ensures forall id, j, k :: 0 <= j < k <= |log| ==>
      GivenUpBetween(log + [e], id, j, k) == GivenUpBetween(log, id, j, k)
    ensures forall id, j :: 0 <= j < |log| ==>
      (GivenUpBetween(log + [e], id, j, |log| + 1) <==> GivenUpBetween(log, id, j, |log|) || e == GivenUp(id))
  {
    var more := log + [e];
    assert forall f :: 0 <= f < |log| ==> more[f] == log[f];
    assert more[|log|] == e;
  }

  /** Telling a caller the row's host, after setting it if there was none. */
  lemma ServeKeepsHosts(rows: seq<Network>, log: seq<HostEvent>, i: nat, host: string)
    requires DistinctIds(rows) && HostsAgree(rows, log) && i < |rows|
    requires HasHost(rows[i]) ==> rows[i].host == Some(host)
    ensures var after := rows[i := rows[i].(host := Some(host))];
      HostsAgree(after, if host == "" then log else log + [Served(rows[i].id, host)])
  {
    var id, after, more := rows[i].id, rows[i := rows[i].(host := Some(host))], log + [Served(rows[i].id, host)];
    LogGrows(log, Served(id, host));
    forall j | 0 <= j < |log| && Serving(log, j, id) ensures log[j].host == host {
      assert Serving(log, j, rows[i].id);
    }
    forall j, k | 0 <= j < |log| && 0 <= k < |after| && Serving(log, j, after[k].id)
      ensures after[k].host == Some(log[j].host)
    {
      assert Serving(log, j, rows[k].id);
    }
    forall j, k | 0 <= j < |log| && 0 <= k < |after|
      ensures Serving(more, j, after[k].id) ==> Serving(log, j, after[k].id)
    {}
    forall j | 0 <= j < |log| ensures SameServed(more, j, |log|) ==> Serving(log, j, id) {}
    forall j, k | 0 <= j < k < |log| ensures SameServed(more, j, k) ==> SameServed(log, j, k) {}
  }

  /** A disassociation takes the host from the row and ends what callers agree on. */
  lemma GiveUpKeepsHosts(rows: seq<Network>, log: seq<HostEvent>, i: nat)
    requires DistinctIds(rows) && HostsAgree(rows, log) && i < |rows|
    ensures HostsAgree(rows[i := rows[i].(project := None, host := None)], log + [GivenUp(rows[i].id)])
  {
    var id, after, more := rows[i].id, rows[i := rows[i].(project := None, host := None)], log + [GivenUp(rows[i].id)];
    LogGrows(log, GivenUp(id));
    forall j, k | 0 <= j < |more| && 0 <= k < |after| && Serving(more, j, after[k].id)
      ensures after[k].host == Some(more[j].host)
    {
      assert j < |log|;
      assert more[|log|] == GivenUp(id) && GivenUpBetween(more, id, j, |more|);
      assert k != i;
      assert Serving(log, j, rows[k].id);
    }
    forall j, k | 0 <= j < k < |log| ensures SameServed(more, j, k) ==> SameServed(log, j, k) {}
  }

  lemma ProjectJoins(rows: seq<Network>, free: nat, project: string)
    requires free < |rows| && !rows[free].deleted && rows[free].project == None && OnePerProject(rows)
    ensures OnePerProject(rows[free := rows[free].(project := Some(project))]) <==>
      FirstOfProject(rows, Some(project)) == |rows|
  {
    var own, after := FirstOfProject(rows, Some(project)), rows[free := rows[free].(project := Some(project))];
    if own < |rows| {
      assert after[own].project == after[free].project == Some(project);
    }
  }

  class Networks {
    var rows: seq<Network>
    ghost var log: seq<HostEvent>

    ghost predicate Valid()
      reads this
    {
      DistinctIds(rows) && HostsAgree(rows, log)
    }

    constructor (rows: seq<Network>)
      requires DistinctIds(rows)
      ensures Valid() && this.rows == rows && log == []
    {
      this.rows, log := rows, [];
    }

    /** The project's network, or else, and with `force` at once, a free one that
        becomes its. Returns the position of the network's row. Only `force` can give
        a project a second network, and it does exactly if there is a free one. */
    method Associate(project: string, force: bool) returns (r: Option<nat>)
      requires Valid()
      modifies this`rows
      ensures Valid()
      ensures var own, free := FirstOfProject(old(rows), Some(project)), FirstOfProject(old(rows), None);
        if !force && own < |old(rows)| then r == Some(own) && rows == old(rows)
        else if free < |old(rows)| then
          r == Some(free) && rows == old(rows)[free := old(rows)[free].(project := Some(project))]
        else r == None && rows == old(rows)
      ensures var own, free := FirstOfProject(old(rows), Some(project)), FirstOfProject(old(rows), None);
        OnePerProject(old(rows)) ==>
          (OnePerProject(rows) <==> !force || own == |old(rows)| || free == |old(rows)|)
    {
      var own := FirstOfProject(rows, Some(project));
      if !force && own < |rows| {
        return Some(own);
      }
      var free := FirstOfProject(rows, None);
      if free == |rows| {
        return None;
      }
      if OnePerProject(rows) { ProjectJoins(rows, free, project); }
      rows := rows[free := rows[free].(project := Some(project))];
      return Some(free);
    }

    /** All live networks of the project, associating one if there is none; `None` is
        the exception for no network left. */
    method GetNetworks(project: string, associate: bool) returns (r: Option<seq<nat>>)
      requires Valid()
      modifies this`rows
      ensures Valid()
      ensures OnePerProject(old(rows)) ==> OnePerProject(rows)
      ensures r.Some? ==>
        forall k: nat :: k in r.value <==> k < |rows| && !rows[k].deleted && rows[k].project == Some(project)
      ensures var own, free := FirstOfProject(old(rows), Some(project)), FirstOfProject(old(rows), None);
        && (r.None? <==> associate && own == |old(rows)| && free == |old(rows)|)
        && (r == Some([]) <==> !associate && own == |old(rows)|)
        && rows == (if associate && own == |old(rows)| && free < |old(rows)|
                    then old(rows)[free := old(rows)[free].(project := Some(project))] else old(rows))
    {
      var found: seq<nat> := [];
      for i := 0 to |rows|
        invariant rows == old(rows)
        invariant forall k: nat :: k in found <==> k < i && OfProject(rows[k], project)
      {
        if OfProject(rows[i], project) {
          found := found + [i];
        }
      }
      ghost var own := FirstOfProject(rows, Some(project));
      assert own < |rows| ==> own in found;
      assert found != [] ==> found[0] in found && OfProject(rows[found[0]], project) && own < |rows|;
      if found == [] {
        if !associate {
          return Some([]);
        }
        var n := Associate(project, false);
        return if n.Some? then Some([n.value]) else None;
      }
      return Some(found);
    }

    method Disassociate(id: int) returns (found: bool)
      requires Valid()
      modifies this
      ensures Valid()
      ensures var i := FirstWithId(old(rows), id);
        && found == (i < |old(rows)|)
        && (found ==> rows == old(rows)[i := old(rows)[i].(project := None, host := None)])
        && (found ==> log == old(log) + [GivenUp(id)])
        && (!found ==> rows == old(rows) && log == old(log))
      ensures OnePerProject(old(rows)) ==> OnePerProject(rows)
    {
      var i := FirstWithId(rows, id);
      if i == |rows| {
        return false;
      }
      GiveUpKeepsHosts(rows, log, i);
      hide HostsAgree;
      rows := rows[i := rows[i].(project := None, host := None)];
      log := log + [GivenUp(id)];
      return true;
    }

    /** The first caller's host stays until a disassociation, and all learn it. */
    method SetHost(id: int, host: string) returns (r: Option<string>)
      requires Valid()
      modifies this
      ensures Valid()
      ensures var i := FirstWithId(old(rows), id);
        if i == |old(rows)| then r == None && rows == old(rows) && log == old(log)
        else
          && r == (if old(rows)[i].host == None || old(rows)[i].host == Some("") then Some(host) else old(rows)[i].host)
          && rows == old(rows)[i := old(rows)[i].(host := r)]
          && log == if r.value != "" then old(log) + [Served(id, r.value)] else old(log)
      ensures OnePerProject(old(rows)) ==> OnePerProject(rows)
    {
      var i := FirstWithId(rows, id);
      if i == |rows| {
        return None;
      }
      ghost var told := if HasHost(rows[i]) then rows[i].host.value else host;
      ServeKeepsHosts(rows, log, i, told);
      hide HostsAgree;
      if !HasHost(rows[i]) {
        rows := rows[i := rows[i].(host := Some(host))];
      }
      r := rows[i].host;
      assert rows == old(rows)[i := old(rows)[i].(host := Some(told))];
      if r.value != "" {
        log := log + [Served(id, r.value)];
      }
    }
  }
}
