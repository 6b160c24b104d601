/** The block-device-mapping table, and the three passes that fill it when an
    instance is created. */
module BlockDevices {

  import opened Lists
  import opened Wrappers

  datatype VirtualName = Swap | Ephemeral(num: nat) | NoDevice | Ami | Root | OtherName(name: string)

  predicate IsSwapOrEphemeral(v: Option<VirtualName>) {
    v.Some? && (v.value.Swap? || v.value.Ephemeral?)
  }

  /** The columns that only the mapping passes write. */
  datatype Source = Source(deleteOnTermination: Option<bool>, snapshotId: Option<int>, volumeId: Option<int>,
    noDevice: Option<bool>)

  const BLANK := Source(None, None, None, None)

  datatype Row = Row(instance: int, device: string, virtual: Option<VirtualName>, size: Option<int>, source: Source,
    deleted: bool)

  /** The `values` dictionary: `source` is `None` when its keys are absent. */
  datatype Values = Values(instance: int, device: string, virtual: Option<VirtualName>, size: Option<int>,
    source: Option<Source>)

  /** `row.update(values)`. */
  function Write(r: Row, v: Values): Row {
    r.(virtual := v.virtual, size := v.size, source := if v.source.Some? then v.source.value else r.source)
  }

  function NewRow(v: Values): Row {
    Write(Row(v.instance, v.device, None, None, BLANK, false), v)
  }

  predicate Live(r: Row, instance: int, device: string) {
    !r.deleted && r.instance == instance && r.device == device
  }

  /** The first live row of the device; the number of rows when there is none. */
  function FirstLive(rows: seq<Row>, instance: int, device: string): (i: nat)
    ensures i <= |rows|
    ensures i < |rows| ==> Live(rows[i], instance, device)
    ensures forall k :: 0 <= k < i ==> !Live(rows[k], instance, device)
  {
    FirstIndex(rows, (r: Row) => Live(r, instance, device))
  }

  predicate Evicted(r: Row, v: Values) {
    IsSwapOrEphemeral(v.virtual) && r.instance == v.instance && r.virtual == v.virtual && r.device != v.device
  }

  function Evict(r: Row, v: Values): Row {
    if Evicted(r, v) then r.(deleted := true) else r
  }

  function Stored(rows: seq<Row>, v: Values): seq<Row> {
    var i := FirstLive(rows, v.instance, v.device);
    if i < |rows| then rows[i := Write(rows[i], v)] else rows + [NewRow(v)]
  }

  /** The table after `block_device_mapping_update_or_create`. */
  function Upserted(rows: seq<Row>, v: Values): seq<Row> {
    var stored := Stored(rows, v);
    seq(|stored|, i requires 0 <= i < |stored| => Evict(stored[i], v))
  }

  function UpsertAll(rows: seq<Row>, vs: seq<Values>): seq<Row> {
    if vs == [] then rows else Upserted(UpsertAll(rows, vs[..|vs| - 1]), vs[|vs| - 1])
  }

  predicate BothLive(a: Row, b: Row) {
    !a.deleted && !b.deleted && a.instance == b.instance
  }

  /** At most one live row per device, and per swap or ephemeral name. */
  ghost predicate Unique(rows: seq<Row>) {
    forall i, j :: 0 <= i < j < |rows| && BothLive(rows[i], rows[j]) ==>
      rows[i].device != rows[j].device && !(IsSwapOrEphemeral(rows[i].virtual) && rows[i].virtual == rows[j].virtual)
  }

  lemma UpsertKeepsUnique(rows: seq<Row>, v: Values)
    requires Unique(rows)
    ensures Unique(Upserted(rows, v))
  {
    var stored, next := Stored(rows, v), Upserted(rows, v);
    var at := FirstLive(rows, v.instance, v.device);
    assert forall i :: 0 <= i < |stored| && i != at ==> stored[i] == rows[i];
    assert stored[at] == Write(if at < |rows| then rows[at] else NewRow(v), v);
  }

  lemma {:induction false} RunsKeepUnique(rows: seq<Row>, vs: seq<Values>)
    requires Unique(rows)
    ensures Unique(UpsertAll(rows, vs))
  {
    if vs != [] {
      RunsKeepUnique(rows, vs[..|vs| - 1]);
      UpsertKeepsUnique(UpsertAll(rows, vs[..|vs| - 1]), vs[|vs| - 1]);
    }
  }

  // ---------- the table as a map ----------

  /** What a reader sees for one device of one instance. */
  function Seen(rows: seq<Row>, instance: int, device: string): Option<Row> {
    var i := FirstLive(rows, instance, device);
    if i < |rows| then Some(rows[i]) else None
  }

  /** One call, device by device: the named device is written, and the device that
      held the same swap or ephemeral name is gone. */
  lemma UpsertSeen(rows: seq<Row>, v: Values, device: string)
    requires Unique(rows)
    ensures var before, after := Seen(rows, v.instance, device), Seen(Upserted(rows, v), v.instance, device);
      if device == v.device then
        var kept := if before.Some? then before.value.source else Source(None, None, None, None);
        var source := if v.source.Some? then v.source.value else kept;
        after == Some(Row(v.instance, device, v.virtual, v.size, source, false))
      else if before.Some? && v.virtual == before.value.virtual && IsSwapOrEphemeral(v.virtual) then after == None
      else after == before
  {
    var stored, next := Stored(rows, v), Upserted(rows, v);
    var at := FirstLive(rows, v.instance, v.device);
    var old', new' := FirstLive(rows, v.instance, device), FirstLive(next, v.instance, device);
    assert at < |rows| ==> !Live(rows[at], v.instance, device) || device == v.device;
    assert old' < |rows| ==> next[old'] == Evict(stored[old'], v);
    assert new' < |next| ==> next[new'] == Evict(stored[new'], v);
    if device == v.device {
      assert Live(next[at], v.instance, device);
    }
  }

  lemma UpsertSeenElsewhere(rows: seq<Row>, v: Values, instance: int, device: string)
    requires Unique(rows) && instance != v.instance
    ensures Seen(Upserted(rows, v), instance, device) == Seen(rows, instance, device)
  {
    var stored, next := Stored(rows, v), Upserted(rows, v);
    var i, j := FirstLive(rows, instance, device), FirstLive(next, instance, device);
    assert i < |rows| ==> next[i] == Evict(stored[i], v);
    assert j < |next| ==> next[j] == Evict(stored[j], v);
  }

  // ---------- many calls for one instance ----------

  /** The last call that names the device, or -1. */
  function LastMention(vs: seq<Values>, device: string): (i: int)
    ensures -1 <= i < |vs|
    ensures i >= 0 ==> vs[i].device == device
    ensures forall j :: i < j < |vs| ==> vs[j].device != device
  {
    if vs == [] then -1
    else if vs[|vs| - 1].device == device then |vs| - 1
    else LastMention(vs[..|vs| - 1], device)
  }

  /** A later call gave the swap or ephemeral name of call `i` to another device. */
  predicate Reused(vs: seq<Values>, i: nat)
    requires i < |vs|
  {
    IsSwapOrEphemeral(vs[i].virtual) && exists j :: i < j < |vs| && vs[j].virtual == vs[i].virtual
  }

  /** For an instance without rows of its own, a device ends up with a row if and
      only if some call named it and no call after the last one to do so gave its
      swap or ephemeral name away; and that row has what the last call wrote. */
  lemma {:induction false} LastMentionWins(rows: seq<Row>, vs: seq<Values>, instance: int, device: string)
    requires Unique(rows) && Seen(rows, instance, device) == None
    requires forall v :: v in vs ==> v.instance == instance
    ensures var i, seen := LastMention(vs, device), Seen(UpsertAll(rows, vs), instance, device);
      && (seen.Some? <==> i >= 0 && !Reused(vs, i))
      && (seen.Some? ==> seen.value == Row(instance, device, vs[i].virtual, vs[i].size, seen.value.source, false))
      && (seen.Some? && vs[i].source.Some? ==> seen.value.source == vs[i].source.value)
  {
    if vs != [] {
      var n := |vs| - 1;
      var init, v := vs[..n], vs[n];
      assert vs == init + [v];
      LastMentionWins(rows, init, instance, device);
      RunsKeepUnique(rows, init);
      UpsertSeen(UpsertAll(rows, init), v, device);
      var i := LastMention(init, device);
      if i >= 0 && device != v.device {
        ReusedGrows(init, v, i);
      }
    }
  }

  /** Call `m` was the last one so far to name the device when call `j` gave the swap
      or ephemeral name of `m` to another device. */
  predicate GivenAway(vs: seq<Values>, device: string, m: nat, j: nat)
    requires m < j < |vs|
  {
    && vs[m].device == device && (forall x :: m < x <= j ==> vs[x].device != device)
    && IsSwapOrEphemeral(vs[m].virtual) && vs[j].virtual == vs[m].virtual
  }

  /** Since call `k` the device has kept its row. */
  ghost predicate KeptSince(vs: seq<Values>, device: string, k: nat) {
    forall m, j :: k <= m < j < |vs| ==> !GivenAway(vs, device, m, j)
  }

  /** The call writes all columns of the device's row. */
  predicate WritesSource(v: Values, device: string) {
    v.device == device && v.source.Some?
  }

  lemma KeptLonger(init: seq<Values>, v: Values, device: string, k: nat)
    requires k < |init|
    ensures KeptSince(init + [v], device, k) ==> KeptSince(init, device, k)
    ensures v.device == device ==> (KeptSince(init + [v], device, k) <==> KeptSince(init, device, k))
    ensures var i := LastMention(init, device);
      v.device != device && i >= k && IsSwapOrEphemeral(v.virtual) && v.virtual == init[i].virtual ==>
        !KeptSince(init + [v], device, k)
    ensures var i := LastMention(init, device);
      v.device != device && i >= k && !(IsSwapOrEphemeral(v.virtual) && v.virtual == init[i].virtual) ==>
        (KeptSince(init + [v], device, k) <==> KeptSince(init, device, k))
  {
    var vs := init + [v];
    var i := LastMention(init, device);
    forall m, j | k <= m < j < |init| ensures GivenAway(vs, device, m, j) <==> GivenAway(init, device, m, j) {
      assert forall x :: m <= x <= j ==> vs[x] == init[x];
    }
    forall m | k <= m < |init|
      ensures GivenAway(vs, device, m, |init|) <==>
        m == i && v.device != device && IsSwapOrEphemeral(v.virtual) && v.virtual == init[m].virtual
    {
      assert vs[|init|] == v && forall x :: m <= x < |init| ==> vs[x] == init[x];
    }
  }

  /** The columns of a row are those of the last call that wrote them, if the device has
      kept its row since; the calls of the image pass do not write them. */
  lemma {:induction false} EarlierSourceStays(rows: seq<Row>, vs: seq<Values>, instance: int, device: string, k: nat)
    requires Unique(rows) && Seen(rows, instance, device) == None
    requires forall v :: v in vs ==> v.instance == instance
    requires k < |vs| && WritesSource(vs[k], device) && KeptSince(vs, device, k)
    requires forall x :: k < x < |vs| ==> !WritesSource(vs[x], device)
    ensures var seen := Seen(UpsertAll(rows, vs), instance, device);
      seen.Some? && Some(seen.value.source) == vs[k].source
  {
    var n := |vs| - 1;
    var init, v := vs[..n], vs[n];
    assert vs == init + [v];
    LastMentionWins(rows, init, instance, device);
    RunsKeepUnique(rows, init);
    UpsertSeen(UpsertAll(rows, init), v, device);
    hide UpsertAll, Seen, Unique, Reused, KeptSince, IsSwapOrEphemeral;
    if k < n {
      KeptLonger(init, v, device, k);
      EarlierSourceStays(rows, init, instance, device, k);
      assert LastMention(init, device) >= k;
    }
  }

  /** And they are blank when the device has lost its row since every call that wrote
      them, or no call did. */
  lemma {:induction false} OtherwiseBlank(rows: seq<Row>, vs: seq<Values>, instance: int, device: string)
    requires Unique(rows) && Seen(rows, instance, device) == None
    requires forall v :: v in vs ==> v.instance == instance
    requires forall k :: 0 <= k < |vs| && WritesSource(vs[k], device) ==> !KeptSince(vs, device, k)
    ensures var seen := Seen(UpsertAll(rows, vs), instance, device);
      seen.Some? ==> seen.value.source == Source(None, None, None, None)
  {
    if vs != [] {
      var n := |vs| - 1;
      var init, v := vs[..n], vs[n];
      assert vs == init + [v];
      LastMentionWins(rows, init, instance, device);
      RunsKeepUnique(rows, init);
      UpsertSeen(UpsertAll(rows, init), v, device);
      assert !WritesSource(vs[n], device) by { assert KeptSince(vs, device, n); }
      hide UpsertAll, Seen, Unique, Reused, KeptSince, IsSwapOrEphemeral;
      if Seen(UpsertAll(rows, vs), instance, device).Some? {
        forall k | 0 <= k < |init| && WritesSource(init[k], device) ensures !KeptSince(init, device, k) {
          assert vs[k] == init[k];
          assert LastMention(init, device) >= k;
          KeptLonger(init, v, device, k);
        }
        OtherwiseBlank(rows, init, instance, device);
      }
    }
  }

  lemma ReusedGrows(vs: seq<Values>, v: Values, i: nat)
    requires i < |vs|
    ensures Reused(vs + [v], i) <==> Reused(vs, i) || (IsSwapOrEphemeral(v.virtual) && vs[i].virtual == v.virtual)
  {
    var more := vs + [v];
    assert forall j :: 0 <= j < |vs| ==> more[j] == vs[j];
    assert more[|vs|] == v;
  }

  // ---------- the passes of instance creation ----------

  datatype InstanceType = InstanceType(swap: nat, localGb: nat)

  datatype ImageMapping = ImageMapping(virtual: VirtualName, device: string)

  datatype Mapping = Mapping(device: string, virtual: Option<VirtualName>, size: Option<int>, source: Source)

  /** `_volume_size`: only the first ephemeral disk has a size. */
  function VolumeSize(t: InstanceType, v: VirtualName): nat {
    match v
    case Swap => t.swap
    case Ephemeral(num) => if num > 0 then 0 else t.localGb
    case _ => 0
  }

  /** What `_update_image_block_device_mapping` writes for one mapping, if anything. */
  function ImageValues(t: InstanceType, instance: int, m: ImageMapping): seq<Values> {
    if !IsSwapOrEphemeral(Some(m.virtual)) || VolumeSize(t, m.virtual) == 0 then []
    else [Values(instance, m.device, Some(m.virtual), Some(VolumeSize(t, m.virtual)), None)]
  }

  /** What `_update_block_device_mapping` writes for one mapping, if anything. */
  function MappingValues(t: InstanceType, instance: int, m: Mapping): seq<Values> {
    if IsSwapOrEphemeral(m.virtual) then
      if VolumeSize(t, m.virtual.value) == 0 then []
      else [Values(instance, m.device, m.virtual, Some(VolumeSize(t, m.virtual.value)), Some(m.source))]
    else if m.virtual == Some(NoDevice) then
      [Values(instance, m.device, None, None, Some(BLANK.(noDevice := Some(true))))]
    else
      [Values(instance, m.device, m.virtual, m.size, Some(m.source))]
  }

  function ImagePass(t: InstanceType, instance: int, ms: seq<ImageMapping>): seq<Values> {
    if ms == [] then [] else ImagePass(t, instance, ms[..|ms| - 1]) + ImageValues(t, instance, ms[|ms| - 1])
  }

  function MappingPass(t: InstanceType, instance: int, ms: seq<Mapping>): seq<Values> {
    if ms == [] then [] else MappingPass(t, instance, ms[..|ms| - 1]) + MappingValues(t, instance, ms[|ms| - 1])
  }

  /** All calls of the three passes, in order: the image's mappings, its block
      mappings, and those of the command line. */
  function Mentions(t: InstanceType, instance: int,
      image: seq<ImageMapping>, imageBlocks: seq<Mapping>, commandLine: seq<Mapping>): seq<Values> {
    ImagePass(t, instance, image) + MappingPass(t, instance, imageBlocks) + MappingPass(t, instance, commandLine)
  }

  lemma {:induction false} PassInstance(t: InstanceType, instance: int, image: seq<ImageMapping>, ms: seq<Mapping>)
    ensures forall v :: v in ImagePass(t, instance, image) ==> v.instance == instance
    ensures forall v :: v in MappingPass(t, instance, ms) ==> v.instance == instance
    decreases |image| + |ms|
  {
    if image != [] { PassInstance(t, instance, image[..|image| - 1], ms); }
    if ms != [] { PassInstance(t, instance, image, ms[..|ms| - 1]); }
  }

  lemma {:induction false} UpsertAppend(rows: seq<Row>, a: seq<Values>, b: seq<Values>)
    ensures UpsertAll(rows, a + b) == UpsertAll(UpsertAll(rows, a), b)
  {
    if b == [] {
      assert a + b == a;
    } else {
      assert (a + b)[..|a + b| - 1] == a + b[..|b| - 1];
      UpsertAppend(rows, a, b[..|b| - 1]);
    }
  }

  /** What instance creation leaves for each device. */
  lemma CreationAgreesWithLastMention(rows: seq<Row>, t: InstanceType, instance: int, device: string,
      image: seq<ImageMapping>, imageBlocks: seq<Mapping>, commandLine: seq<Mapping>)
    requires Unique(rows) && Seen(rows, instance, device) == None
    ensures var vs := Mentions(t, instance, image, imageBlocks, commandLine);
      var i, seen := LastMention(vs, device), Seen(UpsertAll(rows, vs), instance, device);
      && Unique(UpsertAll(rows, vs))
      && (seen.Some? <==> i >= 0 && !Reused(vs, i))
      && (seen.Some? ==> seen.value == Row(instance, device, vs[i].virtual, vs[i].size, seen.value.source, false))
      && (seen.Some? && vs[i].source.Some? ==> seen.value.source == vs[i].source.value)
  {
    var vs := Mentions(t, instance, image, imageBlocks, commandLine);
    PassInstance(t, instance, image, imageBlocks);
    PassInstance(t, instance, image, commandLine);
    RunsKeepUnique(rows, vs);
    LastMentionWins(rows, vs, instance, device);
  }

  lemma UpsertNone(rows: seq<Row>)
    ensures UpsertAll(rows, []) == rows
  {}

  // ---------- the database and the API methods ----------

  class Database {
    var rows: seq<Row>

    constructor ()
      ensures rows == []
    {
      rows := [];
    }

    method UpdateOrCreate(values: Values)
      modifies this
      ensures rows == Upserted(old(rows), values)
    {
      var result := 0;
      while result < |rows| && !Live(rows[result], values.instance, values.device)
        invariant result <= |rows| && rows == old(rows)
        invariant forall k :: 0 <= k < result ==> !Live(rows[k], values.instance, values.device)
      {
        result := result + 1;
      }
      if result == |rows| {
        rows := rows + [NewRow(values)];
      } else {
        rows := rows[result := Write(rows[result], values)];
      }
      assert rows == Stored(old(rows), values);
      ghost var stored := rows;
      if IsSwapOrEphemeral(values.virtual) {
        for i := 0 to |rows|
          invariant |rows| == |stored|
          invariant forall k :: 0 <= k < |rows| ==> rows[k] == if k < i then Evict(stored[k], values) else stored[k]
        {
          var row := rows[i];
          if row.instance == values.instance && row.virtual == values.virtual && row.device != values.device {
            rows := rows[i := row.(deleted := true)];
          }
        }
      }
      assert rows == Upserted(old(rows), values);
    }

    method UpdateImageBlockDeviceMapping(t: InstanceType, instance: int, mappings: seq<ImageMapping>)
      modifies this
      ensures rows == UpsertAll(old(rows), ImagePass(t, instance, mappings))
    {
      hide Upserted, UpsertAll;
      assert UpsertAll(rows, ImagePass(t, instance, [])) == rows by { UpsertNone(rows); }
      for i := 0 to |mappings|
        invariant rows == UpsertAll(old(rows), ImagePass(t, instance, mappings[..i]))
      {
        UpsertNone(rows);
        var m := mappings[i];
        assert mappings[..i + 1][..i] == mappings[..i];
        UpsertAppend(old(rows), ImagePass(t, instance, mappings[..i]), ImageValues(t, instance, m));
        if m.virtual.Ami? || m.virtual.Root? { continue; }
        if !IsSwapOrEphemeral(Some(m.virtual)) { continue; }
        var size := VolumeSize(t, m.virtual);
        if size == 0 { continue; }
        UpsertOne(rows, ImageValues(t, instance, m));
        UpdateOrCreate(Values(instance, m.device, Some(m.virtual), Some(size), None));
      }
      assert mappings[..|mappings|] == mappings;
    }

    method UpdateBlockDeviceMapping(t: InstanceType, instance: int, mappings: seq<Mapping>)
      modifies this
      ensures rows == UpsertAll(old(rows), MappingPass(t, instance, mappings))
    {
      hide Upserted, UpsertAll;
      assert UpsertAll(rows, MappingPass(t, instance, [])) == rows by { UpsertNone(rows); }
      for i := 0 to |mappings|
        invariant rows == UpsertAll(old(rows), MappingPass(t, instance, mappings[..i]))
      {
        UpsertNone(rows);
        var m := mappings[i];
        assert mappings[..i + 1][..i] == mappings[..i];
        UpsertAppend(old(rows), MappingPass(t, instance, mappings[..i]), MappingValues(t, instance, m));
        var values := Values(instance, m.device, m.virtual, m.size, Some(m.source));
        if IsSwapOrEphemeral(m.virtual) {
          var size := VolumeSize(t, m.virtual.value);
          if size == 0 { continue; }
          values := values.(size := Some(size));
        }
        if m.virtual == Some(NoDevice) {
          values := values.(virtual := None, size := None, source := Some(BLANK.(noDevice := Some(true))));
        }
        UpsertOne(rows, [values]);
        UpdateOrCreate(values);
      }
      assert mappings[..|mappings|] == mappings;
    }

    /** The mapping passes of `create_db_entry_for_new_instance`. */
    method CreateMappings(t: InstanceType, instance: int,
        image: seq<ImageMapping>, imageBlocks: seq<Mapping>, commandLine: seq<Mapping>)
      modifies this
      ensures rows == UpsertAll(old(rows), Mentions(t, instance, image, imageBlocks, commandLine))
    {
      ghost var a, b := ImagePass(t, instance, image), MappingPass(t, instance, imageBlocks);
      UpsertAppend(rows, a, b);
      UpsertAppend(rows, a + b, MappingPass(t, instance, commandLine));
      UpdateImageBlockDeviceMapping(t, instance, image);
      UpdateBlockDeviceMapping(t, instance, imageBlocks);
      UpdateBlockDeviceMapping(t, instance, commandLine);
    }
  }

  lemma UpsertOne(rows: seq<Row>, vs: seq<Values>)
    requires |vs| == 1
    ensures UpsertAll(rows, vs) == Upserted(rows, vs[0])
  {
    assert vs[..0] == [];
  }
}
