/** The block devices of a new instance, mapping by mapping: which row the last mapping
    of a device leaves after the three passes. */
module BlockDeviceCreation {

  import opened BlockDevices
  import opened Wrappers

  // ---------- one row ----------

  /** What a reader sees is the live row, where there is one for each device. */
  lemma SeenIff(rows: seq<Row>, instance: int, device: string, r: Row)
    requires Unique(rows)
    ensures Seen(rows, instance, device) == Some(r) <==>
      r in rows && !r.deleted && r.instance == instance && r.device == device
  {
    var i := FirstLive(rows, instance, device);
    if k :| 0 <= k < |rows| && rows[k] == r && Live(r, instance, device) {
      assert i < |rows| && Live(rows[i], instance, device);
    }
  }

  /** One live row for a device, one for swap, one for each ephemeral disk. */
  lemma UniqueMeans(rows: seq<Row>, i: nat, j: nat)
    requires Unique(rows) && i < |rows| && j < |rows| && !rows[i].deleted && !rows[j].deleted
    requires rows[i].instance == rows[j].instance
    requires || rows[i].device == rows[j].device
             || rows[i].virtual == Some(Swap) == rows[j].virtual
             || exists n :: rows[i].virtual == Some(Ephemeral(n)) == rows[j].virtual
    ensures i == j
  {}

  /** Some later call takes the swap or ephemeral name of `w` to another device. */
  ghost predicate Taken(w: Values, tail: seq<Values>) {
    && w.virtual.Some? && (w.virtual.value.Swap? || w.virtual.value.Ephemeral?)
    && exists v :: v in tail && v.virtual == w.virtual
  }

  lemma MentionInMiddle(head: seq<Values>, w: Values, tail: seq<Values>)
    requires forall v :: v in tail ==> v.device != w.device
    ensures var vs := head + [w] + tail;
      LastMention(vs, w.device) == |head| && vs[|head|] == w && (Reused(vs, |head|) <==> Taken(w, tail))
  {
    var vs, i := head + [w] + tail, LastMention(head + [w] + tail, w.device);
    assert vs[|head|] == w && forall j :: |head| < j < |vs| ==> vs[j] == tail[j - |head| - 1];
    assert i == |head|;
    if Taken(w, tail) {
      var v :| v in tail && v.virtual == w.virtual;
      var j :| 0 <= j < |tail| && tail[j] == v;
      assert vs[|head| + 1 + j] == v;
    }
  }

  /** The last call for a device decides its row. */
  lemma LastWriteStands(rows: seq<Row>, head: seq<Values>, w: Values, tail: seq<Values>)
    requires Unique(rows) && Seen(rows, w.instance, w.device) == None
    requires forall v :: v in head + tail ==> v.instance == w.instance
    requires forall v :: v in tail ==> v.device != w.device
    requires w.source.None? ==> forall v :: v in head ==> v.source.None?
    ensures Seen(UpsertAll(rows, head + [w] + tail), w.instance, w.device) ==
      if Taken(w, tail) then None
      else
        var source := if w.source.Some? then w.source.value else Source(None, None, None, None);
        Some(Row(w.instance, w.device, w.virtual, w.size, source, false))
  {
    var vs := head + [w] + tail;
    hide UpsertAll, Seen, Unique, Reused, KeptSince, Taken;
    MentionInMiddle(head, w, tail);
    LastMentionWins(rows, vs, w.instance, w.device);
    if w.source.None? {
      forall k | 0 <= k < |vs| ensures !WritesSource(vs[k], w.device) {
        assert vs[k] in head || vs[k] == w || vs[k] in tail;
      }
      OtherwiseBlank(rows, vs, w.instance, w.device);
    }
  }

  // ---------- the passes ----------

  /** What one mapping of the image makes the pass write. */
  lemma OneImageMapping(t: InstanceType, instance: int, device: string, virtual: VirtualName)
    ensures ImagePass(t, instance, [ImageMapping(virtual, device)]) ==
      match virtual
      case Swap => if t.swap == 0 then [] else [Values(instance, device, Some(Swap), Some(t.swap), None)]
      case Ephemeral(n) =>
        if n > 0 || t.localGb == 0 then [] else [Values(instance, device, Some(Ephemeral(0)), Some(t.localGb), None)]
      case _ => []
  {
    assert [ImageMapping(virtual, device)][..0] == [];
  }

  /** What one block mapping makes the pass write. */
  lemma OneMapping(t: InstanceType, instance: int, m: Mapping)
    ensures MappingPass(t, instance, [m]) ==
      match m.virtual
      case None => [Values(instance, m.device, None, m.size, Some(m.source))]
      case Some(Swap) =>
        if t.swap == 0 then [] else [Values(instance, m.device, Some(Swap), Some(t.swap), Some(m.source))]
      case Some(Ephemeral(n)) =>
        if n > 0 || t.localGb == 0 then []
        else [Values(instance, m.device, Some(Ephemeral(0)), Some(t.localGb), Some(m.source))]
      case Some(NoDevice) => [Values(instance, m.device, None, None, Some(Source(None, None, None, Some(true))))]
      case _ => [Values(instance, m.device, m.virtual, m.size, Some(m.source))]
  {
    assert [m][..0] == [];
  }

  /** A pass writes for one mapping after the other. */
  lemma {:induction false} ImagePassAppend(t: InstanceType, instance: int,
      a: seq<ImageMapping>, b: seq<ImageMapping>)
    ensures ImagePass(t, instance, a + b) == ImagePass(t, instance, a) + ImagePass(t, instance, b)
  {
    if b == [] {
      assert a + b == a;
    } else {
      assert (a + b)[..|a + b| - 1] == a + b[..|b| - 1];
      ImagePassAppend(t, instance, a, b[..|b| - 1]);
    }
  }

  lemma {:induction false} MappingPassAppend(t: InstanceType, instance: int, a: seq<Mapping>, b: seq<Mapping>)
    ensures MappingPass(t, instance, a + b) == MappingPass(t, instance, a) + MappingPass(t, instance, b)
  {
    if b == [] {
      assert a + b == a;
    } else {
      hide MappingValues;
      assert (a + b)[..|a + b| - 1] == a + b[..|b| - 1];
      MappingPassAppend(t, instance, a, b[..|b| - 1]);
    }
  }

  lemma AroundMapping(t: InstanceType, instance: int, ms: seq<Mapping>, k: nat)
    requires k < |ms|
    ensures MappingPass(t, instance, ms)
      == MappingPass(t, instance, ms[..k]) + MappingPass(t, instance, [ms[k]]) + MappingPass(t, instance, ms[k + 1..])
  {
    assert ms == ms[..k] + ([ms[k]] + ms[k + 1..]);
    MappingPassAppend(t, instance, ms[..k], [ms[k]] + ms[k + 1..]);
    MappingPassAppend(t, instance, [ms[k]], ms[k + 1..]);
  }

  lemma AroundImageMapping(t: InstanceType, instance: int, ms: seq<ImageMapping>, k: nat)
    requires k < |ms|
    ensures ImagePass(t, instance, ms)
      == ImagePass(t, instance, ms[..k]) + ImagePass(t, instance, [ms[k]]) + ImagePass(t, instance, ms[k + 1..])
  {
    assert ms == ms[..k] + ([ms[k]] + ms[k + 1..]);
    ImagePassAppend(t, instance, ms[..k], [ms[k]] + ms[k + 1..]);
    ImagePassAppend(t, instance, [ms[k]], ms[k + 1..]);
  }

  /** The swap or ephemeral disk has a size for this type of instance. */
  predicate Sized(t: InstanceType, virtual: VirtualName) {
    (virtual == Swap && t.swap > 0) || (virtual == Ephemeral(0) && t.localGb > 0)
  }

  /** A pass names no other devices than its mappings do, and a disk that has a size if
      and only if a mapping does. */
  lemma {:induction false} PassNames(t: InstanceType, instance: int, ms: seq<Mapping>, device: string,
      name: VirtualName)
    ensures (forall m :: m in ms ==> m.device != device) ==>
      forall v :: v in MappingPass(t, instance, ms) ==> v.device != device
    ensures Sized(t, name) ==>
      ((exists v :: v in MappingPass(t, instance, ms) && v.virtual == Some(name)) <==>
        exists m :: m in ms && m.virtual == Some(name))
  {
    if ms != [] {
      var init, m := ms[..|ms| - 1], ms[|ms| - 1];
      assert ms == init + [m];
      var before, more := MappingPass(t, instance, init), MappingValues(t, instance, m);
      assert MappingPass(t, instance, ms) == before + more;
      PassNames(t, instance, init, device, name);
      ValuesName(t, instance, m, device, name);
      hide MappingPass, MappingValues, Sized;
      assert forall v :: v in before + more <==> v in before || v in more;
      assert forall x :: x in ms <==> x in init || x == m;
    }
  }

  lemma ValuesName(t: InstanceType, instance: int, m: Mapping, device: string, name: VirtualName)
    ensures m.device != device ==> forall v :: v in MappingValues(t, instance, m) ==> v.device != device
    ensures Sized(t, name) ==>
      ((exists v :: v in MappingValues(t, instance, m) && v.virtual == Some(name)) <==> m.virtual == Some(name))
  {
    if Sized(t, name) && m.virtual == Some(name) {
      assert MappingValues(t, instance, m)[0].virtual == Some(name);
    }
  }

  lemma {:induction false} ImagePassNames(t: InstanceType, instance: int, ms: seq<ImageMapping>, device: string,
      name: VirtualName)
    ensures (forall m :: m in ms ==> m.device != device) ==>
      forall v :: v in ImagePass(t, instance, ms) ==> v.device != device
    ensures Sized(t, name) ==>
      ((exists v :: v in ImagePass(t, instance, ms) && v.virtual == Some(name)) <==>
        exists m :: m in ms && m.virtual == name)
    ensures forall v :: v in ImagePass(t, instance, ms) ==> v.source == None
  {
    if ms != [] {
      var init, m := ms[..|ms| - 1], ms[|ms| - 1];
      assert ms == init + [m];
      var before, more := ImagePass(t, instance, init), ImageValues(t, instance, m);
      assert ImagePass(t, instance, ms) == before + more;
      ImagePassNames(t, instance, init, device, name);
      hide ImagePass;
      assert forall v :: v in before + more <==> v in before || v in more;
      assert forall x :: x in ms <==> x in init || x == m;
      assert Sized(t, name) ==> ((exists v :: v in more && v.virtual == Some(name)) <==> m.virtual == name) by {
        if Sized(t, name) && m.virtual == name { assert more[0].virtual == Some(name); }
      }
    }
  }

  lemma MentionsAroundCommand(t: InstanceType, instance: int, k: nat,
      image: seq<ImageMapping>, imageBlocks: seq<Mapping>, commandLine: seq<Mapping>) returns (head: seq<Values>)
    requires k < |commandLine|
    ensures Mentions(t, instance, image, imageBlocks, commandLine)
      == head + MappingPass(t, instance, [commandLine[k]]) + MappingPass(t, instance, commandLine[k + 1..])
    ensures forall v :: v in head ==> v.instance == instance
  {
    var a, b := ImagePass(t, instance, image), MappingPass(t, instance, imageBlocks);
    var c := MappingPass(t, instance, commandLine[..k]);
    head := a + b + c;
    hide MappingPass, ImagePass;
    PassInstance(t, instance, image, imageBlocks);
    PassInstance(t, instance, image, commandLine[..k]);
    AroundMapping(t, instance, commandLine, k);
    Regrouped(a + b, c, MappingPass(t, instance, [commandLine[k]]), MappingPass(t, instance, commandLine[k + 1..]));
  }

  lemma MentionsAroundBlock(t: InstanceType, instance: int, k: nat,
      image: seq<ImageMapping>, imageBlocks: seq<Mapping>, commandLine: seq<Mapping>) returns (head: seq<Values>)
    requires k < |imageBlocks|
    ensures var later := imageBlocks[k + 1..] + commandLine;
      Mentions(t, instance, image, imageBlocks, commandLine)
        == head + MappingPass(t, instance, [imageBlocks[k]]) + MappingPass(t, instance, later)
    ensures forall v :: v in head ==> v.instance == instance
  {
    var a, b := ImagePass(t, instance, image), MappingPass(t, instance, imageBlocks[..k]);
    var x, y := MappingPass(t, instance, [imageBlocks[k]]), MappingPass(t, instance, imageBlocks[k + 1..]);
    head := a + b;
    hide MappingPass, ImagePass;
    PassInstance(t, instance, image, imageBlocks[..k]);
    AroundMapping(t, instance, imageBlocks, k);
    MappingPassAppend(t, instance, imageBlocks[k + 1..], commandLine);
    RegroupedToo(a, b, x, y, MappingPass(t, instance, commandLine));
    assert MappingPass(t, instance, imageBlocks) == b + x + y;
  }

  lemma MentionsAroundImage(t: InstanceType, instance: int, k: nat,
      image: seq<ImageMapping>, imageBlocks: seq<Mapping>, commandLine: seq<Mapping>)
    requires k < |image|
    ensures Mentions(t, instance, image, imageBlocks, commandLine)
      == ImagePass(t, instance, image[..k]) + ImagePass(t, instance, [image[k]])
         + (ImagePass(t, instance, image[k + 1..]) + MappingPass(t, instance, imageBlocks + commandLine))
  {
    hide MappingPass, ImagePass;
    AroundImageMapping(t, instance, image, k);
    MappingPassAppend(t, instance, imageBlocks, commandLine);
  }

  lemma RegroupedToo(a: seq<Values>, b: seq<Values>, c: seq<Values>, d: seq<Values>, e: seq<Values>)
    ensures a + (b + c + d) + e == a + b + c + (d + e)
  {}

  lemma Regrouped(a: seq<Values>, b: seq<Values>, c: seq<Values>, d: seq<Values>)
    ensures a + (b + c + d) == a + b + c + d
  {}

  // ---------- the row a mapping leaves ----------

  /** The row of the last block mapping for its device, of whichever pass: `None` when
      one of the mappings after it, of the same pass or a later one, takes its swap or
      ephemeral name to another device. */
  function RowOf(t: InstanceType, instance: int, m: Mapping, later: seq<Mapping>): Option<Row> {
    match m.virtual
    case None => Some(Row(instance, m.device, None, m.size, m.source, false))
    case Some(NoDevice) => Some(Row(instance, m.device, None, None, Source(None, None, None, Some(true)), false))
    case Some(Swap) =>
      if exists x :: x in later && x.virtual == Some(Swap) then None
      else Some(Row(instance, m.device, Some(Swap), Some(t.swap), m.source, false))
    case Some(Ephemeral(n)) =>
      if exists x :: x in later && x.virtual == Some(Ephemeral(n)) then None
      else Some(Row(instance, m.device, Some(Ephemeral(n)), Some(t.localGb), m.source, false))
    case _ => Some(Row(instance, m.device, m.virtual, m.size, m.source, false))
  }

  /** The mapping is of a swap or ephemeral disk that has no size, and is passed over. */
  predicate PassedOver(t: InstanceType, m: Mapping) {
    || (m.virtual == Some(Swap) && t.swap == 0)
    || (m.virtual.Some? && m.virtual.value.Ephemeral? && (m.virtual.value.num > 0 || t.localGb == 0))
  }

  lemma MappedRow(rows: seq<Row>, t: InstanceType, instance: int, head: seq<Values>, m: Mapping, later: seq<Mapping>)
    requires Unique(rows) && Seen(rows, instance, m.device) == None && !PassedOver(t, m)
    requires forall v :: v in head ==> v.instance == instance
    requires forall x :: x in later ==> x.device != m.device
    ensures var vs := head + MappingPass(t, instance, [m]) + MappingPass(t, instance, later);
      Seen(UpsertAll(rows, vs), instance, m.device) == RowOf(t, instance, m, later)
  {
    OneMapping(t, instance, m);
    var w, tail := MappingPass(t, instance, [m])[0], MappingPass(t, instance, later);
    PassInstance(t, instance, [], later);
    PassNames(t, instance, later, m.device, if m.virtual.Some? then m.virtual.value else Root);
    hide UpsertAll, Seen, Unique, MappingPass;
    assert MappingPass(t, instance, [m]) == [w];
    assert w.virtual.Some? && (w.virtual.value.Swap? || w.virtual.value.Ephemeral?) ==> Sized(t, w.virtual.value);
    LastWriteStands(rows, head, w, tail);
  }

  /** A device with a mapping on the command line has the row of the last one there,
      whatever the image says. */
  lemma CommandLineRow(rows: seq<Row>, t: InstanceType, instance: int, k: nat,
      image: seq<ImageMapping>, imageBlocks: seq<Mapping>, commandLine: seq<Mapping>)
    requires Unique(rows) && k < |commandLine| && Seen(rows, instance, commandLine[k].device) == None
    requires forall j :: k < j < |commandLine| ==> commandLine[j].device != commandLine[k].device
    requires !PassedOver(t, commandLine[k])
    ensures var after := UpsertAll(rows, Mentions(t, instance, image, imageBlocks, commandLine));
      Seen(after, instance, commandLine[k].device) == RowOf(t, instance, commandLine[k], commandLine[k + 1..])
  {
    hide *;
    var head := MentionsAroundCommand(t, instance, k, image, imageBlocks, commandLine);
    MappedRow(rows, t, instance, head, commandLine[k], commandLine[k + 1..]);
  }

  /** A device without one has the row of its last block mapping in the image. */
  lemma ImageBlockRow(rows: seq<Row>, t: InstanceType, instance: int, k: nat,
      image: seq<ImageMapping>, imageBlocks: seq<Mapping>, commandLine: seq<Mapping>)
    requires Unique(rows) && k < |imageBlocks| && Seen(rows, instance, imageBlocks[k].device) == None
    requires forall j :: k < j < |imageBlocks| ==> imageBlocks[j].device != imageBlocks[k].device
    requires forall m :: m in commandLine ==> m.device != imageBlocks[k].device
    requires !PassedOver(t, imageBlocks[k])
    ensures var after := UpsertAll(rows, Mentions(t, instance, image, imageBlocks, commandLine));
      Seen(after, instance, imageBlocks[k].device)
        == RowOf(t, instance, imageBlocks[k], imageBlocks[k + 1..] + commandLine)
  {
    hide *;
    var head := MentionsAroundBlock(t, instance, k, image, imageBlocks, commandLine);
    MappedRow(rows, t, instance, head, imageBlocks[k], imageBlocks[k + 1..] + commandLine);
  }

  /** A device that only the image's mappings name has the row of the last of them, with
      the columns blank that this pass does not write. */
  lemma ImageRow(rows: seq<Row>, t: InstanceType, instance: int, k: nat,
      image: seq<ImageMapping>, imageBlocks: seq<Mapping>, commandLine: seq<Mapping>)
    requires Unique(rows) && k < |image| && Seen(rows, instance, image[k].device) == None
    requires forall j :: k < j < |image| ==> image[j].device != image[k].device
    requires forall m :: m in imageBlocks + commandLine ==> m.device != image[k].device
    requires Sized(t, image[k].virtual)
    ensures var name := image[k].virtual;
      var size := if name == Swap then t.swap else t.localGb;
      var taken := (exists j :: k < j < |image| && image[j].virtual == name)
        || exists m :: m in imageBlocks + commandLine && m.virtual == Some(name);
      Seen(UpsertAll(rows, Mentions(t, instance, image, imageBlocks, commandLine)), instance, image[k].device)
        == if taken then None
           else Some(Row(instance, image[k].device, Some(name), Some(size), Source(None, None, None, None), false))
  {
    var m, blocks, more := image[k], imageBlocks + commandLine, image[k + 1..];
    var head, rest := ImagePass(t, instance, image[..k]), ImagePass(t, instance, more);
    var w := ImageWrite(t, instance, m);
    hide UpsertAll, Seen, Unique, MappingPass, ImagePass, Mentions, Sized, Taken;
    MentionsAroundImage(t, instance, k, image, imageBlocks, commandLine);
    AfterImageMapping(t, instance, w, m, more, blocks);
    PassInstance(t, instance, image[..k], []);
    ImagePassNames(t, instance, image[..k], m.device, m.virtual);
    LaterInImage(image, k, m.virtual);
    LastWriteStands(rows, head, w, rest + MappingPass(t, instance, blocks));
  }

  lemma LaterInImage(image: seq<ImageMapping>, k: nat, name: VirtualName)
    requires k < |image|
    ensures (exists j :: k < j < |image| && image[j].virtual == name)
      <==> exists x :: x in image[k + 1..] && x.virtual == name
  {
    if j :| k < j < |image| && image[j].virtual == name { assert image[k + 1..][j - k - 1] == image[j]; }
  }

  lemma ImageWrite(t: InstanceType, instance: int, m: ImageMapping) returns (w: Values)
    requires Sized(t, m.virtual)
    ensures ImagePass(t, instance, [m]) == [w]
    ensures var size := if m.virtual == Swap then t.swap else t.localGb;
      w == Values(instance, m.device, Some(m.virtual), Some(size), None)
    ensures m.virtual.Swap? || m.virtual.Ephemeral?
  {
    OneImageMapping(t, instance, m.device, m.virtual);
    w := ImagePass(t, instance, [m])[0];
  }

  lemma AfterImageMapping(t: InstanceType, instance: int, w: Values, m: ImageMapping, more: seq<ImageMapping>,
      blocks: seq<Mapping>)
    requires Sized(t, m.virtual) && w.virtual == Some(m.virtual)
    requires (forall x :: x in more ==> x.device != m.device) && forall x :: x in blocks ==> x.device != m.device
    ensures var tail := ImagePass(t, instance, more) + MappingPass(t, instance, blocks);
      && (forall v :: v in tail ==> v.instance == instance && v.device != m.device)
      && (Taken(w, tail) <==>
           (exists x :: x in more && x.virtual == m.virtual) || exists x :: x in blocks && x.virtual == Some(m.virtual))
  {
    var a, b := ImagePass(t, instance, more), MappingPass(t, instance, blocks);
    PassInstance(t, instance, more, blocks);
    ImagePassNames(t, instance, more, m.device, m.virtual);
    PassNames(t, instance, blocks, m.device, m.virtual);
    assert m.virtual.Swap? || m.virtual.Ephemeral?;
    hide ImagePass, MappingPass, Sized;
    assert forall v :: v in a + b <==> v in a || v in b;
  }

  /** `NoDevice` on the command line overrides whatever the image says: a device
      whose last mapping there is `NoDevice` ends with a row that says so and no more. */
  lemma NoDeviceOverrides(rows: seq<Row>, t: InstanceType, instance: int, k: nat,
      image: seq<ImageMapping>, imageBlocks: seq<Mapping>, commandLine: seq<Mapping>)
    requires Unique(rows) && k < |commandLine| && commandLine[k].virtual == Some(NoDevice)
    requires Seen(rows, instance, commandLine[k].device) == None
    requires forall j :: k < j < |commandLine| ==> commandLine[j].device != commandLine[k].device
    ensures var after := UpsertAll(rows, Mentions(t, instance, image, imageBlocks, commandLine));
      Seen(after, instance, commandLine[k].device)
        == Some(Row(instance, commandLine[k].device, None, None, Source(None, None, None, Some(true)), false))
  {
    hide UpsertAll, Seen, Unique, Mentions;
    CommandLineRow(rows, t, instance, k, image, imageBlocks, commandLine);
  }
}
