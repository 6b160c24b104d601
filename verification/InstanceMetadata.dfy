/** Instance metadata: rows with a deleted flag behind a dictionary, and the API
    operations that check a quota before they write. */
module InstanceMetadata {

  import opened Lists

  datatype Row = Row(instance: int, key: string, value: string, deleted: bool)

  type Dict = map<string, string>

  predicate Live(r: Row, instance: int, key: string) {
    !r.deleted && r.instance == instance && r.key == key
  }

  /** `instance_metadata_get`: the live rows of the instance, read in order. */
  function Reads(rows: seq<Row>, instance: int): Dict {
    if rows == [] then map[]
    else
      var before, r := Reads(rows[..|rows| - 1], instance), rows[|rows| - 1];
      if !r.deleted && r.instance == instance then before[r.key := r.value] else before
  }

  /** At most one live row per instance and key. */
  ghost predicate Unique(rows: seq<Row>) {
    forall i, j :: 0 <= i < j < |rows| && !rows[i].deleted && Live(rows[j], rows[i].instance, rows[j].key) ==>
      rows[i].key != rows[j].key
  }

  /** The first live row for the key; the number of rows when there is none. */
  function FirstLive(rows: seq<Row>, instance: int, key: string): (i: nat)
    ensures i <= |rows|
    ensures i < |rows| ==> Live(rows[i], instance, key)
    ensures forall k :: 0 <= k < i ==> !Live(rows[k], instance, key)
  {
    FirstIndex(rows, (r: Row) => Live(r, instance, key))
  }

  /** Without two live rows for a key, the dictionary read from the rows is what a
      look-up of the first live row finds. */
  lemma {:induction false} ReadsFirstLive(rows: seq<Row>, instance: int, key: string)
    requires Unique(rows)
    ensures var i := FirstLive(rows, instance, key);
      if i < |rows| then key in Reads(rows, instance) && Reads(rows, instance)[key] == rows[i].value
      else key !in Reads(rows, instance)
  {
    if rows != [] {
      var n := |rows| - 1;
      ReadsFirstLive(rows[..n], instance, key);
      var i, j := FirstLive(rows, instance, key), FirstLive(rows[..n], instance, key);
      assert j < n ==> Live(rows[j], instance, key);
      assert i < n ==> Live(rows[..n][i], instance, key);
    }
  }

  /** An instance has an item exactly if some live row of it says so. */
  lemma ReadsExactly(rows: seq<Row>, instance: int, key: string, value: string)
    requires Unique(rows)
    ensures key in Reads(rows, instance) && Reads(rows, instance)[key] == value <==>
      Row(instance, key, value, false) in rows
  {
    var i := FirstLive(rows, instance, key);
    ReadsFirstLive(rows, instance, key);
    if j :| 0 <= j < |rows| && rows[j] == Row(instance, key, value, false) {
      assert Live(rows[j], instance, key);
      assert i == j;
    }
  }

  function Marked(rows: seq<Row>, i: nat): seq<Row>
    requires i < |rows|
  {
    rows[i := rows[i].(deleted := true)]
  }

  function Put(rows: seq<Row>, instance: int, key: string, value: string): seq<Row> {
    var i := FirstLive(rows, instance, key);
    if i < |rows| then rows[i := rows[i].(value := value)] else rows + [Row(instance, key, value, false)]
  }

  lemma DictEqual(a: Dict, b: Dict)
    requires forall k :: (k in a <==> k in b) && (k in a ==> a[k] == b[k])
    ensures a == b
  {}

  /** Writing a key of one instance writes that key of that instance's dictionary. */
  lemma PutReads(rows: seq<Row>, instance: int, key: string, value: string, other: int)
    requires Unique(rows)
    ensures Unique(Put(rows, instance, key, value))
    ensures Reads(Put(rows, instance, key, value), other)
      == if other == instance then Reads(rows, instance)[key := value] else Reads(rows, other)
  {
    var next := Put(rows, instance, key, value);
    var goal := if other == instance then Reads(rows, instance)[key := value] else Reads(rows, other);
    forall k ensures (k in Reads(next, other) <==> k in goal) && (k in goal ==> Reads(next, other)[k] == goal[k]) {
      ReadsFirstLive(rows, other, k);
      ReadsFirstLive(next, other, k);
      SameFirst(rows, instance, key, value, other, k);
    }
    DictEqual(Reads(next, other), goal);
  }

  lemma SameFirst(rows: seq<Row>, instance: int, key: string, value: string, other: int, k: string)
    requires Unique(rows)
    ensures var next := Put(rows, instance, key, value);
      var i, j := FirstLive(rows, other, k), FirstLive(next, other, k);
      if other == instance && k == key then j < |next| && next[j].value == value
      else (i < |rows| <==> j < |next|) && (i < |rows| ==> next[j].value == rows[i].value)
  {
    var next := Put(rows, instance, key, value);
    var i, j := FirstLive(rows, other, k), FirstLive(next, other, k);
    var at := FirstLive(rows, instance, key);
    assert Live(next[at], instance, key);
    assert i < |rows| && !(other == instance && k == key) ==> next[i] == rows[i];
    assert j < |rows| && !(other == instance && k == key) ==> next[j] == rows[j];
  }

  lemma MarkReads(rows: seq<Row>, i: nat, other: int)
    requires Unique(rows) && i < |rows| && !rows[i].deleted
    ensures Unique(Marked(rows, i))
    ensures Reads(Marked(rows, i), other)
      == if other == rows[i].instance then Reads(rows, other) - {rows[i].key} else Reads(rows, other)
  {
    var next := Marked(rows, i);
    var goal := if other == rows[i].instance then Reads(rows, other) - {rows[i].key} else Reads(rows, other);
    forall k ensures (k in Reads(next, other) <==> k in goal) && (k in goal ==> Reads(next, other)[k] == goal[k]) {
      ReadsFirstLive(rows, other, k);
      ReadsFirstLive(next, other, k);
      var a, b := FirstLive(rows, other, k), FirstLive(next, other, k);
      assert a < |rows| && a != i ==> Live(next[a], other, k);
      assert b < |next| ==> Live(rows[b], other, k);
      assert Live(rows[i], other, k) ==> a == i;
    }
    DictEqual(Reads(next, other), goal);
  }

  // ---------- the database operations ----------

  /** The effect an operation promises: only this instance's dictionary changes. */
  ghost predicate Becomes(before: seq<Row>, after: seq<Row>, instance: int, dict: Dict) {
    && Unique(after)
    && Reads(after, instance) == dict
    && forall other :: other != instance ==> Reads(after, other) == Reads(before, other)
  }

  predicate WithinQuota(metadata: Dict, limit: nat) {
    |metadata| <= limit && forall k :: k in metadata ==> |k| <= 255 && |metadata[k]| <= 255
  }

  datatype Outcome<T> = Done(value: T) | InstanceNotFound | QuotaExceeded | NotActive

  /** The metadata table, the instances with whether they are active, and the limit
      on metadata items, which the quota look-up lowers a request to. */
  class Compute {
    const limit: nat
    var rows: seq<Row>
    var instances: map<int, bool>

    /** At most one live row per instance and key, and every instance within quota. */
    ghost predicate Valid()
      reads this
    {
      && Unique(rows)
      && (forall i :: WithinQuota(Reads(rows, i), limit))
      && (forall i :: i !in instances ==> Reads(rows, i) == map[])
    }

    constructor (limit: nat)
      ensures Valid() && rows == [] && instances == map[] && this.limit == limit
    {
      this.limit := limit;
      rows, instances := [], map[];
    }

    // ---------- the database functions ----------

    method DbUpdate(instance: int, metadata: Dict, delete: bool)
      requires Unique(rows)
      modifies this`rows
      ensures Becomes(old(rows), rows, instance, if delete then metadata else Reads(old(rows), instance) + metadata)
    {
      hide Put, Unique, Reads;
      if delete {
        DbDeleteOthers(instance, metadata);
      }
      ghost var start := Reads(rows, instance);
      var rest := metadata.Keys;
      while rest != {}
        invariant rest <= metadata.Keys
        invariant Becomes(old(rows), rows, instance, start + (metadata - rest))
      {
        var key :| key in rest;
        PutBecomes(old(rows), rows, instance, key, metadata[key]);
        assert (start + (metadata - rest))[key := metadata[key]] == start + (metadata - (rest - {key}));
        rows := Put(rows, instance, key, metadata[key]);
        rest := rest - {key};
      }
      assert start + metadata == if delete then metadata else Reads(old(rows), instance) + metadata;
    }

    /** The first loop of `instance_metadata_update`: live items that are not wanted. */
    method DbDeleteOthers(instance: int, metadata: Dict)
      requires Unique(rows)
      modifies this`rows
      ensures var original := Reads(old(rows), instance);
        Becomes(old(rows), rows, instance, original - (original.Keys - metadata.Keys))
    {
      var original := Reads(rows, instance);
      var rest := original.Keys - metadata.Keys;
      ghost var gone: set<string> := {};
      while rest != {}
        invariant rest + gone == original.Keys - metadata.Keys && rest !! gone
        invariant Becomes(old(rows), rows, instance, original - gone)
      {
        var key :| key in rest;
        ReadsFirstLive(rows, instance, key);
        var i := FirstLive(rows, instance, key);
        MarkBecomes(old(rows), rows, i);
        assert original - gone - {key} == original - (gone + {key});
        rows := Marked(rows, i);
        rest, gone := rest - {key}, gone + {key};
      }
      assert gone == original.Keys - metadata.Keys;
    }

    /** `instance_metadata_delete`: marks every live row for the key. */
    method DbDelete(instance: int, key: string)
      requires Unique(rows)
      modifies this`rows
      ensures Becomes(old(rows), rows, instance, Reads(old(rows), instance) - {key})
    {
      ghost var was := rows;
      for i := 0 to |rows|
        invariant |rows| == |was|
        invariant forall k :: 0 <= k < i ==> !Live(rows[k], instance, key)
        invariant Becomes(was, rows, instance, Reads(rows, instance))
        invariant Reads(rows, instance) - {key} == Reads(was, instance) - {key}
      {
        if Live(rows[i], instance, key) {
          MarkBecomes(was, rows, i);
          rows := Marked(rows, i);
        }
      }
      ReadsFirstLive(rows, instance, key);
      assert Reads(rows, instance) == Reads(rows, instance) - {key};
    }

    // ---------- the API ----------

    /** `_check_metadata_properties_quota`: whether the check passes. */
    method CheckQuota(metadata: Dict) returns (ok: bool)
      ensures ok <==> WithinQuota(metadata, limit)
      ensures ok <==> |metadata| <= limit && !exists k :: k in metadata && (|k| > 255 || |metadata[k]| > 255)
    {
      var allowed := if |metadata| < limit then |metadata| else limit;
      if allowed < |metadata| {
        return false;
      }
      var rest := metadata.Keys;
      while rest != {}
        invariant rest <= metadata.Keys
        invariant forall k :: k in metadata.Keys - rest ==> |k| <= 255 && |metadata[k]| <= 255
      {
        var k :| k in rest;
        if |k| > 255 || |metadata[k]| > 255 {
          return false;
        }
        rest := rest - {k};
      }
      return true;
    }

    /** A new instance with its metadata; `instance` is an unused id. */
    method Create(instance: int, metadata: Dict) returns (r: Outcome<()>)
      requires Valid() && instance !in instances
      modifies this
      ensures Valid()
      ensures r == if WithinQuota(metadata, limit) then Done(()) else QuotaExceeded
      ensures !r.Done? ==> rows == old(rows) && instances == old(instances)
      ensures r.Done? ==> instances == old(instances)[instance := false] && Becomes(old(rows), rows, instance, metadata)
    {
      var ok := CheckQuota(metadata);
      if !ok {
        return QuotaExceeded;
      }
      DbUpdate(instance, metadata, false);
      assert map[] + metadata == metadata;
      instances := instances[instance := false];
      return Done(());
    }

    /** Without `delete`, the given items are laid over those that are there. With it
        nothing is read first, so an unknown instance is noticed after the quota. */
    method UpdateInstanceMetadata(instance: int, metadata: Dict, delete: bool) returns (r: Outcome<Dict>)
      requires Valid()
      modifies this`rows
      ensures Valid()
      ensures var wanted := if delete then metadata else Reads(old(rows), instance) + metadata;
        && r == (if instance !in instances && (!delete || WithinQuota(metadata, limit)) then InstanceNotFound
                 else if WithinQuota(wanted, limit) then Done(wanted) else QuotaExceeded)
        && if r.Done? then Becomes(old(rows), rows, instance, wanted) else rows == old(rows)
    {
      if !delete && instance !in instances {
        return InstanceNotFound;
      }
      var wanted := if delete then metadata else Reads(rows, instance) + metadata;
      var ok := CheckQuota(wanted);
      if !ok {
        return QuotaExceeded;
      }
      if instance !in instances {
        return InstanceNotFound;
      }
      DbUpdate(instance, wanted, true);
      return Done(wanted);
    }

    method DeleteInstanceMetadata(instance: int, key: string) returns (r: Outcome<()>)
      requires Valid()
      modifies this`rows
      ensures Valid()
      ensures r == if instance in instances then Done(()) else InstanceNotFound
      ensures if r.Done? then Becomes(old(rows), rows, instance, Reads(old(rows), instance) - {key})
              else rows == old(rows)
    {
      if instance !in instances {
        return InstanceNotFound;
      }
      ghost var before := Reads(rows, instance);
      DbDelete(instance, key);
      SmallerWithinQuota(before, key, limit);
      return Done(());
    }

    /** Replaces the metadata; none given (`None` or empty) leaves none. */
    method Rebuild(instance: int, metadata: Dict) returns (r: Outcome<()>)
      requires Valid()
      modifies this`rows
      ensures Valid()
      ensures r == if instance !in instances then InstanceNotFound
                   else if !instances[instance] then NotActive
                   else if WithinQuota(metadata, limit) then Done(()) else QuotaExceeded
      ensures if r.Done? then Becomes(old(rows), rows, instance, metadata) else rows == old(rows)
    {
      if instance !in instances {
        return InstanceNotFound;
      }
      if !instances[instance] {
        return NotActive;
      }
      var ok := CheckQuota(metadata);
      if !ok {
        return QuotaExceeded;
      }
      DbUpdate(instance, metadata, true);
      return Done(());
    }

    /** An instance becomes active, or stops being so. */
    method SetActive(instance: int, active: bool)
      requires Valid() && instance in instances
      modifies this`instances
      ensures Valid() && instances == old(instances)[instance := active]
    {
      instances := instances[instance := active];
    }
  }

  lemma SmallerWithinQuota(metadata: Dict, key: string, limit: nat)
    requires WithinQuota(metadata, limit)
    ensures WithinQuota(metadata - {key}, limit)
  {
    assert (metadata - {key}).Keys <= metadata.Keys;
    SubsetSize((metadata - {key}).Keys, metadata.Keys);
  }

  lemma {:induction false} SubsetSize(a: set<string>, b: set<string>)
    requires a <= b
    ensures |a| <= |b|
  {
    if a != {} {
      var x :| x in a;
      SubsetSize(a - {x}, b - {x});
    }
  }

  lemma PutBecomes(was: seq<Row>, rows: seq<Row>, instance: int, key: string, value: string)
    requires Becomes(was, rows, instance, Reads(rows, instance))
    ensures Becomes(was, Put(rows, instance, key, value), instance, Reads(rows, instance)[key := value])
  {
    hide Put, Reads;
    PutReads(rows, instance, key, value, instance);
    forall other | other != instance ensures Reads(Put(rows, instance, key, value), other) == Reads(was, other) {
      PutReads(rows, instance, key, value, other);
    }
  }

  lemma MarkBecomes(was: seq<Row>, rows: seq<Row>, i: nat)
    requires i < |rows| && !rows[i].deleted
    requires Becomes(was, rows, rows[i].instance, Reads(rows, rows[i].instance))
    ensures Becomes(was, Marked(rows, i), rows[i].instance, Reads(rows, rows[i].instance) - {rows[i].key})
  {
    hide Marked, Reads;
    MarkReads(rows, i, rows[i].instance);
    forall other | other != rows[i].instance ensures Reads(Marked(rows, i), other) == Reads(was, other) {
      MarkReads(rows, i, other);
    }
  }
}
