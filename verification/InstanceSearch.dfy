/** The instance search of the database layer: part of the filters goes into the
    query, the rest runs over the rows in memory, one filter after the other. */
module InstanceSearch {

  import opened Lists
  import opened Wrappers

  /** The value a filter is given. */
  datatype Value =
    | Null
    | One(text: string)
    | Many(texts: seq<string>)
    | Dict(pairs: map<string, string>)
    | Dicts(nodes: seq<map<string, string>>)
    | Moment(at: int)

  /** What compiling the printed value as a regular expression gives: an error, or
      the texts at whose start it matches. */
  datatype Pattern = Invalid | Valid(texts: iset<string>)

  datatype Wish = Wish(value: Value, pattern: Pattern)

  /** A column is NULL, or prints as `text`; zero, false and the empty text are falsy. */
  datatype Column = Empty | Held(text: string, truthy: bool)

  datatype FixedIp = FixedIp(address: string, floating: seq<string>)

  datatype Interface = Interface(ipv6: string, fixed: seq<FixedIp>)

  datatype Instance = Instance(id: int, created: int, updated: Option<int>, columns: map<string, Column>,
    metadata: seq<(string, string)>, interfaces: seq<Interface>)

  datatype FloatingRow = FloatingRow(address: string, deleted: bool)

  /** A row of the fixed-address table with the floating addresses joined to it. */
  datatype FixedRow = FixedRow(address: string, instance: Option<int>, deleted: bool, floating: seq<FloatingRow>)

  datatype Context = Context(isAdmin: bool, project: Option<string>, user: Option<string>)

  /** `Raised` stands for the exception of an unusable filter value. */
  datatype Outcome = Found(rows: seq<Instance>) | Raised

  type Filters = map<string, Wish>

  const EXACT := {"project_id", "user_id", "image_ref", "vm_state", "instance_type_id", "deleted"}

  const SINCE := "changes-since"

  // What each filter means for one row

  predicate Matches(p: Pattern, text: string) {
    text != "" && p.Valid? && text in p.texts
  }

  predicate Ipv6Matches(i: Instance, p: Pattern) {
    exists k :: 0 <= k < |i.interfaces| && Matches(p, i.interfaces[k].ipv6)
  }

  predicate FixedMatches(f: FixedIp, p: Pattern) {
    f.address != "" && (Matches(p, f.address) || exists k :: 0 <= k < |f.floating| && Matches(p, f.floating[k]))
  }

  predicate InterfaceMatches(n: Interface, p: Pattern) {
    exists k :: 0 <= k < |n.fixed| && FixedMatches(n.fixed[k], p)
  }

  predicate IpMatches(i: Instance, p: Pattern) {
    exists k :: 0 <= k < |i.interfaces| && InterfaceMatches(i.interfaces[k], p)
  }

  function Single(item: (string, string)): map<string, string> {
    map[item.0 := item.1]
  }

  predicate Listed(i: Instance, node: map<string, string>) {
    exists m :: 0 <= m < |i.metadata| && node == Single(i.metadata[m])
  }

  predicate MetadataMatches(i: Instance, v: Value) {
    match v
    case Dict(pairs) => forall k :: k in pairs ==> (k, pairs[k]) in i.metadata
    case Dicts(nodes) => forall n :: 0 <= n < |nodes| ==> Listed(i, nodes[n])
    case Many(texts) => texts == []
    case _ => true
  }

  predicate ColumnMatches(i: Instance, name: string, p: Pattern) {
    name in i.columns ==> i.columns[name].Held? && i.columns[name].truthy && p.Valid? && i.columns[name].text in p.texts
  }

  predicate ColumnEquals(i: Instance, name: string, v: Value) {
    && name in i.columns
    && match v {
         case Null => i.columns[name].Empty?
         case One(text) => i.columns[name].Held? && i.columns[name].text == text
         case Many(texts) => i.columns[name].Held? && i.columns[name].text in texts
         case _ => false
       }
  }

  predicate ChangedSince(i: Instance, v: Value) {
    i.updated.Some? && v.Moment? && v.at < i.updated.value
  }

  /** The fixed address itself is live, or it carries the live floating address. */
  predicate TiesTo(f: FixedRow, v: Value, id: int) {
    v.One? && (TiesDirectly(f, v.text, id) || TiesByFloating(f, v.text, id))
  }

  predicate TiesDirectly(f: FixedRow, address: string, id: int) {
    f.instance == Some(id) && !f.deleted && f.address == address
  }

  predicate TiesByFloating(f: FixedRow, address: string, id: int) {
    f.instance == Some(id) && FloatingRow(address, false) in f.floating
  }

  predicate HasIp(fixed: seq<FixedRow>, v: Value, id: int) {
    exists k :: 0 <= k < |fixed| && TiesTo(fixed[k], v, id)
  }

  predicate Accepts(fixed: seq<FixedRow>, name: string, w: Wish, i: Instance) {
    if name == SINCE then ChangedSince(i, w.value)
    else if name in EXACT then ColumnEquals(i, name, w.value)
    else if name == "ip" then HasIp(fixed, w.value, i.id)
    else InMemory(name, w, i)
  }

  /** A filter that runs over the rows. */
  predicate InMemory(name: string, w: Wish, i: Instance) {
    if name == "ip6" then Ipv6Matches(i, w.pattern)
    else if name == "ip_re" then IpMatches(i, w.pattern)
    else if name == "metadata" then MetadataMatches(i, w.value)
    else ColumnMatches(i, name, w.pattern)
  }

  /** Every row satisfies every filter: the search, read naively. */
  function AcceptedByAll(fixed: seq<FixedRow>, names: set<string>, filters: Filters): Instance -> bool {
    (i: Instance) => forall n :: n in names && n in filters ==> Accepts(fixed, n, filters[n], i)
  }

  /** A project whose name is empty is none. */
  predicate HasProject(c: Context) {
    c.project.Some? && c.project.value != ""
  }

  /** A caller who is not an administrator is confined to its project, or without
      one to its own instances, whatever it asked for. */
  function Confined(c: Context, filters: Filters): Filters {
    if c.isAdmin then filters
    else if HasProject(c) then filters["project_id" := Wish(One(c.project.value), Invalid)]
    else filters["user_id" := Wish(if c.user.Some? then One(c.user.value) else Null, Invalid)]
  }

  predicate Unusable(name: string, v: Value) {
    || (name in EXACT && (v.Dict? || v.Dicts?))
    || (name == SINCE && !v.Moment? && !v.Null?)
    || (name == "ip" && !v.One? && !v.Null?)
  }

  /** The filters that are left for the rows in memory. */
  function LeftOver(filters: Filters): set<string> {
    filters.Keys - EXACT - {"ip"}
  }

  /** The filters the query applies. */
  function Queried(filters: Filters): set<string> {
    filters.Keys * (EXACT + {"ip", SINCE})
  }

  // The order of the rows

  function Insert(x: Instance, s: seq<Instance>): seq<Instance> {
    if s == [] || s[0].created <= x.created then [x] + s else [s[0]] + Insert(x, s[1..])
  }

  /** Newest first; rows of the same time stay in table order. */
  function Ordered(rows: seq<Instance>): seq<Instance> {
    if rows == [] then [] else Insert(rows[0], Ordered(rows[1..]))
  }

  ghost predicate NewestFirst(s: seq<Instance>) {
    forall j, k :: 0 <= j < k < |s| ==> s[j].created >= s[k].created
  }

  lemma {:induction false} InsertAdds(x: Instance, s: seq<Instance>)
    ensures multiset(Insert(x, s)) == multiset(s) + multiset{x}
  {
    if s != [] && s[0].created > x.created {
      InsertAdds(x, s[1..]);
      assert s == [s[0]] + s[1..];
    }
  }

  lemma {:induction false} InsertKeepsOrder(x: Instance, s: seq<Instance>)
    requires NewestFirst(s)
    ensures NewestFirst(Insert(x, s))
  {
    if s != [] && s[0].created > x.created {
      var y, t := s[0], Insert(x, s[1..]);
      InsertKeepsOrder(x, s[1..]);
      forall k | 0 <= k < |t| ensures y.created >= t[k].created {
        InsertAdds(x, s[1..]);
        assert t[k] in multiset(t);
        assert t[k] == x || t[k] in s[1..];
      }
      NewestInFront(y, t);
      assert Insert(x, s) == [y] + t;
    }
  }

  lemma NewestInFront(y: Instance, t: seq<Instance>)
    requires NewestFirst(t) && forall k :: 0 <= k < |t| ==> y.created >= t[k].created
    ensures NewestFirst([y] + t)
  {
  }

  lemma {:induction false} OrderedSorts(rows: seq<Instance>)
    ensures NewestFirst(Ordered(rows)) && multiset(Ordered(rows)) == multiset(rows)
  {
    if rows != [] {
      OrderedSorts(rows[1..]);
      InsertKeepsOrder(rows[0], Ordered(rows[1..]));
      InsertAdds(rows[0], Ordered(rows[1..]));
      assert rows == [rows[0]] + rows[1..];
    }
  }

  lemma {:induction false} InsertFilter(x: Instance, s: seq<Instance>, p: Instance -> bool)
    requires NewestFirst(s)
    ensures Filter(Insert(x, s), p) == if p(x) then Insert(x, Filter(s, p)) else Filter(s, p)
  {
    hide Filter, Insert;
    if s == [] || s[0].created <= x.created {
      InsertInFront(x, s);
      FilterHead(x, s, p);
      if Filter(s, p) != [] {
        FilterMember(s, p, Filter(s, p)[0]);
      }
      InsertInFront(x, Filter(s, p));
    } else {
      var y, t := s[0], s[1..];
      assert s == [y] + t;
      InsertFilter(x, t, p);
      InsertBehind(x, y, t);
      FilterHead(y, Insert(x, t), p);
      FilterHead(y, t, p);
      InsertBehind(x, y, Filter(t, p));
      assert !p(y) ==> Filter(s, p) == Filter(t, p) && Filter(Insert(x, s), p) == Filter(Insert(x, t), p);
    }
  }

  lemma InsertInFront(x: Instance, s: seq<Instance>)
    requires s != [] ==> s[0].created <= x.created
    ensures Insert(x, s) == [x] + s
  {
  }

  lemma InsertBehind(x: Instance, y: Instance, t: seq<Instance>)
    requires y.created > x.created
    ensures Insert(x, [y] + t) == [y] + Insert(x, t)
  {
    assert ([y] + t)[1..] == t;
  }

  lemma OrderedHead(x: Instance, t: seq<Instance>)
    ensures Ordered([x] + t) == Insert(x, Ordered(t))
  {
    assert ([x] + t)[1..] == t;
  }

  /** Sorting and filtering commute, so it does not matter which filters the query
      has applied by the time it sorts. */
  lemma {:induction false} FilterOrdered(rows: seq<Instance>, p: Instance -> bool)
    ensures Filter(Ordered(rows), p) == Ordered(Filter(rows, p))
  {
    hide Insert, Filter;
    if rows == [] {
      FilterAll(rows, p);
    } else {
      var x, t := rows[0], rows[1..];
      OrderedSorts(t);
      InsertFilter(x, Ordered(t), p);
      FilterOrdered(t, p);
      FilterHead(x, t, p);
      assert rows == [x] + t;
      OrderedHead(x, t);
      OrderedHead(x, Filter(t, p));
      assert !p(x) ==> Filter(rows, p) == Filter(t, p);
    }
  }

  lemma NoFilter(s: seq<Instance>, fixed: seq<FixedRow>, filters: Filters)
    ensures Filter(s, AcceptedByAll(fixed, {}, filters)) == s
  {
    FilterAll(s, AcceptedByAll(fixed, {}, filters));
  }

  /** One more filter. */
  lemma OneMore(fixed: seq<FixedRow>, s: seq<Instance>, done: set<string>, name: string, filters: Filters,
      p: Instance -> bool)
    requires name in filters
    requires forall i :: i in s ==> (p(i) <==> Accepts(fixed, name, filters[name], i))
    ensures Filter(Filter(s, AcceptedByAll(fixed, done, filters)), p)
      == Filter(s, AcceptedByAll(fixed, done + {name}, filters))
  {
    FilterFilter(s, AcceptedByAll(fixed, done, filters), p, AcceptedByAll(fixed, done + {name}, filters));
  }

  // The filters that loop over one row

  method FilterByIpv6(i: Instance, p: Pattern) returns (ok: bool)
    ensures ok <==> Ipv6Matches(i, p)
  {
    for k := 0 to |i.interfaces|
      invariant forall m :: 0 <= m < k ==> !Matches(p, i.interfaces[m].ipv6)
    {
      var fixedIpv6 := i.interfaces[k].ipv6;
      if fixedIpv6 != "" && Matches(p, fixedIpv6) {
        return true;
      }
    }
    return false;
  }

  method FilterByIp(i: Instance, p: Pattern) returns (ok: bool)
    ensures ok <==> IpMatches(i, p)
  {
    for k := 0 to |i.interfaces|
      invariant forall m :: 0 <= m < k ==> !InterfaceMatches(i.interfaces[m], p)
    {
      var addresses := i.interfaces[k].fixed;
      for f := 0 to |addresses|
        invariant forall m :: 0 <= m < f ==> !FixedMatches(addresses[m], p)
      {
        if addresses[f].address == "" {
          continue;
        }
        if Matches(p, addresses[f].address) {
          assert FixedMatches(addresses[f], p) && InterfaceMatches(i.interfaces[k], p);
          return true;
        }
        var floating := addresses[f].floating;
        for g := 0 to |floating|
          invariant forall m :: 0 <= m < g ==> !Matches(p, floating[m])
        {
          if floating[g] == "" {
            continue;
          }
          if Matches(p, floating[g]) {
            assert FixedMatches(addresses[f], p) && InterfaceMatches(i.interfaces[k], p);
            return true;
          }
        }
      }
    }
    return false;
  }

  method FilterByMetadata(i: Instance, v: Value) returns (ok: bool)
    ensures ok <==> MetadataMatches(i, v)
  {
    var pairs: seq<map<string, string>> := [];
    for m := 0 to |i.metadata|
      invariant |pairs| == m && forall j :: 0 <= j < m ==> pairs[j] == Single(i.metadata[j])
    {
      pairs := pairs + [Single(i.metadata[m])];
    }
    match v
    case Dicts(nodes) =>
      for n := 0 to |nodes|
        invariant forall j :: 0 <= j < n ==> nodes[j] in pairs
      {
        if nodes[n] !in pairs {
          return false;
        }
      }
      forall j | 0 <= j < |nodes| ensures Listed(i, nodes[j]) {
        var m :| 0 <= m < |pairs| && pairs[m] == nodes[j];
        assert nodes[j] == Single(i.metadata[m]);
      }
      return true;
    case Many(texts) =>
      return texts == [];
    case Dict(wanted) =>
      var todo := wanted.Keys;
      while todo != {}
        invariant todo <= wanted.Keys
        invariant forall k :: k in wanted.Keys - todo ==> (k, wanted[k]) in i.metadata
      {
        var k :| k in todo;
        PairListed(i, pairs, k, wanted[k]);
        if map[k := wanted[k]] !in pairs {
          return false;
        }
        todo := todo - {k};
      }
      return true;
    case _ =>
      return true;
  }

  lemma PairListed(i: Instance, pairs: seq<map<string, string>>, k: string, v: string)
    requires |pairs| == |i.metadata|
    requires forall j :: 0 <= j < |pairs| ==> pairs[j] == Single(i.metadata[j])
    ensures map[k := v] in pairs <==> (k, v) in i.metadata
  {
    if map[k := v] in pairs {
      var j :| 0 <= j < |pairs| && pairs[j] == map[k := v];
      assert k in pairs[j] && pairs[j][k] == v;
      assert i.metadata[j] == (k, v);
    }
    if (k, v) in i.metadata {
      var j :| 0 <= j < |i.metadata| && i.metadata[j] == (k, v);
      assert pairs[j] == map[k := v];
    }
  }

  /** `filter(filter_l, instances)` for the filter called `name`. */
  method KeepMatching(s: seq<Instance>, name: string, w: Wish) returns (kept: seq<Instance>)
    ensures kept == Filter(s, (i: Instance) => InMemory(name, w, i))
  {
    ghost var p := (i: Instance) => InMemory(name, w, i);
    kept := [];
    for k := 0 to |s|
      invariant kept == Filter(s[..k], p)
    {
      var ok;
      if name == "ip6" {
        ok := FilterByIpv6(s[k], w.pattern);
      } else if name == "ip_re" {
        ok := FilterByIp(s[k], w.pattern);
      } else if name == "metadata" {
        ok := FilterByMetadata(s[k], w.value);
      } else {
        ok := ColumnMatches(s[k], name, w.pattern);
      }
      assert s[..k + 1] == s[..k] + [s[k]];
      FilterAppend(s[..k], [s[k]], p);
      if ok {
        kept := kept + [s[k]];
      }
    }
    assert s[..|s|] == s;
  }

  /** The instances holding the address, by their fixed addresses and then by the
      floating ones: the two sub-queries of the address filter. */
  method HoldersOf(fixed: seq<FixedRow>, address: string) returns (ids: seq<int>)
    ensures forall id :: id in ids <==> HasIp(fixed, One(address), id)
  {
    ids := [];
    for k := 0 to |fixed|
      invariant forall id :: id in ids <==> exists j :: 0 <= j < k && TiesDirectly(fixed[j], address, id)
    {
      if fixed[k].address == address && !fixed[k].deleted && fixed[k].instance.Some? {
        ids := ids + [fixed[k].instance.value];
      }
    }
    ghost var direct := ids;
    for k := 0 to |fixed|
      invariant forall id :: id in ids <==>
        id in direct || exists j :: 0 <= j < k && TiesByFloating(fixed[j], address, id)
    {
      if FloatingRow(address, false) in fixed[k].floating && fixed[k].instance.Some? {
        ids := ids + [fixed[k].instance.value];
      }
    }
    forall id ensures id in ids <==> HasIp(fixed, One(address), id) {
      if id in ids {
        if id in direct {
          var j :| 0 <= j < |fixed| && TiesDirectly(fixed[j], address, id);
          assert TiesTo(fixed[j], One(address), id);
        } else {
          var j :| 0 <= j < |fixed| && TiesByFloating(fixed[j], address, id);
          assert TiesTo(fixed[j], One(address), id);
        }
      }
    }
  }

  // The search

  /** The exact columns exist, and no column's name has a dash. */
  ghost predicate Searchable(rows: seq<Instance>) {
    forall i :: i in rows ==> EXACT <= i.columns.Keys && SINCE !in i.columns
  }

  /** When the search raises: a filter the database cannot take, or rows to filter
      and an expression that does not compile. */
  ghost predicate Raises(rows: seq<Instance>, fixed: seq<FixedRow>, filters: Filters) {
    || (exists n :: n in filters && Unusable(n, filters[n].value))
    || (&& Filter(rows, AcceptedByAll(fixed, Queried(filters), filters)) != []
        && exists n :: n in LeftOver(filters) && filters[n].pattern.Invalid?)
  }

  ghost function Search(rows: seq<Instance>, fixed: seq<FixedRow>, filters: Filters): Outcome {
    if Raises(rows, fixed, filters) then Raised
    else Found(Ordered(Filter(rows, AcceptedByAll(fixed, filters.Keys, filters))))
  }

  /** The query: the time filter, every exact filter, then the address. */
  method Query(rows: seq<Instance>, fixed: seq<FixedRow>, filters: Filters) returns (query: seq<Instance>)
    requires forall n :: n in filters ==> !Unusable(n, filters[n].value)
    ensures query == Filter(rows, AcceptedByAll(fixed, Queried(filters), filters))
  {
    hide AcceptedByAll, Filter, ColumnEquals, ChangedSince, InMemory, Unusable;
    query := rows;
    ghost var done := {};
    NoFilter(rows, fixed, filters);
    if SINCE in filters {
      var since := filters[SINCE].value;
      var p := (i: Instance) => ChangedSince(i, since);
      OneMore(fixed, rows, done, SINCE, filters, p);
      query, done := Filter(query, p), done + {SINCE};
    }
    ghost var first := done;
    var names := filters.Keys * EXACT;
    while names != {}
      invariant names <= filters.Keys * EXACT
      invariant done == first + (filters.Keys * EXACT - names)
      invariant query == Filter(rows, AcceptedByAll(fixed, done, filters))
    {
      var name :| name in names;
      var value := filters[name].value;
      var p := (i: Instance) => ColumnEquals(i, name, value);
      OneMore(fixed, rows, done, name, filters, p);
      query, names, done := Filter(query, p), names - {name}, done + {name};
    }
    if "ip" in filters {
      var value, ids := filters["ip"].value, [];
      if value.One? {
        ids := HoldersOf(fixed, value.text);
      }
      var p := (i: Instance) => i.id in ids;
      OneMore(fixed, rows, done, "ip", filters, p);
      query, done := Filter(query, p), done + {"ip"};
    }
    assert done == Queried(filters);
  }

  /** Whatever order the dictionary yields its keys in, and however the filters are
      split between the query and the rows, the result is the plain conjunction of
      all of them, newest first. */
  method InstanceGetAllByFilters(c: Context, rows: seq<Instance>, fixed: seq<FixedRow>, given: Filters)
      returns (out: Outcome)
    requires Searchable(rows)
    ensures out == Search(rows, fixed, Confined(c, given))
  {
    hide AcceptedByAll, Filter, Ordered, InMemory, Accepts, Unusable, NewestFirst;
    var filters := Confined(c, given);
    if exists n :: n in filters && Unusable(n, filters[n].value) {
      return Raised;
    }
    var query := Query(rows, fixed, filters);
    var instances := Ordered(query);
    OrderedSorts(query);
    ghost var done := Queried(filters);
    FilterOrdered(rows, AcceptedByAll(fixed, done, filters));
    if instances == [] {
      NothingLeft(rows, fixed, filters);
      return Found([]);
    }
    assert query != [];
    var names := LeftOver(filters);
    while names != {}
      invariant names <= LeftOver(filters)
      invariant done == Queried(filters) + (LeftOver(filters) - names)
      invariant forall n :: n in LeftOver(filters) - names ==> filters[n].pattern.Valid?
      invariant instances == Filter(Ordered(rows), AcceptedByAll(fixed, done, filters))
    {
      var name :| name in names;
      if filters[name].pattern.Invalid? {
        return Raised;
      }
      SecondPass(rows, fixed, filters, name, done);
      instances := KeepMatching(instances, name, filters[name]);
      names, done := names - {name}, done + {name};
    }
    assert done == filters.Keys;
    FilterOrdered(rows, AcceptedByAll(fixed, done, filters));
    return Found(instances);
  }

  lemma NothingLeft(rows: seq<Instance>, fixed: seq<FixedRow>, filters: Filters)
    requires Filter(rows, AcceptedByAll(fixed, Queried(filters), filters)) == []
    ensures Filter(rows, AcceptedByAll(fixed, filters.Keys, filters)) == []
  {
    var all := AcceptedByAll(fixed, filters.Keys, filters);
    if Filter(rows, all) != [] {
      var i := Filter(rows, all)[0];
      FilterMember(rows, all, i);
      FilterMember(rows, AcceptedByAll(fixed, Queried(filters), filters), i);
    }
  }

  /** The time filter stays in the dictionary and comes round again as a column
      filter; no instance has such a column, so it lets every row pass. */
  lemma SecondPass(rows: seq<Instance>, fixed: seq<FixedRow>, filters: Filters, name: string, done: set<string>)
    requires Searchable(rows)
    requires name in LeftOver(filters) && Queried(filters) <= done
    ensures var before := Filter(Ordered(rows), AcceptedByAll(fixed, done, filters));
      Filter(before, (i: Instance) => InMemory(name, filters[name], i))
        == Filter(Ordered(rows), AcceptedByAll(fixed, done + {name}, filters))
  {
    var p := (i: Instance) => InMemory(name, filters[name], i);
    var s := Ordered(rows);
    if name == SINCE {
      OrderedSorts(rows);
      assert done + {name} == done;
      forall i | i in Filter(s, AcceptedByAll(fixed, done, filters)) ensures p(i) {
        FilterMember(s, AcceptedByAll(fixed, done, filters), i);
        assert i in multiset(s);
        assert i in rows;
      }
      FilterAll(Filter(s, AcceptedByAll(fixed, done, filters)), p);
    } else {
      OneMore(fixed, s, done, name, filters, p);
    }
  }

  /** The rows found are exactly the rows that pass every filter, each as often as
      it is stored, and come newest first. */
  lemma FoundExactly(rows: seq<Instance>, fixed: seq<FixedRow>, filters: Filters, i: Instance)
    requires !Raises(rows, fixed, filters)
    ensures var found := Search(rows, fixed, filters).rows;
      forall j, k :: 0 <= j < k < |found| ==> found[j].created >= found[k].created
    ensures i in Search(rows, fixed, filters).rows <==>
      i in rows && forall n :: n in filters ==> Accepts(fixed, n, filters[n], i)
    ensures i in Search(rows, fixed, filters).rows ==>
      multiset(Search(rows, fixed, filters).rows)[i] == multiset(rows)[i]
  {
    var all := AcceptedByAll(fixed, filters.Keys, filters);
    OrderedSorts(Filter(rows, all));
    FilterMember(rows, all, i);
    FilterCount(rows, all, i);
    assert i in Ordered(Filter(rows, all)) <==> i in multiset(Filter(rows, all));
  }

  /** A filter more is one more sieve over the same rows, so a search can only
      lose rows by it, never gain or reorder them. */
  lemma FurtherFilterNarrows(rows: seq<Instance>, fixed: seq<FixedRow>, filters: Filters, name: string, w: Wish)
    requires name !in filters && !Raises(rows, fixed, filters) && !Raises(rows, fixed, filters[name := w])
    ensures Search(rows, fixed, filters[name := w]).rows
      == Filter(Search(rows, fixed, filters).rows, (i: Instance) => Accepts(fixed, name, w, i))
  {
    var wider := filters[name := w];
    var all := AcceptedByAll(fixed, filters.Keys, filters);
    var p := (i: Instance) => Accepts(fixed, name, w, i);
    FilterSame(rows, all, AcceptedByAll(fixed, filters.Keys, wider));
    OneMore(fixed, rows, filters.Keys, name, wider, p);
    assert wider.Keys == filters.Keys + {name};
    FilterOrdered(Filter(rows, all), p);
  }

  /** No filter hides deleted rows unless it is asked to: a search that does not
      mention the column accepts a row whatever is in it. */
  lemma DeletedRowsFound(rows: seq<Instance>, fixed: seq<FixedRow>, filters: Filters, i: Instance, c: Column)
    requires "deleted" !in filters && "deleted" in i.columns
    ensures AcceptedByAll(fixed, filters.Keys, filters)(i.(columns := i.columns["deleted" := c]))
      == AcceptedByAll(fixed, filters.Keys, filters)(i)
    ensures Search(rows, fixed, map[]) == Found(Ordered(rows))
  {
    var none: Filters := map[];
    FilterAll(rows, AcceptedByAll(fixed, none.Keys, none));
    forall n | n in filters
      ensures Accepts(fixed, n, filters[n], i.(columns := i.columns["deleted" := c]))
        == Accepts(fixed, n, filters[n], i)
    {
      OtherColumn(fixed, n, filters[n], i, c);
    }
  }

  lemma OtherColumn(fixed: seq<FixedRow>, name: string, w: Wish, i: Instance, c: Column)
    requires name != "deleted" && "deleted" in i.columns
    ensures Accepts(fixed, name, w, i.(columns := i.columns["deleted" := c])) == Accepts(fixed, name, w, i)
  {}
}
