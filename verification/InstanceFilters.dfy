/** What an instance search finds, said of the stored columns, addresses and metadata:
    one statement for every kind of filter, and who is confined to which instances. */
module InstanceFilters {

  import opened InstanceSearch
  import opened Lists
  import opened Wrappers

  /** The search with one filter. */
  ghost function SearchBy(rows: seq<Instance>, fixed: seq<FixedRow>, name: string, w: Wish): Outcome {
    Search(rows, fixed, map[name := w])
  }

  lemma OneFilter(rows: seq<Instance>, fixed: seq<FixedRow>, name: string, w: Wish, i: Instance)
    requires i in rows
    ensures SearchBy(rows, fixed, name, w).Found? ==>
      (i in SearchBy(rows, fixed, name, w).rows <==> Accepts(fixed, name, w, i))
  {
    var filters: Filters := map[name := w];
    if !Raises(rows, fixed, filters) {
      FoundExactly(rows, fixed, filters, i);
      hide Accepts;
      assert filters[name] == w && name in filters;
    }
  }

  lemma NoPatternNeeded(rows: seq<Instance>, fixed: seq<FixedRow>, name: string, w: Wish)
    requires name in EXACT + {"ip"} || w.pattern.Valid?
    ensures SearchBy(rows, fixed, name, w).Raised? <==> Unusable(name, w.value)
  {
    var filters: Filters := map[name := w];
    hide Unusable, Filter, AcceptedByAll;
    assert name in filters && filters[name] == w;
  }

  /** A filter on one of the six columns that the database compares: a text stands for
      itself, a list for any of its texts, null for an empty column. */
  lemma ExactFilterFinds(rows: seq<Instance>, fixed: seq<FixedRow>, name: string, w: Wish, i: Instance)
    requires name in {"project_id", "user_id", "image_ref", "vm_state", "instance_type_id", "deleted"}
    requires i in rows && name in i.columns
    ensures var out, column := SearchBy(rows, fixed, name, w), i.columns[name];
      match w.value
      case Null => out.Found? && (i in out.rows <==> column == Empty)
      case One(text) => out.Found? && (i in out.rows <==> column in {Held(text, true), Held(text, false)})
      case Many(texts) => out.Found? && (i in out.rows <==>
        exists t :: t in texts && column in {Held(t, true), Held(t, false)})
      case Moment(_) => out == Found([]) || (out.Found? && i !in out.rows)
      case Dict(_) => out == Raised
      case Dicts(_) => out == Raised
  {
    OneFilter(rows, fixed, name, w, i);
    NoPatternNeeded(rows, fixed, name, w);
    assert Accepts(fixed, name, w, i) <==> ColumnEquals(i, name, w.value);
    hide Search, Raises, Accepts;
  }

  /** Changed since a moment: strictly later. */
  lemma SinceFilterFinds(rows: seq<Instance>, fixed: seq<FixedRow>, w: Wish, i: Instance)
    requires i in rows && w.pattern.Valid?
    ensures var out := SearchBy(rows, fixed, "changes-since", w);
      match w.value
      case Moment(at) => out.Found? && (i in out.rows <==> i.updated.Some? && i.updated.value > at)
      case Null => out.Found? && i !in out.rows
      case _ => out == Raised
  {
    OneFilter(rows, fixed, "changes-since", w, i);
    NoPatternNeeded(rows, fixed, "changes-since", w);
    assert Accepts(fixed, "changes-since", w, i) <==> ChangedSince(i, w.value);
    hide Search, Raises, Accepts;
  }

  /** A whole address: some row of the fixed-address table that names the instance is
      live and has it, or carries a live floating address that is it. */
  lemma AddressFilterFinds(rows: seq<Instance>, fixed: seq<FixedRow>, w: Wish, i: Instance)
    requires i in rows
    ensures var out := SearchBy(rows, fixed, "ip", w);
      match w.value
      case One(address) => out.Found? && (i in out.rows <==>
        exists k :: 0 <= k < |fixed| && fixed[k].instance == Some(i.id)
          && (|| (fixed[k].address == address && !fixed[k].deleted)
              || exists g :: g in fixed[k].floating && g.address == address && !g.deleted))
      case Null => out.Found? && i !in out.rows
      case _ => out == Raised
  {
    OneFilter(rows, fixed, "ip", w, i);
    NoPatternNeeded(rows, fixed, "ip", w);
    assert Accepts(fixed, "ip", w, i) <==> HasIp(fixed, w.value, i.id);
    hide Search, Raises, Accepts;
    if w.value.One? {
      forall k | 0 <= k < |fixed|
        ensures TiesTo(fixed[k], w.value, i.id) <==>
          && fixed[k].instance == Some(i.id)
          && (|| (fixed[k].address == w.value.text && !fixed[k].deleted)
              || exists g :: g in fixed[k].floating && g.address == w.value.text && !g.deleted)
      {
        forall g | g in fixed[k].floating && g.address == w.value.text && !g.deleted
          ensures g == FloatingRow(w.value.text, false) {}
      }
    }
  }

  /** The expressions over addresses: those of the instance's interfaces, an interface's
      fixed addresses, and the floating ones of a fixed address that has a text. */
  lemma AddressPatternsFind(rows: seq<Instance>, fixed: seq<FixedRow>, w: Wish, i: Instance)
    requires i in rows && w.pattern.Valid?
    ensures var out, texts := SearchBy(rows, fixed, "ip6", w), w.pattern.texts;
      out.Found? && (i in out.rows <==> exists n :: n in i.interfaces && n.ipv6 != "" && n.ipv6 in texts)
    ensures var out, texts := SearchBy(rows, fixed, "ip_re", w), w.pattern.texts;
      out.Found? && (i in out.rows <==>
        exists n, f :: n in i.interfaces && f in n.fixed && f.address != ""
          && (f.address in texts || exists g :: g in f.floating && g != "" && g in texts))
  {
    OneFilter(rows, fixed, "ip6", w, i);
    OneFilter(rows, fixed, "ip_re", w, i);
    NoPatternNeeded(rows, fixed, "ip6", w);
    NoPatternNeeded(rows, fixed, "ip_re", w);
    Ipv6Meaning(i, w.pattern);
    IpMeaning(i, w.pattern);
    assert Accepts(fixed, "ip6", w, i) <==> Ipv6Matches(i, w.pattern);
    assert Accepts(fixed, "ip_re", w, i) <==> IpMatches(i, w.pattern);
    hide Search, Raises, Accepts, IpMatches, Ipv6Matches;
  }

  lemma Ipv6Meaning(i: Instance, p: Pattern)
    requires p.Valid?
    ensures Ipv6Matches(i, p) <==> exists n :: n in i.interfaces && n.ipv6 != "" && n.ipv6 in p.texts
  {
    if n :| n in i.interfaces && n.ipv6 != "" && n.ipv6 in p.texts {
      var k :| 0 <= k < |i.interfaces| && i.interfaces[k] == n;
      assert Matches(p, i.interfaces[k].ipv6);
    }
  }

  lemma IpMeaning(i: Instance, p: Pattern)
    requires p.Valid?
    ensures IpMatches(i, p) <==>
      exists n, f :: n in i.interfaces && f in n.fixed && f.address != ""
        && (f.address in p.texts || exists g :: g in f.floating && g != "" && g in p.texts)
  {
    forall f: FixedIp
      ensures FixedMatches(f, p) <==>
        && f.address != ""
        && (f.address in p.texts || exists g :: g in f.floating && g != "" && g in p.texts)
    {
      if g :| g in f.floating && g != "" && g in p.texts {
        var k :| 0 <= k < |f.floating| && f.floating[k] == g;
        assert Matches(p, f.floating[k]);
      }
    }
    hide FixedMatches;
    if IpMatches(i, p) {
      var k :| 0 <= k < |i.interfaces| && InterfaceMatches(i.interfaces[k], p);
      var n := i.interfaces[k];
      var j :| 0 <= j < |n.fixed| && FixedMatches(n.fixed[j], p);
      assert n in i.interfaces && n.fixed[j] in n.fixed;
    }
    if n, f :| n in i.interfaces && f in n.fixed && FixedMatches(f, p) {
      var k :| 0 <= k < |i.interfaces| && i.interfaces[k] == n;
      var j :| 0 <= j < |n.fixed| && n.fixed[j] == f;
      assert FixedMatches(n.fixed[j], p) && InterfaceMatches(i.interfaces[k], p);
    }
  }

  /** Metadata: every wanted item must be there; from a list, each entry must be a
      dictionary of exactly one item that is there. What is neither wishes nothing. */
  lemma MetadataFilterFinds(rows: seq<Instance>, fixed: seq<FixedRow>, w: Wish, i: Instance)
    requires i in rows && w.pattern.Valid?
    ensures var out := SearchBy(rows, fixed, "metadata", w);
      && out.Found?
      && match w.value
         case Dict(pairs) => i in out.rows <==> forall k :: k in pairs ==> (k, pairs[k]) in i.metadata
         case Dicts(nodes) => i in out.rows <==>
           forall node :: node in nodes ==> exists item :: item in i.metadata && node == map[item.0 := item.1]
         case Many(texts) => i in out.rows <==> texts == []
         case _ => i in out.rows
  {
    OneFilter(rows, fixed, "metadata", w, i);
    NoPatternNeeded(rows, fixed, "metadata", w);
    assert Accepts(fixed, "metadata", w, i) <==> MetadataMatches(i, w.value);
    hide Search, Raises, Accepts;
    forall node
      ensures Listed(i, node) <==> exists item :: item in i.metadata && node == map[item.0 := item.1]
    {
      if item :| item in i.metadata && node == map[item.0 := item.1] {
        var m :| 0 <= m < |i.metadata| && i.metadata[m] == item;
        assert node == Single(i.metadata[m]);
      }
      if m :| 0 <= m < |i.metadata| && node == Single(i.metadata[m]) {
        assert i.metadata[m] in i.metadata;
      }
    }
    if w.value.Dicts? {
      hide Listed;
      assert MetadataMatches(i, w.value) <==> forall node :: node in w.value.nodes ==> Listed(i, node);
    }
  }

  /** Any other name: a row that lacks such a column passes, and otherwise the column
      must hold something that is not falsy and that the expression matches. */
  lemma ColumnPatternFinds(rows: seq<Instance>, fixed: seq<FixedRow>, name: string, w: Wish, i: Instance)
    requires i in rows && w.pattern.Valid?
    requires name !in {"project_id", "user_id", "image_ref", "vm_state", "instance_type_id", "deleted"}
    requires name !in {"changes-since", "ip", "ip6", "ip_re", "metadata"}
    ensures var out := SearchBy(rows, fixed, name, w);
      out.Found? && (i in out.rows <==>
        || name !in i.columns
        || (i.columns[name].Held? && i.columns[name].truthy && i.columns[name].text in w.pattern.texts))
  {
    OneFilter(rows, fixed, name, w, i);
    NoPatternNeeded(rows, fixed, name, w);
    assert Accepts(fixed, name, w, i) <==> ColumnMatches(i, name, w.pattern);
    hide Search, Raises, Accepts;
  }

  /** An expression that does not compile is noticed if and only if there are rows. */
  lemma BadPatternRaisesIff(rows: seq<Instance>, fixed: seq<FixedRow>, name: string, w: Wish)
    requires w.pattern.Invalid? && name !in {"changes-since", "ip"}
    requires name !in {"project_id", "user_id", "image_ref", "vm_state", "instance_type_id", "deleted"}
    ensures SearchBy(rows, fixed, name, w) == if rows == [] then Found([]) else Raised
  {
    var filters: Filters := map[name := w];
    assert name in filters && filters[name] == w && LeftOver(filters) == {name} && Queried(filters) == {};
    NoFilter(rows, fixed, filters);
  }

  /** Several filters find what each of them finds alone. */
  lemma SearchIsIntersection(rows: seq<Instance>, fixed: seq<FixedRow>, filters: Filters, i: Instance)
    requires forall n :: n in filters ==> SearchBy(rows, fixed, n, filters[n]).Found?
    ensures Search(rows, fixed, filters).Found?
    ensures i in Search(rows, fixed, filters).rows <==>
      i in rows && forall n :: n in filters ==> i in SearchBy(rows, fixed, n, filters[n]).rows
  {
    NoneRaises(rows, fixed, filters);
    FoundExactly(rows, fixed, filters, i);
    if i in rows {
      forall n | n in filters
        ensures i in SearchBy(rows, fixed, n, filters[n]).rows <==> Accepts(fixed, n, filters[n], i)
      {
        OneFilter(rows, fixed, n, filters[n], i);
      }
    }
  }

  lemma NoneRaises(rows: seq<Instance>, fixed: seq<FixedRow>, filters: Filters)
    requires forall n :: n in filters ==> SearchBy(rows, fixed, n, filters[n]).Found?
    ensures !Raises(rows, fixed, filters)
  {
    forall n | n in filters
      ensures !Unusable(n, filters[n].value)
      ensures forall i :: i in rows && AcceptedByAll(fixed, Queried(filters), filters)(i) && n in LeftOver(filters) ==>
        filters[n].pattern.Valid?
    {
      var only: Filters := map[n := filters[n]];
      assert n in only && !Raises(rows, fixed, only);
      forall i | i in rows && AcceptedByAll(fixed, Queried(filters), filters)(i) && n in LeftOver(filters)
        ensures filters[n].pattern.Valid?
      {
        FilterMember(rows, AcceptedByAll(fixed, Queried(only), only), i);
        assert n in LeftOver(only);
      }
    }
    var kept := Filter(rows, AcceptedByAll(fixed, Queried(filters), filters));
    if kept != [] {
      FilterMember(rows, AcceptedByAll(fixed, Queried(filters), filters), kept[0]);
    }
  }

  /** When a search raises: an exact filter is given a dictionary, the time filter or the
      address filter a value of the wrong kind, or an expression does not compile and
      some row passes all the filters that the database applies. */
  lemma RaisesIff(rows: seq<Instance>, fixed: seq<FixedRow>, filters: Filters)
    ensures var exact := {"project_id", "user_id", "image_ref", "vm_state", "instance_type_id", "deleted"};
      Search(rows, fixed, filters) == Raised <==>
        || (exists n :: n in filters && n in exact && (filters[n].value.Dict? || filters[n].value.Dicts?))
        || ("changes-since" in filters
             && !filters["changes-since"].value.Moment? && filters["changes-since"].value != Null)
        || ("ip" in filters && !filters["ip"].value.One? && filters["ip"].value != Null)
        || (exists n, i :: n in filters && n !in exact && n != "ip" && filters[n].pattern == Invalid && i in rows
             && forall q :: q in filters && (q in exact || q in {"ip", "changes-since"}) ==>
                  Accepts(fixed, q, filters[q], i))
  {
    var p := AcceptedByAll(fixed, Queried(filters), filters);
    hide Accepts;
    assert forall i :: p(i) <==> forall q :: q in filters && q in Queried(filters) ==> Accepts(fixed, q, filters[q], i);
    if Filter(rows, p) != [] {
      FilterMember(rows, p, Filter(rows, p)[0]);
    }
    forall i | i in rows && p(i) ensures Filter(rows, p) != [] {
      FilterMember(rows, p, i);
    }
    assert forall n :: n in LeftOver(filters) <==> n in filters && n !in EXACT && n != "ip";
  }

  // ---------- who is confined ----------

  /** The instances that a caller without administrator rights may see: those of its
      project, or without one those of its user. */
  predicate IsOwn(c: Context, i: Instance) {
    if c.project.Some? && c.project.value != "" then
      "project_id" in i.columns && i.columns["project_id"].Held? && i.columns["project_id"].text == c.project.value
    else if c.user.Some? then
      "user_id" in i.columns && i.columns["user_id"].Held? && i.columns["user_id"].text == c.user.value
    else
      "user_id" in i.columns && i.columns["user_id"] == Empty
  }

  /** The one of the two filters that is overwritten. */
  function Confining(c: Context): string {
    if c.project.Some? && c.project.value != "" then "project_id" else "user_id"
  }

  /** A caller without administrator rights finds exactly those of its own instances that
      pass its filters, whatever its own filter on the project, or the user, says; what
      it finds holds its project or user in the column. */
  lemma OnlyOwnInstances(c: Context, rows: seq<Instance>, fixed: seq<FixedRow>, given: Filters, i: Instance)
    requires !c.isAdmin && Search(rows, fixed, Confined(c, given)).Found?
    ensures var rest := given - {Confining(c)};
      i in Search(rows, fixed, Confined(c, given)).rows <==>
        i in rows && IsOwn(c, i) && forall n :: n in rest ==> Accepts(fixed, n, rest[n], i)
    ensures i in Search(rows, fixed, Confined(c, given)).rows && c.project.Some? && c.project.value != "" ==>
      "project_id" in i.columns && i.columns["project_id"] == Held(c.project.value, i.columns["project_id"].truthy)
    ensures i in Search(rows, fixed, Confined(c, given)).rows && c.project.None? && c.user.Some? ==>
      "user_id" in i.columns && i.columns["user_id"] == Held(c.user.value, i.columns["user_id"].truthy)
  {
    var filters, name := Confined(c, given), Confining(c);
    FoundExactly(rows, fixed, filters, i);
    assert name in EXACT && name in filters;
    assert Accepts(fixed, name, filters[name], i) <==> IsOwn(c, i);
    hide Accepts;
    var rest := given - {name};
    assert forall n :: n in filters <==> n == name || n in rest;
    assert forall n :: n in rest ==> filters[n] == rest[n];
  }

  /** An administrator's search is the one it asked for; without a filter it finds the
      instances of every project. */
  lemma AdministratorIsNotConfined(c: Context, rows: seq<Instance>, fixed: seq<FixedRow>, given: Filters)
    requires c.isAdmin
    ensures Search(rows, fixed, Confined(c, given)) == Search(rows, fixed, given)
    ensures given == map[] ==> var out := Search(rows, fixed, Confined(c, given));
      out.Found? && forall i :: i in rows ==> i in out.rows
  {
    if given == map[] {
      forall i | i in rows ensures i in Search(rows, fixed, given).rows {
        FoundExactly(rows, fixed, given, i);
      }
    }
  }

  /** Two projects: each finds its own instance, whatever project it asks for. */
  lemma TwoProjects(asked: string, mine: Instance, other: Instance, fixed: seq<FixedRow>, c: Context)
    requires mine.columns == map["project_id" := Held("p", true)]
    requires other.columns == map["project_id" := Held("q", true)]
    requires !c.isAdmin && c.project == Some("p")
    ensures var given: Filters := map["project_id" := Wish(One(asked), Invalid)];
      Search([other, mine], fixed, Confined(c, given)) == Found([mine])
  {
    var given: Filters := map["project_id" := Wish(One(asked), Invalid)];
    var filters := Confined(c, given);
    assert filters == map["project_id" := Wish(One("p"), Invalid)];
    assert "project_id" in filters && LeftOver(filters) == {};
    var p := AcceptedByAll(fixed, filters.Keys, filters);
    assert p(mine) && !p(other) by { assert Accepts(fixed, "project_id", filters["project_id"], mine); }
    hide AcceptedByAll;
    assert [other, mine][1..] == [mine] && [mine][1..] == [];
    assert Filter([mine], p) == [mine] + Filter([], p) == [mine];
    assert Filter([other, mine], p) == [] + Filter([mine], p) == [mine];
    assert Ordered([mine]) == Insert(mine, Ordered([])) == [mine];
  }
}
