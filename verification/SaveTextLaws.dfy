/** What `_modify_rules` promises about the text it returns: contents, order,
    non-interference with other components, and convergence. */
module SaveTextLaws {
  import opened Lists
  import opened Text
  import opened SaveText

  // ---------- the algebra of keeping last occurrences ----------

  ghost predicate Distinct(s: seq<Line>) {
    forall i, j :: 0 <= i < j < |s| ==> Strip(s[i]) != Strip(s[j])
  }

  lemma KeysMember(s: seq<Line>, l: Line)
    requires l in s
    ensures Strip(l) in Keys(s)
  {}

  lemma DropNone(s: seq<Line>, ks: set<string>)
    requires Keys(s) !! ks
    ensures Drop(s, ks) == s
  {
    forall l | l in s ensures Strip(l) !in ks { KeysMember(s, l); }
    FilterAll(s, l => Strip(l) !in ks);
  }

  lemma {:induction false} DropAll(s: seq<Line>, ks: set<string>)
    requires Keys(s) <= ks
    ensures Drop(s, ks) == []
  {
    if s != [] {
      KeysMember(s, s[0]);
      assert s == [s[0]] + s[1..];
      KeysAppend([s[0]], s[1..]);
      DropAll(s[1..], ks);
    }
  }

  lemma DropAppend(a: seq<Line>, b: seq<Line>, ks: set<string>)
    ensures Drop(a + b, ks) == Drop(a, ks) + Drop(b, ks)
  {
    FilterAppend(a, b, l => Strip(l) !in ks);
  }

  lemma DropMember(s: seq<Line>, ks: set<string>, l: Line)
    ensures l in Drop(s, ks) <==> l in s && Strip(l) !in ks
  {
    FilterMember(s, x => Strip(x) !in ks, l);
  }

  lemma DropKeys(s: seq<Line>, ks: set<string>)
    ensures Keys(Drop(s, ks)) == Keys(s) - ks
  {
    forall l ensures l in Drop(s, ks) <==> l in s && Strip(l) !in ks { DropMember(s, ks, l); }
    forall k | k in Keys(s) - ks ensures k in Keys(Drop(s, ks)) {
      var l :| l in s && Strip(l) == k;
      assert l in Drop(s, ks);
    }
  }

  lemma {:induction false} KeepLastMembers(s: seq<Line>)
    ensures forall l :: l in KeepLast(s) ==> l in s
    ensures Keys(KeepLast(s)) == Keys(s)
  {
    if s != [] {
      KeepLastMembers(s[1..]);
      assert s == [s[0]] + s[1..];
      KeysAppend([s[0]], s[1..]);
      assert Keys([s[0]]) == {Strip(s[0])};
      KeysAppend([s[0]], KeepLast(s[1..]));
    }
  }

  lemma {:induction false} KeepLastDistinct(s: seq<Line>)
    ensures Distinct(KeepLast(s))
  {
    if s != [] {
      KeepLastDistinct(s[1..]);
      KeepLastMembers(s[1..]);
      forall l | l in KeepLast(s[1..]) ensures Strip(l) in Keys(s[1..]) { KeysMember(KeepLast(s[1..]), l); }
    }
  }

  lemma {:induction false} KeepLastOfDistinct(s: seq<Line>)
    requires Distinct(s)
    ensures KeepLast(s) == s
  {
    if s != [] {
      KeepLastOfDistinct(s[1..]);
    }
  }

  lemma KeepLastHead(x: Line, s: seq<Line>)
    ensures KeepLast([x] + s) == if Strip(x) in Keys(s) then KeepLast(s) else [x] + KeepLast(s)
  {
    assert ([x] + s)[1..] == s;
  }

  lemma DropHead(x: Line, s: seq<Line>, ks: set<string>)
    ensures Drop([x] + s, ks) == if Strip(x) in ks then Drop(s, ks) else [x] + Drop(s, ks)
  {
    assert ([x] + s)[1..] == s;
  }

  lemma {:induction false} KeepLastAppend(a: seq<Line>, b: seq<Line>)
    ensures KeepLast(a + b) == Drop(KeepLast(a), Keys(b)) + KeepLast(b)
  {
    if a == [] {
      assert a + b == b;
    } else {
      KeepLastAppend(a[1..], b);
      assert a == [a[0]] + a[1..];
      KeepLastAppendHead(a[0], a[1..], b);
    }
  }

  lemma KeepLastAppendHead(x: Line, rest: seq<Line>, b: seq<Line>)
    requires KeepLast(rest + b) == Drop(KeepLast(rest), Keys(b)) + KeepLast(b)
    ensures KeepLast([x] + rest + b) == Drop(KeepLast([x] + rest), Keys(b)) + KeepLast(b)
  {
    hide *;
    assert [x] + rest + b == [x] + (rest + b);
    KeepLastHead(x, rest + b);
    KeepLastHead(x, rest);
    KeysAppend(rest, b);
    DropHead(x, KeepLast(rest), Keys(b));
    if Strip(x) !in Keys(b) && Strip(x) !in Keys(rest) {
      var d := Drop(KeepLast(rest), Keys(b));
      assert [x] + (d + KeepLast(b)) == ([x] + d) + KeepLast(b);
    }
  }

  lemma {:induction false} DropKeepLast(s: seq<Line>, ks: set<string>)
    ensures Drop(KeepLast(s), ks) == KeepLast(Drop(s, ks))
  {
    hide Drop, KeepLast, Strip, Keys;
    if s == [] {
      NothingDropped(ks);
    } else {
      var x, t := s[0], s[1..];
      assert s == [x] + t;
      DropKeepLast(t, ks);
      KeepLastHead(x, t);
      DropHead(x, t, ks);
      DropHead(x, KeepLast(t), ks);
      KeepLastHead(x, Drop(t, ks));
      DropKeys(t, ks);
    }
  }

  lemma NothingDropped(ks: set<string>)
    ensures Drop([], ks) == [] && KeepLast([]) == []
  {}

  lemma {:induction false} FilterDistinct(s: seq<Line>, p: Line -> bool)
    requires Distinct(s)
    ensures Distinct(Filter(s, p))
  {
    if s != [] {
      FilterDistinct(s[1..], p);
      forall l | l in Filter(s[1..], p) ensures Strip(l) != Strip(s[0]) {
        FilterMember(s[1..], p, l);
        var i :| 0 <= i < |s| - 1 && s[1..][i] == l;
        assert l == s[i + 1];
      }
    }
  }

  // ---------- contents and order, for any text ----------

  function Ours(v: TableView): seq<Line> {
    Decls(v) + RuleLines(v.binary, v.rules)
  }

  function Decls(v: TableView): seq<Line> {
    WrappedDeclarations(v.binary, v.chains) + Declarations(v.unwrapped)
  }

  function Tops(v: TableView): set<string> {
    TopKeys(v.binary, v.rules)
  }

  lemma {:induction false} TopsAreOurs(binary: string, rules: seq<IptablesRule>)
    ensures TopKeys(binary, rules) <= Keys(RuleLines(binary, rules))
  {
    if rules != [] {
      var n := |rules| - 1;
      TopsAreOurs(binary, rules[..n]);
      assert RuleLines(binary, rules) == RuleLines(binary, rules[..n]) + [RuleLine(binary, rules[n])];
      KeysAppend(RuleLines(binary, rules[..n]), [RuleLine(binary, rules[n])]);
      KeysMember([RuleLine(binary, rules[n])], RuleLine(binary, rules[n]));
    }
  }

  lemma SpliceKeys(s: seq<Line>, at: nat, inserted: seq<Line>, ks: set<string>)
    ensures Keys(Splice(s, at, inserted)) == Keys(s) + Keys(inserted)
    ensures Keys(inserted) <= ks ==> Drop(Splice(s, at, inserted), ks) == Drop(s, ks)
  {
    var a, b := if at <= |s| then s[..at] else s, if at <= |s| then s[at..] else [];
    assert s == a + b && Splice(s, at, inserted) == a + inserted + b;
    hide *;
    KeysAppend(a, b);
    KeysAppend(a, inserted);
    KeysAppend(a + inserted, b);
    DropAppend(a, b, ks);
    DropAppend(a, inserted, ks);
    DropAppend(a + inserted, b, ks);
    if Keys(inserted) <= ks { DropAll(inserted, ks); }
  }

  lemma SpliceMembers(s: seq<Line>, at: nat, inserted: seq<Line>)
    ensures forall l :: l in Splice(s, at, inserted) ==> l in s || l in inserted
  {
    forall l | l in Splice(s, at, inserted) ensures l in s || l in inserted {
      if at <= |s| {
        assert l in s[..at] || l in inserted || l in s[at..];
      }
    }
  }

  lemma SplicedContents(v: TableView, kept: seq<Line>)
    ensures Keys(Spliced(v, kept)) == Keys(kept) + Keys(Ours(v))
    ensures Drop(Spliced(v, kept), Keys(Ours(v))) == Drop(kept, Keys(Ours(v)))
    ensures forall l :: l in Spliced(v, kept) ==> l in kept || l in Ours(v)
  {
    var at, ks := RulesIndex(kept), Keys(Ours(v));
    var rs, us, ws := RuleLines(v.binary, v.rules), Declarations(v.unwrapped), WrappedDeclarations(v.binary, v.chains);
    KeysAppend(ws, us);
    KeysAppend(ws + us, rs);
    TopsAreOurs(v.binary, v.rules);
    var s0 := Drop(kept, Tops(v));
    var s1 := Splice(s0, at, rs);
    var s2 := Splice(s1, at, us);
    SpliceKeys(s0, at, rs, ks);
    SpliceKeys(s1, at, us, ks);
    SpliceKeys(s2, at, ws, ks);
    SpliceMembers(s0, at, rs);
    SpliceMembers(s1, at, us);
    SpliceMembers(s2, at, ws);
    DropKeys(kept, Tops(v));
    DropDrop(kept, Tops(v), ks);
    assert Tops(v) + ks == ks;
    forall l ensures l in s0 ==> l in kept { DropMember(kept, Tops(v), l); }
  }

  /** Whatever the text: no line of the result repeats another; its lines are those
      of the input that do not mention the component, and the component's own; and
      the lines of others that the component does not also claim come in the order
      of their last occurrences. */
  lemma ModifiedContents(v: TableView, lines: seq<Line>)
    ensures Distinct(Modified(v, lines))
    ensures Keys(Modified(v, lines)) == Keys(Foreign(v.binary, lines)) + Keys(Ours(v))
    ensures forall l :: l in Modified(v, lines) ==> l in Foreign(v.binary, lines) || l in Ours(v)
    ensures Drop(Modified(v, lines), Keys(Ours(v))) == KeepLast(Drop(Foreign(v.binary, lines), Keys(Ours(v))))
  {
    var kept := Foreign(v.binary, lines);
    SplicedContents(v, kept);
    KeepLastDistinct(Spliced(v, kept));
    KeepLastMembers(Spliced(v, kept));
    DropKeepLast(Spliced(v, kept), Keys(Ours(v)));
  }

  // ---------- well-formed save text ----------

  /** `iptables-save` output: comment and table lines, chain declarations, then
      rules and the closing lines. */
  datatype Save = Save(header: seq<Line>, chains: seq<Line>, rest: seq<Line>) {
    function Text(): seq<Line> {
      header + chains + rest
    }
  }

  predicate PlainKey(l: Line) {
    !StartsWith(Strip(l), ":") && !StartsWith(Strip(l), "-")
  }

  /** Header lines are neither chain declarations nor rules; at least one chain
      and one closing line (`COMMIT`) do not mention the component. */
  ghost predicate WellFormed(binary: string, s: Save) {
    && (forall l :: l in s.header ==> PlainKey(l))
    && (forall l :: l in s.chains ==> IsChain(l))
    && (forall l :: l in s.rest ==> !StartsWith(Strip(l), ":"))
    && (exists l :: l in s.chains && !Contains(l, binary))
    && (exists l :: l in s.rest && !Contains(l, binary) && PlainKey(l))
  }

  lemma ChainKey(l: Line)
    requires IsChain(l)
    ensures StartsWith(Strip(l), ":") && !StartsWith(Strip(l), "-") && !PlainKey(l)
  {
    StripVisible(l);
  }

  lemma DeclarationLines(v: TableView)
    ensures forall l :: l in Decls(v) ==> IsChain(l) && Strip(l) == l
    ensures forall l :: l in WrappedDeclarations(v.binary, v.chains) ==> Contains(l, v.binary)
  {
    forall l | l in Decls(v) ensures IsChain(l) && Strip(l) == l { StripVisible(l); }
    forall l | l in WrappedDeclarations(v.binary, v.chains) ensures Contains(l, v.binary) {
      var i :| 0 <= i < |v.chains| && l == WrappedDeclaration(v.binary, v.chains[i]);
      ContainsMiddle(":", v.binary, "-" + v.chains[i] + " - [0:0]");
      assert l == ":" + v.binary + ("-" + v.chains[i] + " - [0:0]");
    }
  }

  lemma RuleKeys(v: TableView)
    ensures forall l :: l in RuleLines(v.binary, v.rules) ==> StartsWith(Strip(l), "-")
    ensures forall k :: k in Keys(RuleLines(v.binary, v.rules)) ==> StartsWith(k, "-")
    ensures forall k :: k in Tops(v) ==> StartsWith(k, "-")
  {
    forall l | l in RuleLines(v.binary, v.rules) ensures StartsWith(Strip(l), "-") { StripVisible(l); }
    TopsAreOurs(v.binary, v.rules);
  }

  lemma {:induction false} RunAppend(a: seq<Line>, b: seq<Line>, chains: bool)
    requires forall l :: l in a ==> IsChain(l) == chains
    requires b != [] ==> IsChain(b[0]) != chains
    ensures Run(a + b, chains) == |a|
  {
    if a == [] {
      assert a + b == b;
    } else {
      assert (a + b)[1..] == a[1..] + b;
      RunAppend(a[1..], b, chains);
    }
  }

  /** `rules_index` points just past the chain declarations. */
  lemma RulesIndexOf(header: seq<Line>, chains: seq<Line>, rest: seq<Line>)
    requires forall l :: l in header ==> !IsChain(l)
    requires chains != [] && forall l :: l in chains ==> IsChain(l)
    requires rest != [] && forall l :: l in rest ==> !IsChain(l)
    ensures RulesIndex(header + chains + rest) == |header| + |chains|
  {
    assert header + chains + rest == header + (chains + rest);
    RunAppend(header, chains + rest, false);
    assert (header + chains + rest)[|header|..] == chains + rest;
    RunAppend(chains, rest, true);
  }

  // ---------- the result on well-formed text, section by section ----------

  /** What the component leaves of a text before it adds its own lines. */
  function Trim(v: TableView, s: Save): Save {
    Save(Foreign(v.binary, s.header), Foreign(v.binary, s.chains), Drop(Foreign(v.binary, s.rest), Tops(v)))
  }

  function Built(v: TableView, t: Save): Save {
    var rs := RuleLines(v.binary, v.rules);
    Save(Drop(KeepLast(t.header), Keys(rs + t.rest)), KeepLast(t.chains + Decls(v)), KeepLast(rs + t.rest))
  }

  function Result(v: TableView, s: Save): Save {
    Built(v, Trim(v, s))
  }

  ghost predicate Trimmed(v: TableView, t: Save) {
    && (forall l :: l in t.header ==> PlainKey(l))
    && (forall l :: l in t.chains ==> IsChain(l))
    && (forall l :: l in t.rest ==> !StartsWith(Strip(l), ":"))
    && (forall l :: l in t.header + t.chains + t.rest ==> !Contains(l, v.binary))
    && (forall l :: l in t.rest ==> Strip(l) !in Tops(v))
    && t.chains != []
    && (exists l :: l in t.rest && PlainKey(l))
  }

  lemma TrimIsTrimmed(v: TableView, s: Save)
    requires WellFormed(v.binary, s)
    ensures Trimmed(v, Trim(v, s))
  {
    var t, p := Trim(v, s), (l: Line) => !Contains(l, v.binary);
    RuleKeys(v);
    forall l
      ensures l in t.header <==> l in s.header && p(l)
      ensures l in t.chains <==> l in s.chains && p(l)
      ensures l in t.rest <==> l in s.rest && p(l) && Strip(l) !in Tops(v)
    {
      FilterMember(s.header, p, l);
      FilterMember(s.chains, p, l);
      FilterMember(s.rest, p, l);
      DropMember(Foreign(v.binary, s.rest), Tops(v), l);
    }
    var c :| c in s.chains && !Contains(c, v.binary);
    assert c in t.chains;
    var l :| l in s.rest && !Contains(l, v.binary) && PlainKey(l);
    assert l in t.rest;
  }

  lemma PlainKeys(header: seq<Line>)
    requires forall l :: l in header ==> PlainKey(l)
    ensures forall k :: k in Keys(header) ==> !StartsWith(k, ":") && !StartsWith(k, "-")
  {}

  lemma ChainKeys(chains: seq<Line>)
    requires forall l :: l in chains ==> IsChain(l)
    ensures forall k :: k in Keys(chains) ==> StartsWith(k, ":")
  {
    forall l | l in chains ensures StartsWith(Strip(l), ":") { ChainKey(l); }
  }

  lemma NotChain(l: Line)
    requires !StartsWith(Strip(l), ":")
    ensures !IsChain(l)
  {
    if IsChain(l) { ChainKey(l); }
  }

  lemma SpliceAt(a: seq<Line>, b: seq<Line>, rs: seq<Line>, us: seq<Line>, ws: seq<Line>)
    ensures Splice(Splice(Splice(a + b, |a|, rs), |a|, us), |a|, ws) == a + (ws + us) + (rs + b)
  {
    assert Splice(a + b, |a|, rs) == a + (rs + b);
    assert Splice(a + (rs + b), |a|, us) == a + (us + (rs + b));
    assert Splice(a + (us + (rs + b)), |a|, ws) == a + (ws + (us + (rs + b)));
  }

  /** Taking the top rules out of the text ahead of time removes lines after the
      chain declarations only. */
  lemma DroppedSections(v: TableView, s: Save)
    requires WellFormed(v.binary, s)
    ensures var t := Trim(v, s);
      Drop(Foreign(v.binary, s.Text()), Tops(v)) == t.header + t.chains + t.rest
  {
    var b, t := v.binary, Trim(v, s);
    TrimIsTrimmed(v, s);
    FilterAppend(s.header, s.chains, l => !Contains(l, b));
    FilterAppend(s.header + s.chains, s.rest, l => !Contains(l, b));
    RuleKeys(v);
    PlainKeys(t.header);
    ChainKeys(t.chains);
    DropNone(t.header, Tops(v));
    DropNone(t.chains, Tops(v));
    DropAppend(t.header, t.chains, Tops(v));
    DropAppend(t.header + t.chains, Foreign(b, s.rest), Tops(v));
  }

  /** So `rules_index`, computed before that, still points just past them. */
  lemma IndexPastChains(v: TableView, s: Save)
    requires WellFormed(v.binary, s)
    ensures RulesIndex(Foreign(v.binary, s.Text())) == |Trim(v, s).header + Trim(v, s).chains|
  {
    var b, t := v.binary, Trim(v, s);
    var rest := Foreign(b, s.rest);
    TrimIsTrimmed(v, s);
    FilterAppend(s.header, s.chains, l => !Contains(l, b));
    FilterAppend(s.header + s.chains, s.rest, l => !Contains(l, b));
    forall l | l in t.header ensures !IsChain(l) { NotChain(l); }
    forall l | l in rest ensures !IsChain(l) { FilterMember(s.rest, x => !Contains(x, b), l); NotChain(l); }
    var last :| last in t.rest && PlainKey(last);
    DropMember(rest, Tops(v), last);
    RulesIndexOf(t.header, t.chains, rest);
  }

  lemma SplicedSections(v: TableView, s: Save)
    requires WellFormed(v.binary, s)
    ensures var t := Trim(v, s);
      Spliced(v, Foreign(v.binary, s.Text()))
        == t.header + (t.chains + Decls(v)) + (RuleLines(v.binary, v.rules) + t.rest)
  {
    var t := Trim(v, s);
    DroppedSections(v, s);
    IndexPastChains(v, s);
    SpliceAt(t.header + t.chains, t.rest, RuleLines(v.binary, v.rules),
      Declarations(v.unwrapped), WrappedDeclarations(v.binary, v.chains));
  }

  lemma ModifiedSections(v: TableView, s: Save)
    requires WellFormed(v.binary, s)
    ensures Modified(v, s.Text()) == Result(v, s).Text()
  {
    var t, rs := Trim(v, s), RuleLines(v.binary, v.rules);
    SplicedSections(v, s);
    TrimIsTrimmed(v, s);
    DeclarationLines(v);
    RuleKeys(v);
    var top, middle, bottom := t.header, t.chains + Decls(v), rs + t.rest;
    KeepLastAppend(top + middle, bottom);
    KeepLastAppend(top, middle);
    DropAppend(Drop(KeepLast(top), Keys(middle)), KeepLast(middle), Keys(bottom));
    KeepLastMembers(top);
    KeepLastMembers(middle);
    PlainKeys(top);
    ChainKeys(middle);
    KeysAppend(rs, t.rest);
    DropNone(KeepLast(top), Keys(middle));
    DropNone(KeepLast(middle), Keys(bottom));
  }

  lemma ResultWellFormed(v: TableView, s: Save)
    requires WellFormed(v.binary, s)
    ensures WellFormed(v.binary, Result(v, s))
  {
    var b, t, r, rs := v.binary, Trim(v, s), Result(v, s), RuleLines(v.binary, v.rules);
    TrimIsTrimmed(v, s);
    DeclarationLines(v);
    RuleKeys(v);
    KeepLastMembers(t.header);
    KeepLastMembers(t.chains + Decls(v));
    KeepLastMembers(rs + t.rest);
    forall l | l in r.header ensures PlainKey(l) {
      DropMember(KeepLast(t.header), Keys(rs + t.rest), l);
    }
    ForeignChainStays(v, t);
    ClosingLineStays(v, t);
  }

  lemma ForeignChainStays(v: TableView, t: Save)
    requires Trimmed(v, t)
    ensures exists l :: l in Built(v, t).chains && !Contains(l, v.binary)
  {
    var c := t.chains[0];
    var all := t.chains + Decls(v);
    KeysMember(all, c);
    KeepLastMembers(all);
    assert Strip(c) in Keys(KeepLast(all));
    var l :| l in KeepLast(all) && Strip(l) == Strip(c);
    if Contains(l, v.binary) {
      DeclarationLines(v);
      assert l in Decls(v) && Strip(l) == l;
      ContainsStripped(c, v.binary);
    }
  }

  lemma ClosingLineStays(v: TableView, t: Save)
    requires Trimmed(v, t)
    ensures exists l :: l in Built(v, t).rest && !Contains(l, v.binary) && PlainKey(l)
  {
    var all := RuleLines(v.binary, v.rules) + t.rest;
    var c :| c in t.rest && PlainKey(c);
    KeysMember(all, c);
    KeepLastMembers(all);
    assert Strip(c) in Keys(KeepLast(all));
    var l :| l in KeepLast(all) && Strip(l) == Strip(c);
    RuleKeys(v);
  }

  lemma PartsInOrder(a: seq<Line>, b: seq<Line>, p: Line -> bool, q: Line -> bool)
    requires forall l :: l in a ==> !q(l)
    requires forall l :: l in b ==> !p(l)
    ensures forall i, j :: 0 <= i < |a + b| && 0 <= j < |a + b| && p((a + b)[i]) && q((a + b)[j]) ==> i < j
  {
    forall i | |a| <= i < |a + b| ensures !p((a + b)[i]) { assert (a + b)[i] == b[i - |a|]; }
    forall j | 0 <= j < |a| ensures !q((a + b)[j]) { assert (a + b)[j] == a[j]; }
  }

  predicate DeclaresChain(l: Line) {
    StartsWith(Strip(l), ":")
  }

  predicate AddsRule(l: Line) {
    StartsWith(Strip(l), "-")
  }

  lemma HeadHasNoRules(v: TableView, s: Save)
    requires WellFormed(v.binary, s)
    ensures forall l :: l in s.header || l in s.chains ==> !AddsRule(l)
    ensures forall l :: l in s.rest ==> !DeclaresChain(l)
  {
    hide Strip;
    forall l | l in s.chains ensures !AddsRule(l) { ChainKey(l); }
  }

  /** Every chain declaration, the component's included, precedes every rule. */
  lemma DeclarationsPrecedeRules(v: TableView, s: Save)
    requires WellFormed(v.binary, s)
    ensures var out := Modified(v, s.Text());
      forall i, j :: 0 <= i < |out| && 0 <= j < |out| && DeclaresChain(out[i]) && AddsRule(out[j]) ==> i < j
  {
    var r := Result(v, s);
    ModifiedSections(v, s);
    ResultWellFormed(v, s);
    HeadHasNoRules(v, r);
    hide Modified, Result, WellFormed, Strip;
    PartsInOrder(r.header + r.chains, r.rest, DeclaresChain, AddsRule);
  }

  /** A rule of another component that is not one of the top rules as well. */
  predicate OthersRule(v: TableView, s: Save, l: Line) {
    AddsRule(l) && Strip(l) in Keys(Trim(v, s).rest)
  }

  predicate TopRule(v: TableView, l: Line) {
    Strip(l) in Tops(v)
  }

  /** The component's rule lines that the first application inserts. */
  function Inserted(v: TableView, s: Save): seq<Line> {
    var t := Trim(v, s);
    Drop(KeepLast(RuleLines(v.binary, v.rules)), Keys(t.rest))
  }

  lemma InsertedAreNotOthers(v: TableView, s: Save, l: Line)
    requires l in Inserted(v, s)
    ensures !OthersRule(v, s, l)
  {
    DropMember(KeepLast(RuleLines(v.binary, v.rules)), Keys(Trim(v, s).rest), l);
  }

  lemma RestIsNotTop(v: TableView, s: Save, l: Line)
    requires WellFormed(v.binary, s) && l in KeepLast(Trim(v, s).rest)
    ensures !TopRule(v, l)
  {
    TrimIsTrimmed(v, s);
    KeepLastMembers(Trim(v, s).rest);
  }

  lemma ResultRest(v: TableView, s: Save)
    ensures Result(v, s).rest == Inserted(v, s) + KeepLast(Trim(v, s).rest)
  {
    hide Trim, KeepLast, Drop;
    KeepLastAppend(RuleLines(v.binary, v.rules), Trim(v, s).rest);
  }

  lemma TopRulesSplit(v: TableView, s: Save) returns (a: seq<Line>, b: seq<Line>)
    requires WellFormed(v.binary, s)
    ensures Result(v, s).Text() == a + b
    ensures forall l :: l in a ==> !OthersRule(v, s, l)
    ensures forall l :: l in b ==> !TopRule(v, l)
  {
    hide WellFormed, Trim, Result, Inserted, Strip, KeepLast, TopRule, AddsRule;
    var t, r := Trim(v, s), Result(v, s);
    var first := Inserted(v, s);
    a, b := r.header + r.chains + first, KeepLast(t.rest);
    ResultRest(v, s);
    ResultWellFormed(v, s);
    HeadHasNoRules(v, r);
    forall l | l in b ensures !TopRule(v, l) { RestIsNotTop(v, s, l); }
    forall l | l in a ensures !OthersRule(v, s, l) {
      if l in first { InsertedAreNotOthers(v, s, l); }
    }
  }

  /** A top rule precedes the rules of every other component. */
  lemma TopRulesPrecedeOthers(v: TableView, s: Save)
    requires WellFormed(v.binary, s)
    ensures var out := Modified(v, s.Text());
      forall i, j :: 0 <= i < |out| && 0 <= j < |out| && TopRule(v, out[i]) && OthersRule(v, s, out[j]) ==> i < j
  {
    hide *;
    ModifiedSections(v, s);
    var a, b := TopRulesSplit(v, s);
    PartsInOrder(a, b, l => TopRule(v, l), l => OthersRule(v, s, l));
  }

  // ---------- convergence ----------

  lemma BehindSplit(c: seq<Line>, own: seq<Line>, p: Line -> bool)
    requires forall l :: l in c ==> p(l)
    ensures Filter(KeepLast(c + own), p) == Drop(KeepLast(c), Keys(own)) + Filter(KeepLast(own), p)
    ensures KeepLast(Filter(KeepLast(c + own), p)) == Filter(KeepLast(c + own), p)
  {
    var a := Drop(KeepLast(c), Keys(own));
    KeepLastAppend(c, own);
    KeepLastMembers(c);
    forall l | l in a ensures p(l) { DropMember(KeepLast(c), Keys(own), l); }
    FilterAll(a, p);
    FilterAppend(a, KeepLast(own), p);
    KeepLastDistinct(c + own);
    FilterDistinct(KeepLast(c + own), p);
    KeepLastOfDistinct(Filter(KeepLast(c + own), p));
  }

  lemma Regrow(a: seq<Line>, b: seq<Line>, own: seq<Line>)
    requires KeepLast(a + b) == a + b
    requires Drop(a, Keys(own)) == a && Drop(b, Keys(own)) == []
    ensures KeepLast(a + b + own) == a + KeepLast(own)
  {
    hide *;
    KeepLastAppend(a + b, own);
    DropAppend(a, b, Keys(own));
  }

  /** Own lines placed after: weeding the foreign part of the result again, with the
      same own lines, gives the same result. */
  lemma BehindSettles(c: seq<Line>, own: seq<Line>, p: Line -> bool)
    requires forall l :: l in c ==> p(l)
    ensures KeepLast(Filter(KeepLast(c + own), p) + own) == KeepLast(c + own)
  {
    var a := Drop(KeepLast(c), Keys(own));
    var b := Filter(KeepLast(own), p);
    assert Drop(a, Keys(own)) == a by {
      DropDrop(KeepLast(c), Keys(own), Keys(own));
      assert Keys(own) + Keys(own) == Keys(own);
    }
    assert Drop(b, Keys(own)) == [] by {
      KeepLastMembers(own);
      forall l | l in b ensures l in own { FilterMember(KeepLast(own), p, l); }
      DropAll(b, Keys(own));
    }
    BehindSplit(c, own, p);
    KeepLastAppend(c, own);
    Regrow(a, b, own);
  }

  lemma DistinctMember(s: seq<Line>, a: Line, b: Line)
    requires Distinct(s) && a in s && b in s && Strip(a) == Strip(b)
    ensures a == b
  {}

  /** Own lines placed in front: those that are not swept away next time (`p`) end
      up behind the others. */
  lemma InFrontSettles(own: seq<Line>, u: seq<Line>, p: Line -> bool)
    requires forall l :: l in u ==> p(l)
    ensures var first := Drop(KeepLast(own), Keys(u));
      && KeepLast(own + u) == first + KeepLast(u)
      && Filter(KeepLast(own + u), p) == Filter(first, p) + KeepLast(u)
      && KeepLast(own + Filter(KeepLast(own + u), p)) == Filter(first, l => !p(l)) + Filter(first, p) + KeepLast(u)
  {
    var first := Drop(KeepLast(own), Keys(u));
    var stay := Filter(first, p);
    KeepLastAppend(own, u);
    KeepLastMembers(u);
    FilterAll(KeepLast(u), p);
    FilterAppend(first, KeepLast(u), p);
    var next := stay + KeepLast(u);
    KeepLastDistinct(own + u);
    FilterDistinct(KeepLast(own + u), p);
    KeepLastOfDistinct(next);
    KeepLastAppend(own, next);
    KeysAppend(stay, KeepLast(u));
    assert Keys(next) == Keys(u) + Keys(stay);
    DropDrop(KeepLast(own), Keys(u), Keys(stay));
    KeepLastDistinct(own);
    FilterDistinct(KeepLast(own), l => Strip(l) !in Keys(u));
    forall l | l in first ensures Strip(l) in Keys(stay) <==> p(l) {
      FilterMember(first, p, l);
      if Strip(l) in Keys(stay) {
        var m :| m in stay && Strip(m) == Strip(l);
        FilterMember(first, p, m);
        DistinctMember(first, l, m);
      }
    }
    FilterSame(first, l => Strip(l) !in Keys(stay), l => !p(l));
  }

  /** The lines of a text that neither mention the component nor are swept away
      because a top rule repeats them. */
  lemma ForeignDrop(v: TableView, s: seq<Line>, p: Line -> bool)
    requires forall l :: p(l) <==> !Contains(l, v.binary) && Strip(l) !in Tops(v)
    ensures Drop(Foreign(v.binary, s), Tops(v)) == Filter(s, p)
  {
    FilterFilter(s, l => !Contains(l, v.binary), l => Strip(l) !in Tops(v), p);
  }

  lemma TrimsSettle(v: TableView, s: Save)
    requires WellFormed(v.binary, s)
    ensures Trim(v, Result(v, Result(v, s))) == Trim(v, Result(v, s))
  {
    var t := Trim(v, s);
    TrimIsTrimmed(v, s);
    RestSettles(v, t);
    BehindSettles(t.chains, Decls(v), l => !Contains(l, v.binary));
    HeaderSettles(v, t);
  }

  lemma HeaderSettles(v: TableView, t: Save)
    requires Trimmed(v, t)
    ensures var t1 := Trim(v, Built(v, t));
      Built(v, t1).header == Built(v, t).header
  {
    var rs, r := RuleLines(v.binary, v.rules), Built(v, t);
    var t1 := Trim(v, r);
    KeepLastMembers(t.header);
    forall l | l in r.header ensures !Contains(l, v.binary) { DropMember(KeepLast(t.header), Keys(rs + t.rest), l); }
    FilterAll(r.header, l => !Contains(l, v.binary));
    KeepLastDistinct(t.header);
    FilterDistinct(KeepLast(t.header), l => Strip(l) !in Keys(rs + t.rest));
    KeepLastOfDistinct(r.header);
    DropKeys(KeepLast(t.header), Keys(rs + t.rest));
    forall k | k in Keys(rs + t1.rest) ensures k in Keys(rs + t.rest) {
      KeysAppend(rs, t1.rest);
      KeysAppend(rs, t.rest);
      KeepLastMembers(rs + t.rest);
      if k in Keys(t1.rest) {
        var l :| l in t1.rest && Strip(l) == k;
        DropMember(Foreign(v.binary, r.rest), Tops(v), l);
        FilterMember(r.rest, x => !Contains(x, v.binary), l);
      }
    }
    DropNone(r.header, Keys(rs + t1.rest));
  }

  lemma FilterRejoin(first: seq<Line>, next: seq<Line>, p: Line -> bool)
    requires forall l :: l in next ==> p(l)
    ensures Filter(Filter(first, l => !p(l)) + next, p) == next
  {
    var gone := Filter(first, l => !p(l));
    FilterAppend(gone, next, p);
    FilterFilter(first, l => !p(l), p, l => false);
    FilterNone(first);
    FilterAll(next, p);
  }

  lemma InFrontAgain(own: seq<Line>, u: seq<Line>, p: Line -> bool)
    requires forall l :: l in u ==> p(l)
    ensures var next := Filter(KeepLast(own + u), p); Filter(KeepLast(own + next), p) == next
  {
    var first := Drop(KeepLast(own), Keys(u));
    var next := Filter(KeepLast(own + u), p);
    hide *;
    InFrontSettles(own, u, p);
    assert KeepLast(own + next) == Filter(first, l => !p(l)) + next;
    FilterMembersHold(KeepLast(own + u), p);
    FilterRejoin(first, next, p);
  }

  lemma RestSettles(v: TableView, t: Save)
    requires Trimmed(v, t)
    ensures var t1 := Trim(v, Built(v, t));
      Trim(v, Built(v, t1)).rest == t1.rest
  {
    var p := (l: Line) => !Contains(l, v.binary) && Strip(l) !in Tops(v);
    ForeignDrop(v, Built(v, t).rest, p);
    ForeignDrop(v, Built(v, Trim(v, Built(v, t))).rest, p);
    InFrontAgain(RuleLines(v.binary, v.rules), t.rest, p);
  }

  lemma {:induction false} FilterNone(s: seq<Line>)
    ensures Filter(s, l => false) == []
  {
    if s != [] { FilterNone(s[1..]); }
  }

  /** Applied three times to well-formed text, `_modify_rules` returns what it
      returned the second time. */
  lemma ThreeTimesIsTwice(v: TableView, s: Save)
    requires WellFormed(v.binary, s)
    ensures var twice := Modified(v, Modified(v, s.Text())); Modified(v, twice) == twice
  {
    var r := Result(v, s);
    var r2 := Result(v, r);
    ResultWellFormed(v, s);
    ResultWellFormed(v, r);
    ModifiedSections(v, s);
    ModifiedSections(v, r);
    ModifiedSections(v, r2);
    TrimsSettle(v, s);
  }

  /** A rule line that a later application does not recognise as its own. */
  predicate Unclaimed(v: TableView, l: Line) {
    !Contains(l, v.binary) && Strip(l) !in Tops(v)
  }

  lemma {:induction false} PartitionIf(s: seq<Line>, p: Line -> bool)
    requires forall i, j :: 0 <= i < j < |s| && p(s[i]) ==> p(s[j])
    ensures Filter(s, l => !p(l)) + Filter(s, p) == s
  {
    if s != [] {
      if p(s[0]) {
        FilterAll(s, p);
        NoneFails(s, p);
      } else {
        PartitionIf(s[1..], p);
        assert s == [s[0]] + s[1..];
      }
    }
  }

  lemma HalvesInOrder(no: seq<Line>, yes: seq<Line>, p: Line -> bool)
    requires forall l :: l in no ==> !p(l)
    requires forall l :: l in yes ==> p(l)
    ensures forall i, j :: 0 <= i < j < |no + yes| && p((no + yes)[i]) ==> p((no + yes)[j])
  {
    forall i | 0 <= i < |no| ensures !p((no + yes)[i]) { assert (no + yes)[i] == no[i]; }
    forall j | |no| <= j < |no + yes| ensures p((no + yes)[j]) { assert (no + yes)[j] == yes[j - |no|]; }
  }

  lemma PartitionOnlyIf(s: seq<Line>, p: Line -> bool)
    requires Filter(s, l => !p(l)) + Filter(s, p) == s
    ensures forall i, j :: 0 <= i < j < |s| && p(s[i]) ==> p(s[j])
  {
    hide Filter;
    FilterMembersHold(s, p);
    FilterMembersHold(s, l => !p(l));
    HalvesInOrder(Filter(s, l => !p(l)), Filter(s, p), p);
  }

  lemma FilterMembersHold(s: seq<Line>, p: Line -> bool)
    ensures forall l :: l in Filter(s, p) ==> p(l)
  {
    forall l | l in Filter(s, p) ensures p(l) { FilterMember(s, p, l); }
  }

  lemma NoneFails(s: seq<Line>, p: Line -> bool)
    requires forall l :: l in s ==> p(l)
    ensures Filter(s, l => !p(l)) == []
  {
    if Filter(s, l => !p(l)) != [] {
      FilterMember(s, l => !p(l), Filter(s, l => !p(l))[0]);
    }
  }

  lemma SecondRound(v: TableView, s: Save)
    requires WellFormed(v.binary, s)
    ensures var r, first, p := Result(v, s), Inserted(v, s), (l: Line) => Unclaimed(v, l);
      var r2 := Result(v, r);
      && r2.header == r.header && r2.chains == r.chains
      && r.rest == first + KeepLast(Trim(v, s).rest)
      && r2.rest == Filter(first, l => !p(l)) + Filter(first, p) + KeepLast(Trim(v, s).rest)
  {
    var t, p := Trim(v, s), (l: Line) => Unclaimed(v, l);
    TrimIsTrimmed(v, s);
    HeaderSettles(v, t);
    BehindSettles(t.chains, Decls(v), l => !Contains(l, v.binary));
    ForeignDrop(v, Built(v, t).rest, p);
    InFrontSettles(RuleLines(v.binary, v.rules), t.rest, p);
  }

  /** Twice is once exactly when, among the rule lines inserted the first time, no
      unclaimed one stands before a claimed one. */
  lemma TwiceIsOnceIff(v: TableView, s: Save)
    requires WellFormed(v.binary, s)
    ensures var first := Inserted(v, s);
      Modified(v, Modified(v, s.Text())) == Modified(v, s.Text()) <==>
        forall i, j :: 0 <= i < j < |first| && Unclaimed(v, first[i]) ==> Unclaimed(v, first[j])
  {
    hide *;
    var r, first, p := Result(v, s), Inserted(v, s), (l: Line) => Unclaimed(v, l);
    ResultWellFormed(v, s);
    ModifiedSections(v, s);
    ModifiedSections(v, r);
    SecondRound(v, s);
    TextIff(r, Result(v, r));
    SuffixIff(first, Filter(first, l => !p(l)) + Filter(first, p), KeepLast(Trim(v, s).rest));
    UnclaimedLastIff(v, first);
  }

  lemma UnclaimedLastIff(v: TableView, first: seq<Line>)
    ensures var p := (l: Line) => Unclaimed(v, l);
      Filter(first, l => !p(l)) + Filter(first, p) == first <==>
        forall i, j :: 0 <= i < j < |first| && Unclaimed(v, first[i]) ==> Unclaimed(v, first[j])
  {
    hide Filter, Unclaimed;
    PartitionIff(first, l => Unclaimed(v, l));
  }

  lemma PartitionIff(s: seq<Line>, p: Line -> bool)
    ensures Filter(s, l => !p(l)) + Filter(s, p) == s <==> forall i, j :: 0 <= i < j < |s| && p(s[i]) ==> p(s[j])
  {
    hide Filter;
    if forall i, j :: 0 <= i < j < |s| && p(s[i]) ==> p(s[j]) { PartitionIf(s, p); }
    if Filter(s, l => !p(l)) + Filter(s, p) == s { PartitionOnlyIf(s, p); }
  }

  lemma SuffixIff(a: seq<Line>, b: seq<Line>, c: seq<Line>)
    ensures a + c == b + c <==> a == b
  {
    if a + c == b + c {
      assert |a| == |b|;
      assert a == (a + c)[..|a|];
      assert b == (b + c)[..|b|];
    }
  }

  lemma TextIff(r: Save, r2: Save)
    requires r2.header == r.header && r2.chains == r.chains
    ensures r.Text() == r2.Text() <==> r.rest == r2.rest
  {
    if r.Text() == r2.Text() {
      var n := |r.header + r.chains|;
      assert r.rest == r.Text()[n..];
      assert r2.rest == r2.Text()[n..];
    }
  }

  /** In particular when every rule is a top rule or its printed line mentions the
      component. */
  lemma ClaimedSettlesAtOnce(v: TableView, s: Save)
    requires WellFormed(v.binary, s)
    requires forall r :: r in v.rules ==> r.top || Contains(RuleLine(v.binary, r), v.binary)
    ensures Modified(v, Modified(v, s.Text())) == Modified(v, s.Text())
  {
    var first, rs := Inserted(v, s), RuleLines(v.binary, v.rules);
    forall l | l in first ensures !Unclaimed(v, l) {
      DropMember(KeepLast(rs), Keys(Trim(v, s).rest), l);
      KeepLastMembers(rs);
      var i :| 0 <= i < |rs| && l == rs[i];
      if v.rules[i].top { TopKey(v.binary, v.rules, i); }
    }
    TwiceIsOnceIff(v, s);
  }

  lemma {:induction false} TopKey(binary: string, rules: seq<IptablesRule>, i: nat)
    requires i < |rules| && rules[i].top
    ensures Strip(RuleLine(binary, rules[i])) in TopKeys(binary, rules)
  {
    if i < |rules| - 1 { TopKey(binary, rules[..|rules| - 1], i); }
  }

  lemma ContainsHead(s: string, sub: string)
    requires Contains(s, sub) && sub != []
    ensures sub[0] in s
  {
    var i :| 0 <= i <= |s| - |sub| && OccursAt(s, sub, i);
    assert s[i] == s[i..i + |sub|][0];
  }

  lemma NotContains(s: string, sub: string)
    requires sub != [] && sub[0] !in s
    ensures !Contains(s, sub)
  {
    if Contains(s, sub) { ContainsHead(s, sub); }
  }

  /** Text and rules for which twice is not once: an unwrapped rule that does not
      mention the component, added before a wrapped one. */
  lemma TwiceIsNotAlwaysOnce(v: TableView, s: Save)
    requires v == TableView("nova", ["local"], [],
      [IptablesRule("OUTPUT", "-j A", false, false), IptablesRule("local", "-j B", true, false)])
    requires s == Save(["*filter"], [":OUTPUT A"], ["COMMIT"])
    ensures WellFormed(v.binary, s)
    ensures Modified(v, Modified(v, s.Text())) != Modified(v, s.Text())
  {
    var plain, own := RuleLine("nova", v.rules[0]), RuleLine("nova", v.rules[1]);
    hide *;
    SampleTable(v);
    SampleLines(plain, own);
    SampleWellFormed(s);
    WrappedMentions("nova", v.rules[1]);
    RestKeys(v, s);
    TwoLines(v, s, plain, own);
    assert Inserted(v, s)[0] == plain && Inserted(v, s)[1] == own;
    TwiceIsOnceIff(v, s);
  }

  lemma SampleTable(v: TableView)
    requires v.binary == "nova" && |v.rules| == 2 && !v.rules[0].top && !v.rules[1].top
    ensures RuleLines(v.binary, v.rules) == [RuleLine("nova", v.rules[0]), RuleLine("nova", v.rules[1])]
    ensures Tops(v) == {}
  {
    hide RuleLine, Strip;
    assert TopKeys(v.binary, v.rules[..1][..0]) == {};
    assert TopKeys(v.binary, v.rules[..1]) == {};
  }

  lemma SampleWellFormed(s: Save)
    requires s == Save(["*filter"], [":OUTPUT A"], ["COMMIT"])
    ensures WellFormed("nova", s) && Keys(s.rest) == {"COMMIT"}
  {
    hide Strip, Contains, PlainKey;
    assert s.chains[0] in s.chains && s.rest[0] in s.rest;
    StripVisible("COMMIT");
    PlainLines();
  }

  lemma PlainLines()
    ensures PlainKey("*filter") && PlainKey("COMMIT") && !StartsWith(Strip("COMMIT"), ":")
    ensures !Contains(":OUTPUT A", "nova") && !Contains("COMMIT", "nova")
  {
    hide Strip, Contains;
    StripVisible("COMMIT");
    StripVisible("*filter");
    NotContains(":OUTPUT A", "nova");
    NotContains("COMMIT", "nova");
  }

  lemma SampleLines(plain: Line, own: Line)
    requires plain == RuleLine("nova", IptablesRule("OUTPUT", "-j A", false, false))
    requires own == RuleLine("nova", IptablesRule("local", "-j B", true, false))
    ensures Strip(plain) == plain != own == Strip(own)
    ensures plain != "COMMIT" && own != "COMMIT"
    ensures !Contains(plain, "nova")
  {
    hide Strip, Contains;
    assert plain[3] == 'O' && own[3] == 'n';
    StripVisible(plain);
    StripVisible(own);
    NotContains(plain, "nova");
  }

  /** A wrapped rule is always recognised as the component's own. */
  lemma WrappedMentions(binary: string, r: IptablesRule)
    requires r.wrap
    ensures Contains(RuleLine(binary, r), binary)
  {
    var tail := "-" + r.chain;
    assert binary + "-" + r.chain == binary + tail;
    assert "-A " + (binary + tail) == "-A " + binary + tail;
    assert RuleLine(binary, r) == "-A " + binary + tail + " " + r.rule;
    assert "-A " + binary + tail + " " + r.rule == "-A " + binary + (tail + " " + r.rule);
    ContainsMiddle("-A ", binary, tail + " " + r.rule);
  }

  lemma RestKeys(v: TableView, s: Save)
    ensures Keys(Trim(v, s).rest) <= Keys(s.rest)
  {
    forall l | l in Trim(v, s).rest ensures l in s.rest {
      DropMember(Foreign(v.binary, s.rest), Tops(v), l);
      FilterMember(s.rest, x => !Contains(x, v.binary), l);
    }
  }

  lemma TwoLines(v: TableView, s: Save, plain: Line, own: Line)
    requires RuleLines(v.binary, v.rules) == [plain, own]
    requires Strip(plain) != Strip(own)
    requires Tops(v) !! {Strip(plain), Strip(own)}
    requires Keys(Trim(v, s).rest) !! {Strip(plain), Strip(own)}
    ensures Inserted(v, s) == [plain, own]
    ensures Contains(own, v.binary) ==> !Unclaimed(v, own)
    ensures !Contains(plain, v.binary) ==> Unclaimed(v, plain)
  {
    assert [plain, own][1..] == [own];
    assert Keys([own]) == {Strip(own)};
    assert KeepLast([own]) == [own];
    assert KeepLast([plain, own]) == [plain, own];
    KeysAppend([plain], [own]);
    assert Keys([plain]) == {Strip(plain)};
    DropNone([plain, own], Keys(Trim(v, s).rest));
  }
}
