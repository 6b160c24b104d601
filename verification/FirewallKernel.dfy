/** The kernel's rule tables, and what the `iptables` Puppet resource type makes of
    them: `finalize` drives them to the lists of rules declared by the resources.

    A kernel table maps each of its chains to a list of rules. Rules are opaque
    texts that carry the chain they belong to. `iptables-save` prints a table by
    concatenating its chains in a fixed order. */
module FirewallKernel {
  import opened Lists

  /** The four tables, in the order `@@table_counters` lists them: filter, nat,
      mangle, raw. A table is referred to by its position in this list. */
  const N: nat := 4

  type Chain = string

  datatype Rule = Rule(chain: Chain, spec: string)

  type Chains = map<Chain, seq<Rule>>

  type Kernel = s: seq<Chains> | |s| == N witness [map[], map[], map[], map[]]

  /** The rules declared for a table; a table without any resource is absent. */
  type Resources = s: seq<Declaration> | |s| == N witness [Undeclared, Undeclared, Undeclared, Undeclared]

  datatype Declaration = Undeclared | Declared(rules: seq<Rule>)

  /** The order in which the chains of each table are printed. */
  type Layout = s: seq<seq<Chain>> | |s| == N witness [[], [], [], []]

  type Printed = s: seq<seq<Rule>> | |s| == N witness [[], [], [], []]

  /** The three shapes of `iptables` command the resource type runs. */
  datatype Command =
    | AddRule(table: nat, rule: Rule)
    | DeleteRule(table: nat, rule: Rule)
    | DeleteFirst(table: nat, chain: Chain)

  // ---------- the kernel's side ----------

  /** `iptables -A`: a rule for a chain the table lacks is rejected. */
  function Append(ts: Chains, r: Rule): Chains {
    if r.chain in ts then ts[r.chain := ts[r.chain] + [r]] else ts
  }

  /** `iptables -D` with a specification: the first equal rule goes. */
  function Delete(ts: Chains, r: Rule): Chains {
    if r.chain in ts then ts[r.chain := RemoveFirst(ts[r.chain], r)] else ts
  }

  /** `iptables -D chain 1`. */
  function DeleteHead(ts: Chains, c: Chain): Chains {
    if c in ts && ts[c] != [] then ts[c := ts[c][1..]] else ts
  }

  function ChainOf(ts: Chains, c: Chain): seq<Rule> {
    if c in ts then ts[c] else []
  }

  /** The rule lines of one table in `iptables-save` output. */
  function Print(order: seq<Chain>, ts: Chains): seq<Rule> {
    if order == [] then [] else ChainOf(ts, order[0]) + Print(order[1..], ts)
  }

  ghost predicate WellChained(order: seq<Chain>, ts: Chains) {
    && (forall i, j :: 0 <= i < j < |order| ==> order[i] != order[j])
    && (forall c :: c in order <==> c in ts)
    && (forall c :: c in ts ==> RulesOf(ts[c], c))
  }

  ghost predicate RulesOf(s: seq<Rule>, c: Chain) {
    forall r :: r in s ==> r.chain == c
  }

  ghost predicate ValidKernel(layout: Layout, kernel: Kernel) {
    forall t :: 0 <= t < N ==> WellChained(layout[t], kernel[t])
  }

  // ---------- what the run amounts to ----------

  function Wanted(rules: Resources, t: nat): seq<Rule>
    requires t < N
  {
    if rules[t].Declared? then rules[t].rules else []
  }

  function Only(s: seq<Rule>, d: seq<Rule>): seq<Rule> {
    Filter(s, r => r in d)
  }

  function Stale(s: seq<Rule>, d: seq<Rule>): seq<Rule> {
    Filter(s, r => r !in d)
  }

  function OfChain(s: seq<Rule>, c: Chain): seq<Rule> {
    Filter(s, (r: Rule) => r.chain == c)
  }

  /** Every chain keeps its declared rules, in place. */
  function Kept(ts: Chains, d: seq<Rule>): Chains {
    map c | c in ts :: Only(ts[c], d)
  }

  /** Every chain holds its declared rules in the order of declaration. */
  function Regrouped(ts: Chains, d: seq<Rule>): Chains {
    map c | c in ts :: OfChain(d, c)
  }

  function AfterDeletes(kernel: Kernel, rules: Resources): Kernel {
    seq(N, t requires 0 <= t < N => Kept(kernel[t], Wanted(rules, t)))
  }

  function Reloaded(kernel: Kernel, rules: Resources): Kernel {
    seq(N, t requires 0 <= t < N => Regrouped(kernel[t], Wanted(rules, t)))
  }

  /** The numbered comparison: the n-th declared rule must be the n-th printed
      one; printed rules beyond the declared ones are not looked at. */
  predicate Differs(layout: Layout, kernel: Kernel, rules: Resources) {
    exists t :: 0 <= t < N && rules[t].Declared? && !(rules[t].rules <= Print(layout[t], kernel[t]))
  }

  function FinalKernel(layout: Layout, kernel: Kernel, rules: Resources): Kernel {
    if Differs(layout, AfterDeletes(kernel, rules), rules)
    then Reloaded(kernel, rules)
    else AfterDeletes(kernel, rules)
  }

  /** The copies of undeclared rules in one table, and its undeclared lines. */
  function StaleIn(layout: Layout, kernel: Kernel, rules: Resources, t: nat): nat
    requires t < N
  {
    |Stale(Print(layout[t], kernel[t]), Wanted(rules, t))|
  }

  function LinesIn(layout: Layout, kernel: Kernel, rules: Resources, t: nat): nat
    requires t < N
  {
    |Stale(Lines(Print(layout[t], kernel[t])), Wanted(rules, t))|
  }

  function Sum(s: seq<nat>): nat {
    if s == [] then 0 else Sum(s[..|s| - 1]) + s[|s| - 1]
  }

  type Counts = s: seq<nat> | |s| == N witness [0, 0, 0, 0]

  function StaleCounts(layout: Layout, kernel: Kernel, rules: Resources): Counts {
    seq(N, t requires 0 <= t < N => StaleIn(layout, kernel, rules, t))
  }

  function LineCounts(layout: Layout, kernel: Kernel, rules: Resources): Counts {
    seq(N, t requires 0 <= t < N => LinesIn(layout, kernel, rules, t))
  }

  function WantedCounts(rules: Resources): Counts {
    seq(N, t requires 0 <= t < N => |Wanted(rules, t)|)
  }

  function Lengths(printed: Printed): Counts {
    seq(N, t requires 0 <= t < N => |printed[t]|)
  }

  function PrintedCounts(layout: Layout, kernel: Kernel): Counts {
    seq(N, t requires 0 <= t < N => |Print(layout[t], kernel[t])|)
  }

  /** The number of commands a run outside noop mode issues: one per copy of an
      undeclared rule, and on a reload one per declared and per kept rule. */
  function CommandCount(layout: Layout, kernel: Kernel, rules: Resources): nat {
    var kept := AfterDeletes(kernel, rules);
    Sum(StaleCounts(layout, kernel, rules))
    + if Differs(layout, kept, rules) then Sum(WantedCounts(rules)) + Sum(PrintedCounts(layout, kept)) else 0
  }

  // ---------- one pass of deletions ----------

  /** The keys of the unnumbered hash of current rules: duplicates collapse. */
  function Lines(s: seq<Rule>): seq<Rule> {
    if s == [] then []
    else
      var before := Lines(s[..|s| - 1]);
      if s[|s| - 1] in before then before else before + [s[|s| - 1]]
  }

  lemma {:induction false} LinesOf(s: seq<Rule>)
    ensures forall x :: x in Lines(s) <==> x in s
    ensures forall i, j :: 0 <= i < j < |Lines(s)| ==> Lines(s)[i] != Lines(s)[j]
  {
    if s != [] {
      LinesOf(s[..|s| - 1]);
      assert s == s[..|s| - 1] + [s[|s| - 1]];
    }
  }

  /** One table after one pass: one copy of each undeclared line is deleted. */
  function Purged(ts: Chains, lines: seq<Rule>, d: seq<Rule>): Chains {
    if lines == [] then ts
    else
      var before := Purged(ts, lines[..|lines| - 1], d);
      if lines[|lines| - 1] in d then before else Delete(before, lines[|lines| - 1])
  }

  function Passed(layout: Layout, kernel: Kernel, rules: Resources, t: nat): Chains
    requires t < N
  {
    Purged(kernel[t], Lines(Print(layout[t], kernel[t])), Wanted(rules, t))
  }

  lemma {:induction false} PrintUpdate(order: seq<Chain>, ts: Chains, c: Chain, s: seq<Rule>, d: seq<Rule>)
    requires forall i, j :: 0 <= i < j < |order| ==> order[i] != order[j]
    requires c in ts
    ensures c !in order ==> Print(order, ts[c := s]) == Print(order, ts)
    ensures c in order ==>
      |Stale(Print(order, ts[c := s]), d)| + |Stale(ts[c], d)| == |Stale(Print(order, ts), d)| + |Stale(s, d)|
  {
    if order != [] {
      var rest := order[1..];
      PrintUpdate(rest, ts, c, s, d);
      FilterAppend(ChainOf(ts, order[0]), Print(rest, ts), r => r !in d);
      FilterAppend(ChainOf(ts[c := s], order[0]), Print(rest, ts[c := s]), r => r !in d);
      assert order[0] == c ==> c !in rest;
    }
  }

  lemma {:induction false} PrintMember(order: seq<Chain>, ts: Chains, r: Rule)
    ensures r in Print(order, ts) <==> exists c :: c in order && r in ChainOf(ts, c)
  {
    if order != [] {
      PrintMember(order[1..], ts, r);
      assert order == [order[0]] + order[1..];
    }
  }

  lemma {:induction false} RemoveFirstLength(s: seq<Rule>, r: Rule)
    requires r in s
    ensures |RemoveFirst(s, r)| == |s| - 1
  {
    if s[0] != r { RemoveFirstLength(s[1..], r); }
  }

  ghost predicate Holds(ts: Chains, r: Rule) {
    r.chain in ts && r in ts[r.chain]
  }

  lemma DeleteKeepsShape(order: seq<Chain>, ts: Chains, r: Rule, q: Rule)
    requires WellChained(order, ts) && Holds(ts, r)
    ensures WellChained(order, Delete(ts, r))
    ensures q != r && Holds(ts, q) ==> Holds(Delete(ts, r), q)
  {
    RemoveFirstMembers(ts[r.chain], r);
  }

  /** Deleting an undeclared rule of the table keeps every declared rule in place
      and takes one rule off the undeclared ones. */
  lemma DeleteStep(order: seq<Chain>, ts: Chains, r: Rule, d: seq<Rule>)
    requires WellChained(order, ts) && r !in d && Holds(ts, r)
    ensures Kept(Delete(ts, r), d) == Kept(ts, d)
    ensures |Stale(Print(order, Delete(ts, r)), d)| == |Stale(Print(order, ts), d)| - 1
  {
    var c := r.chain;
    var s := RemoveFirst(ts[c], r);
    assert Only(s, d) == Only(ts[c], d) by {
      RemoveFirstFilter(ts[c], r, q => q in d);
    }
    assert |Stale(s, d)| == |Stale(ts[c], d)| - 1 by {
      RemoveFirstFilter(ts[c], r, q => q !in d);
      FilterMember(ts[c], q => q !in d, r);
      RemoveFirstLength(Stale(ts[c], d), r);
    }
    PrintUpdate(order, ts, c, s, d);
  }

  lemma {:induction false} PurgeProgress(order: seq<Chain>, ts: Chains, lines: seq<Rule>, d: seq<Rule>)
    requires WellChained(order, ts)
    requires forall i, j :: 0 <= i < j < |lines| ==> lines[i] != lines[j]
    requires forall r :: r in lines ==> Holds(ts, r)
    ensures WellChained(order, Purged(ts, lines, d))
    ensures Kept(Purged(ts, lines, d), d) == Kept(ts, d)
    ensures |Stale(Print(order, Purged(ts, lines, d)), d)| == |Stale(Print(order, ts), d)| - |Stale(lines, d)|
    ensures forall q :: q !in lines && Holds(ts, q) ==> Holds(Purged(ts, lines, d), q)
  {
    if lines != [] {
      var n := |lines| - 1;
      var init, r := lines[..n], lines[n];
      PurgeProgress(order, ts, init, d);
      assert lines == init + [r];
      FilterAppend(init, [r], q => q !in d);
      if r !in d {
        var before := Purged(ts, init, d);
        assert Holds(before, r);
        DeleteStep(order, before, r, d);
        forall q | q !in lines && Holds(ts, q) ensures Holds(Delete(before, r), q) {
          assert Holds(before, q);
          DeleteKeepsShape(order, before, r, q);
        }
        DeleteKeepsShape(order, before, r, r);
      }
    }
  }

  lemma {:induction false} NoneStale(s: seq<Rule>, d: seq<Rule>)
    requires forall r :: r in s ==> r in d
    ensures Stale(s, d) == [] && Only(s, d) == s
  {
    if s != [] { NoneStale(s[1..], d); }
  }

  lemma AllDeclared(s: seq<Rule>, d: seq<Rule>)
    requires Stale(s, d) == []
    ensures forall r :: r in s ==> r in d
  {
    forall r | r in s ensures r in d { FilterMember(s, q => q !in d, r); }
  }

  lemma KeptWhenNoneStale(order: seq<Chain>, ts: Chains, d: seq<Rule>)
    requires WellChained(order, ts)
    requires forall r :: r in Print(order, ts) ==> r in d
    ensures ts == Kept(ts, d)
  {
    forall c | c in ts ensures Only(ts[c], d) == ts[c] {
      forall r | r in ts[c] ensures r in d { PrintMember(order, ts, r); }
      NoneStale(ts[c], d);
    }
  }

  /** One pass on a whole table, on the lines that the table itself prints: the
      undeclared rules become fewer by the number of commands, and a pass that
      finds nothing to delete has found a table of declared rules only. */
  lemma PassProgress(order: seq<Chain>, ts: Chains, d: seq<Rule>)
    requires WellChained(order, ts)
    ensures var lines := Lines(Print(order, ts)); var after := Purged(ts, lines, d);
      && WellChained(order, after)
      && Kept(after, d) == Kept(ts, d)
      && |Stale(Print(order, after), d)| == |Stale(Print(order, ts), d)| - |Stale(lines, d)|
      && (Stale(lines, d) == [] ==> after == Kept(after, d) && Stale(Print(order, ts), d) == [])
  {
    var lines := Lines(Print(order, ts));
    LinesOf(Print(order, ts));
    forall r | r in lines ensures Holds(ts, r) {
      PrintMember(order, ts, r);
    }
    PurgeProgress(order, ts, lines, d);
    if Stale(lines, d) == [] {
      AllDeclared(lines, d);
      NoneStale(Print(order, ts), d);
      AllDeclared(Print(order, Purged(ts, lines, d)), d);
      KeptWhenNoneStale(order, Purged(ts, lines, d), d);
    }
  }

  // ---------- the reload ----------

  function Appended(ts: Chains, d: seq<Rule>): (r: Chains)
    ensures r.Keys == ts.Keys
  {
    if d == [] then ts else Append(Appended(ts, d[..|d| - 1]), d[|d| - 1])
  }

  /** One `-D chain 1` for each rule that was printed before the reload. */
  function Beheaded(ts: Chains, printed: seq<Rule>): (r: Chains)
    ensures r.Keys == ts.Keys
  {
    if printed == [] then ts
    else DeleteHead(Beheaded(ts, printed[..|printed| - 1]), printed[|printed| - 1].chain)
  }

  lemma {:induction false} AppendedChain(ts: Chains, d: seq<Rule>, c: Chain)
    requires c in ts
    ensures Appended(ts, d)[c] == ts[c] + OfChain(d, c)
  {
    if d != [] {
      var init, r := d[..|d| - 1], d[|d| - 1];
      AppendedChain(ts, init, c);
      assert d == init + [r];
      FilterAppend(init, [r], (q: Rule) => q.chain == c);
    }
  }

  lemma {:induction false} BeheadedChain(ts: Chains, printed: seq<Rule>, c: Chain)
    requires c in ts && |OfChain(printed, c)| <= |ts[c]|
    ensures Beheaded(ts, printed)[c] == ts[c][|OfChain(printed, c)|..]
  {
    if printed != [] {
      var init, r := printed[..|printed| - 1], printed[|printed| - 1];
      assert printed == init + [r];
      FilterAppend(init, [r], (q: Rule) => q.chain == c);
      BeheadedChain(ts, init, c);
    }
  }

  lemma {:induction false} PrintedChain(order: seq<Chain>, ts: Chains, c: Chain)
    requires forall i, j :: 0 <= i < j < |order| ==> order[i] != order[j]
    requires forall k :: k in ts ==> RulesOf(ts[k], k)
    ensures OfChain(Print(order, ts), c) == if c in order then ChainOf(ts, c) else []
  {
    if order != [] {
      var rest := order[1..];
      PrintedChain(rest, ts, c);
      FilterAppend(ChainOf(ts, order[0]), Print(rest, ts), (q: Rule) => q.chain == c);
      assert RulesOf(ChainOf(ts, order[0]), order[0]);
      if order[0] == c {
        assert c !in rest;
        FilterAll(ChainOf(ts, c), (q: Rule) => q.chain == c);
      } else {
        NoneOfChain(ChainOf(ts, order[0]), c);
      }
    }
  }

  lemma {:induction false} NoneOfChain(s: seq<Rule>, c: Chain)
    requires forall r :: r in s ==> r.chain != c
    ensures OfChain(s, c) == []
  {
    if s != [] { NoneOfChain(s[1..], c); }
  }

  /** Appending every declared rule and then removing from the front of its chain
      one rule for each line printed before leaves exactly the declared rules. */
  lemma ReloadExact(order: seq<Chain>, ts: Chains, d: seq<Rule>)
    requires WellChained(order, ts)
    ensures Beheaded(Appended(ts, d), Print(order, ts)) == Regrouped(ts, d)
  {
    var printed, full := Print(order, ts), Appended(ts, d);
    forall c | c in ts
      ensures Beheaded(full, printed)[c] == OfChain(d, c)
    {
      AppendedChain(ts, d, c);
      PrintedChain(order, ts, c);
      BeheadedChain(full, printed, c);
    }
  }

  ghost predicate OnePass(layout: Layout, kernel: Kernel, after: Kernel, rules: Resources)
  {
    forall t :: 0 <= t < N ==> after[t] == Passed(layout, kernel, rules, t)
  }

  lemma PassTable(layout: Layout, kernel: Kernel, after: Kernel, rules: Resources, t: nat)
    requires t < N && WellChained(layout[t], kernel[t]) && after[t] == Passed(layout, kernel, rules, t)
    ensures WellChained(layout[t], after[t])
    ensures Kept(after[t], Wanted(rules, t)) == Kept(kernel[t], Wanted(rules, t))
    ensures StaleIn(layout, after, rules, t) + LinesIn(layout, kernel, rules, t) == StaleIn(layout, kernel, rules, t)
    ensures LinesIn(layout, kernel, rules, t) == 0 ==>
      StaleIn(layout, kernel, rules, t) == 0 && after[t] == Kept(after[t], Wanted(rules, t))
  {
    PassProgress(layout[t], kernel[t], Wanted(rules, t));
  }

  lemma NoSum(s: seq<nat>)
    ensures Sum(s[..0]) == 0
  {}

  lemma SumPrefix(s: seq<nat>, i: nat)
    requires i < |s|
    ensures Sum(s[..i + 1]) == Sum(s[..i]) + s[i]
    ensures s[..|s|] == s
  {
    assert s[..i + 1][..i] == s[..i];
  }

  lemma {:induction false} SumAdd(a: seq<nat>, b: seq<nat>, c: seq<nat>)
    requires |a| == |b| == |c|
    requires forall t :: 0 <= t < |a| ==> a[t] + b[t] == c[t] && (b[t] == 0 ==> c[t] == 0)
    ensures Sum(a) + Sum(b) == Sum(c)
    ensures Sum(b) == 0 ==> Sum(c) == 0 && forall t :: 0 <= t < |b| ==> b[t] == 0
  {
    if a != [] {
      var n := |a| - 1;
      SumAdd(a[..n], b[..n], c[..n]);
      assert Sum(b) == 0 ==> forall t :: 0 <= t < n ==> b[t] == b[..n][t];
    }
  }

  /** A pass over the kernel: the undeclared rules decrease by the number of
      deletions, the declared ones stay, and no deletion means none was left. */
  lemma PassKernel(layout: Layout, kernel: Kernel, after: Kernel, rules: Resources)
    requires ValidKernel(layout, kernel) && OnePass(layout, kernel, after, rules)
    ensures ValidKernel(layout, after)
    ensures AfterDeletes(after, rules) == AfterDeletes(kernel, rules)
    ensures Sum(StaleCounts(layout, after, rules)) + Sum(LineCounts(layout, kernel, rules))
      == Sum(StaleCounts(layout, kernel, rules))
    ensures Sum(LineCounts(layout, kernel, rules)) == 0 ==>
      after == AfterDeletes(after, rules) && Sum(StaleCounts(layout, after, rules)) == 0
  {
    hide WellChained, Kept, Wanted, StaleIn, LinesIn, Passed, Sum;
    forall t | 0 <= t < N
      ensures WellChained(layout[t], after[t])
      ensures Kept(after[t], Wanted(rules, t)) == Kept(kernel[t], Wanted(rules, t))
      ensures StaleIn(layout, after, rules, t) + LinesIn(layout, kernel, rules, t) == StaleIn(layout, kernel, rules, t)
      ensures LinesIn(layout, kernel, rules, t) == 0 ==>
        StaleIn(layout, kernel, rules, t) == 0 && after[t] == Kept(after[t], Wanted(rules, t))
    {
      PassTable(layout, kernel, after, rules, t);
    }
    SumAdd(StaleCounts(layout, after, rules), LineCounts(layout, kernel, rules), StaleCounts(layout, kernel, rules));
    assert forall t :: 0 <= t < N ==> LineCounts(layout, kernel, rules)[t] == LinesIn(layout, kernel, rules, t);
  }

  function Listing(order: seq<Chain>, ts: Chains, numbered: bool): seq<Rule> {
    if numbered then Print(order, ts) else Lines(Print(order, ts))
  }

  /** The deletions that precede a reload do not change what it ends with. */
  lemma ReloadAfterDeletes(layout: Layout, start: Kernel, rules: Resources, after: Kernel)
    requires Differs(layout, AfterDeletes(start, rules), rules)
    requires after == Reloaded(AfterDeletes(start, rules), rules)
    ensures after == FinalKernel(layout, start, rules)
  {
    forall t | 0 <= t < N ensures after[t] == Regrouped(start[t], Wanted(rules, t)) {
      assert AfterDeletes(start, rules)[t].Keys == start[t].Keys;
    }
  }

  // ---------- convergence ----------

  /** The declared rules as `iptables-save` prints them after a reload. */
  function Grouped(order: seq<Chain>, d: seq<Rule>): seq<Rule> {
    if order == [] then [] else OfChain(d, order[0]) + Grouped(order[1..], d)
  }

  function Position(order: seq<Chain>, c: Chain): nat {
    if order == [] || order[0] == c then 0 else 1 + Position(order[1..], c)
  }

  /** All declared chains exist, and rules are declared in the printing order of
      their chains. */
  predicate InPrintOrder(order: seq<Chain>, d: seq<Rule>) {
    && (forall i :: 0 <= i < |d| ==> d[i].chain in order)
    && (forall i, j :: 0 <= i < j < |d| ==> Position(order, d[i].chain) <= Position(order, d[j].chain))
  }

  lemma {:induction false} PrintRegrouped(order: seq<Chain>, ts: Chains, d: seq<Rule>)
    requires forall c :: c in order ==> c in ts
    ensures Print(order, Regrouped(ts, d)) == Grouped(order, d)
  {
    if order != [] { PrintRegrouped(order[1..], ts, d); }
  }

  /** The number of rules of `d` whose chain is in `order`. */
  function Inside(order: seq<Chain>, d: seq<Rule>): seq<Rule> {
    Filter(d, (r: Rule) => r.chain in order)
  }

  lemma {:induction false} GroupedLength(order: seq<Chain>, d: seq<Rule>)
    requires forall i, j :: 0 <= i < j < |order| ==> order[i] != order[j]
    ensures |Grouped(order, d)| == |Inside(order, d)| <= |d|
  {
    FilterLength(d, (r: Rule) => r.chain in order);
    if order == [] {
      NoneInside(d);
    } else {
      GroupedLength(order[1..], d);
      assert order == [order[0]] + order[1..];
      InsideSplit(order, d);
    }
  }

  lemma {:induction false} NoneInside(d: seq<Rule>)
    ensures Inside([], d) == []
  {
    if d != [] { NoneInside(d[1..]); }
  }

  lemma {:induction false} InsideSplit(order: seq<Chain>, d: seq<Rule>)
    requires order != [] && order[0] !in order[1..]
    ensures |Inside(order, d)| == |OfChain(d, order[0])| + |Inside(order[1..], d)|
  {
    if d != [] {
      InsideSplit(order, d[1..]);
      assert order == [order[0]] + order[1..];
    }
  }

  lemma {:induction false} GroupedInOrder(order: seq<Chain>, d: seq<Rule>)
    requires forall i, j :: 0 <= i < j < |order| ==> order[i] != order[j]
    ensures InPrintOrder(order, Grouped(order, d))
  {
    if order != [] {
      var rest := order[1..];
      var first, others := OfChain(d, order[0]), Grouped(rest, d);
      GroupedInOrder(rest, d);
      assert order == [order[0]] + rest;
      forall i | 0 <= i < |first| ensures first[i].chain == order[0] {
        FilterMember(d, (r: Rule) => r.chain == order[0], first[i]);
      }
      forall i | 0 <= i < |others|
        ensures others[i].chain in order && Position(order, others[i].chain) == 1 + Position(rest, others[i].chain)
      {
        assert others[i].chain in rest;
      }
    }
  }

  /** Past the leading rules of the first chain, rules in print order are in print
      order for the remaining chains. */
  lemma RestInPrintOrder(order: seq<Chain>, d: seq<Rule>, n: nat)
    requires order != [] && n <= |d| && InPrintOrder(order, d)
    requires n < |d| ==> d[n].chain != order[0]
    ensures InPrintOrder(order[1..], d[n..])
    ensures forall i :: n <= i < |d| ==> d[i].chain != order[0]
  {
    var rest, others := order[1..], d[n..];
    assert order == [order[0]] + rest;
    forall i | n <= i < |d|
      ensures d[i].chain != order[0] && d[i].chain in rest
      ensures Position(order, d[i].chain) == 1 + Position(rest, d[i].chain)
    {
      assert n < i ==> Position(order, d[n].chain) <= Position(order, d[i].chain);
    }
  }

  lemma {:induction false} OrderedIsGrouped(order: seq<Chain>, d: seq<Rule>)
    requires forall i, j :: 0 <= i < j < |order| ==> order[i] != order[j]
    requires InPrintOrder(order, d)
    ensures Grouped(order, d) == d
  {
    if order != [] {
      var c := order[0];
      var n := LeadingRun(d, c);
      var first, others := d[..n], d[n..];
      RestInPrintOrder(order, d, n);
      OrderedIsGrouped(order[1..], others);
      assert d == first + others;
      assert OfChain(d, c) == first by {
        FilterAppend(first, others, (r: Rule) => r.chain == c);
        FilterAll(first, (r: Rule) => r.chain == c);
        NoneOfChain(others, c);
      }
      GroupedIgnores(order[1..], first, others);
    }
  }

  function LeadingRun(d: seq<Rule>, c: Chain): (n: nat)
    ensures n <= |d|
    ensures forall i :: 0 <= i < n ==> d[i].chain == c
    ensures n < |d| ==> d[n].chain != c
  {
    if d == [] || d[0].chain != c then 0 else 1 + LeadingRun(d[1..], c)
  }

  lemma {:induction false} GroupedIgnores(order: seq<Chain>, first: seq<Rule>, others: seq<Rule>)
    requires forall r :: r in first ==> r.chain !in order
    ensures Grouped(order, first + others) == Grouped(order, others)
  {
    if order != [] {
      assert order == [order[0]] + order[1..];
      FilterAppend(first, others, (r: Rule) => r.chain == order[0]);
      NoneOfChain(first, order[0]);
      GroupedIgnores(order[1..], first, others);
    }
  }

  /** What a second comparison sees after a reload: the declared list is a prefix
      of the printed one exactly when it was declared in print order. */
  lemma PrefixIffOrdered(order: seq<Chain>, d: seq<Rule>)
    requires forall i, j :: 0 <= i < j < |order| ==> order[i] != order[j]
    ensures d <= Grouped(order, d) <==> InPrintOrder(order, d)
  {
    GroupedLength(order, d);
    if d <= Grouped(order, d) {
      assert d == Grouped(order, d);
      GroupedInOrder(order, d);
    }
    if InPrintOrder(order, d) {
      OrderedIsGrouped(order, d);
    }
  }

  lemma DeclaredTable(order: seq<Chain>, ts: Chains, d: seq<Rule>)
    requires WellChained(order, ts)
    requires forall c, r :: c in ts && r in ts[c] ==> r in d
    ensures Kept(ts, d) == ts
    ensures Stale(Print(order, ts), d) == []
  {
    forall c | c in ts ensures Only(ts[c], d) == ts[c] { NoneStale(ts[c], d); }
    forall r | r in Print(order, ts) ensures r in d { PrintMember(order, ts, r); }
    NoneStale(Print(order, ts), d);
  }

  lemma FinalChains(ts: Chains, d: seq<Rule>, c: Chain, r: Rule)
    requires c in ts && RulesOf(ts[c], c)
    ensures r in Only(ts[c], d) ==> r in d && r.chain == c
    ensures r in OfChain(d, c) ==> r in d && r.chain == c
  {
    FilterMember(ts[c], q => q in d, r);
    FilterMember(d, (q: Rule) => q.chain == c, r);
  }

  /** Kept and regrouped chains alike hold declared rules of that chain only. */
  lemma DeclaredShape(order: seq<Chain>, ts: Chains, d: seq<Rule>, after: Chains)
    requires WellChained(order, ts)
    requires after == Kept(ts, d) || after == Regrouped(ts, d)
    ensures WellChained(order, after)
    ensures forall c, r :: c in after && r in after[c] ==> r in d
  {
    hide Only, OfChain;
    forall c, r | c in after && r in after[c] ensures r in d && r.chain == c {
      FinalChains(ts, d, c, r);
    }
  }

  lemma FinalTable(layout: Layout, kernel: Kernel, rules: Resources, t: nat)
    requires t < N && WellChained(layout[t], kernel[t])
    ensures WellChained(layout[t], FinalKernel(layout, kernel, rules)[t])
    ensures Kept(FinalKernel(layout, kernel, rules)[t], Wanted(rules, t)) == FinalKernel(layout, kernel, rules)[t]
    ensures Stale(Print(layout[t], FinalKernel(layout, kernel, rules)[t]), Wanted(rules, t)) == []
  {
    var d, ts := Wanted(rules, t), FinalKernel(layout, kernel, rules)[t];
    hide WellChained, Print, Stale, Kept, Regrouped, Differs, Wanted;
    assert ts == Kept(kernel[t], d) || ts == Regrouped(kernel[t], d);
    DeclaredShape(layout[t], kernel[t], d, ts);
    DeclaredTable(layout[t], ts, d);
  }

  /** What a run leaves behind, chain by chain and rule by rule. */
  lemma FinalizeMeetsDeclaration(layout: Layout, kernel: Kernel, rules: Resources)
    requires ValidKernel(layout, kernel)
    ensures ValidKernel(layout, FinalKernel(layout, kernel, rules))
    ensures forall t, r :: 0 <= t < N && r in Print(layout[t], FinalKernel(layout, kernel, rules)[t]) ==>
      r in Wanted(rules, t)
    ensures Differs(layout, AfterDeletes(kernel, rules), rules) ==>
      forall t, c :: 0 <= t < N && c in layout[t] ==>
        FinalKernel(layout, kernel, rules)[t][c] == OfChain(Wanted(rules, t), c)
    ensures !Differs(layout, AfterDeletes(kernel, rules), rules) ==>
      forall t :: 0 <= t < N && rules[t].Declared? ==>
        rules[t].rules <= Print(layout[t], FinalKernel(layout, kernel, rules)[t])
  {
    forall t | 0 <= t < N
      ensures WellChained(layout[t], FinalKernel(layout, kernel, rules)[t])
      ensures forall r :: r in Print(layout[t], FinalKernel(layout, kernel, rules)[t]) ==> r in Wanted(rules, t)
    {
      FinalTable(layout, kernel, rules, t);
      AllDeclared(Print(layout[t], FinalKernel(layout, kernel, rules)[t]), Wanted(rules, t));
    }
  }

  lemma PrintedIsRegrouped(order: seq<Chain>, ts: Chains, kept: Chains, d: seq<Rule>)
    requires WellChained(order, ts) && WellChained(order, kept) && Print(order, kept) == d
    ensures kept == Regrouped(ts, d)
  {
    hide Print, OfChain;
    forall c | c in ts ensures c in kept && kept[c] == OfChain(d, c) { PrintedChain(order, kept, c); }
    assert kept.Keys == ts.Keys;
  }

  lemma KeptAsDeclaredIff(order: seq<Chain>, ts: Chains, d: seq<Rule>)
    requires WellChained(order, ts) && d <= Print(order, Kept(ts, d))
    ensures Kept(ts, d) == Regrouped(ts, d) <==> |Print(order, Kept(ts, d))| == |d|
  {
    hide Print, OfChain, Only, Kept, Regrouped, Grouped;
    var kept := Kept(ts, d);
    DeclaredShape(order, ts, d, kept);
    if |Print(order, kept)| == |d| {
      PrintedIsRegrouped(order, ts, kept, d);
    }
    if kept == Regrouped(ts, d) {
      PrintRegrouped(order, ts, d);
      GroupedLength(order, d);
    }
  }

  /** When every chain ends as the declared list of that chain: on a reload, and without
      one exactly if each table is left with as many rules as are declared for it. A
      surplus copy of a declared rule is not deleted and not noticed. */
  lemma EndsAsDeclaredIff(layout: Layout, kernel: Kernel, rules: Resources)
    requires ValidKernel(layout, kernel)
    ensures var kept := AfterDeletes(kernel, rules);
      FinalKernel(layout, kernel, rules) == Reloaded(kernel, rules) <==>
        Differs(layout, kept, rules) || forall t :: 0 <= t < N ==> |Print(layout[t], kept[t])| == |Wanted(rules, t)|
  {
    var kept := AfterDeletes(kernel, rules);
    if !Differs(layout, kept, rules) {
      forall t | 0 <= t < N
        ensures kept[t] == Reloaded(kernel, rules)[t] <==> |Print(layout[t], kept[t])| == |Wanted(rules, t)|
      {
        assert rules[t].Declared? ==> rules[t].rules <= Print(layout[t], kept[t]);
        KeptAsDeclaredIff(layout[t], kernel[t], Wanted(rules, t));
      }
    }
  }

  lemma SurplusCopyStays(a: Rule)
    requires a.chain == "INPUT"
    ensures var layout: Layout := [["INPUT"], [], [], []];
      var kernel: Kernel := [map["INPUT" := [a, a]], map[], map[], map[]];
      var rules: Resources := [Declared([a]), Undeclared, Undeclared, Undeclared];
      ValidKernel(layout, kernel) && FinalKernel(layout, kernel, rules)[0]["INPUT"] == [a, a]
  {
    var layout: Layout := [["INPUT"], [], [], []];
    var kernel: Kernel := [map["INPUT" := [a, a]], map[], map[], map[]];
    var rules: Resources := [Declared([a]), Undeclared, Undeclared, Undeclared];
    var kept := AfterDeletes(kernel, rules);
    NoneStale([a, a], [a]);
    assert kept[0] == map["INPUT" := [a, a]];
    assert layout[0][1..] == [] && Print(layout[0], kept[0]) == [a, a] + Print([], kept[0]) == [a, a];
    assert [a] <= [a, a];
    assert forall t :: 0 < t < N ==> rules[t] == Undeclared;
    assert !Differs(layout, kept, rules);
  }

  lemma {:induction false} SumZero(s: seq<nat>)
    ensures Sum(s) == 0 <==> forall t :: 0 <= t < |s| ==> s[t] == 0
  {
    if s != [] {
      SumZero(s[..|s| - 1]);
      assert forall t :: 0 <= t < |s| - 1 ==> s[t] == s[..|s| - 1][t];
    }
  }

  lemma QuietUnlessDiffers(layout: Layout, kernel: Kernel, rules: Resources)
    requires ValidKernel(layout, kernel)
    requires AfterDeletes(kernel, rules) == kernel
    requires forall t :: 0 <= t < N ==> Stale(Print(layout[t], kernel[t]), Wanted(rules, t)) == []
    ensures CommandCount(layout, kernel, rules) == 0 <==> !Differs(layout, kernel, rules)
  {
    SumZero(StaleCounts(layout, kernel, rules));
    if Differs(layout, kernel, rules) {
      var t :| 0 <= t < N && rules[t].Declared? && !(rules[t].rules <= Print(layout[t], kernel[t]));
      SumZero(WantedCounts(rules));
      assert WantedCounts(rules)[t] == |rules[t].rules| > 0;
    }
  }

  /** A second run with the same declarations issues no kernel command if and only
      if the first one did not reload or every declared list is in print order. */
  lemma SecondRunQuiet(layout: Layout, kernel: Kernel, rules: Resources)
    requires ValidKernel(layout, kernel)
    ensures CommandCount(layout, FinalKernel(layout, kernel, rules), rules) == 0 <==>
      (Differs(layout, AfterDeletes(kernel, rules), rules) ==>
        forall t :: 0 <= t < N && rules[t].Declared? ==> InPrintOrder(layout[t], rules[t].rules))
  {
    var final := FinalKernel(layout, kernel, rules);
    forall t | 0 <= t < N
      ensures WellChained(layout[t], final[t])
      ensures Kept(final[t], Wanted(rules, t)) == final[t]
      ensures Stale(Print(layout[t], final[t]), Wanted(rules, t)) == []
    {
      FinalTable(layout, kernel, rules, t);
    }
    QuietUnlessDiffers(layout, final, rules);
    if Differs(layout, AfterDeletes(kernel, rules), rules) {
      forall t | 0 <= t < N && rules[t].Declared?
        ensures rules[t].rules <= Print(layout[t], final[t]) <==> InPrintOrder(layout[t], rules[t].rules)
      {
        PrintRegrouped(layout[t], kernel[t], rules[t].rules);
        PrefixIffOrdered(layout[t], rules[t].rules);
      }
    }
  }

  /** `@@chain_order`. */
  function ChainPriority(c: Chain): nat {
    if c == "PREROUTING" then 1
    else if c == "INPUT" then 2
    else if c == "FORWARD" then 3
    else if c == "OUTPUT" then 4
    else if c == "POSTROUTING" then 5
    else 0
  }

  /** Why the resources are sorted by chain priority first: in a table that prints
      its chains by priority, a list sorted that way is in print order. */
  lemma {:induction false} SortedIsInPrintOrder(order: seq<Chain>, d: seq<Rule>)
    requires forall i, j :: 0 <= i < j < |order| ==> ChainPriority(order[i]) < ChainPriority(order[j])
    requires forall r :: r in d ==> r.chain in order
    requires forall i, j :: 0 <= i < j < |d| ==> ChainPriority(d[i].chain) <= ChainPriority(d[j].chain)
    ensures InPrintOrder(order, d)
  {
    forall i, j | 0 <= i < j < |d| ensures Position(order, d[i].chain) <= Position(order, d[j].chain) {
      assert d[i] in d && d[j] in d;
      PositionFinds(order, d[i].chain);
      PositionFinds(order, d[j].chain);
    }
  }

  lemma {:induction false} PositionFinds(order: seq<Chain>, c: Chain)
    requires c in order
    ensures Position(order, c) < |order| && order[Position(order, c)] == c
  {
    if order[0] != c { PositionFinds(order[1..], c); }
  }

  // ---------- the commands themselves ----------

  /** What the kernel makes of one command. */
  function Executed(kernel: Kernel, c: Command): Kernel {
    if c.table >= N then kernel
    else match c
         case AddRule(t, r) => kernel[t := Append(kernel[t], r)]
         case DeleteRule(t, r) => kernel[t := Delete(kernel[t], r)]
         case DeleteFirst(t, ch) => kernel[t := DeleteHead(kernel[t], ch)]
  }

  function Replay(kernel: Kernel, commands: seq<Command>): Kernel {
    if commands == [] then kernel
    else Executed(Replay(kernel, commands[..|commands| - 1]), commands[|commands| - 1])
  }

  lemma {:induction false} ReplayAppend(kernel: Kernel, a: seq<Command>, b: seq<Command>)
    ensures Replay(kernel, a + b) == Replay(Replay(kernel, a), b)
  {
    if b == [] {
      assert a + b == a;
    } else {
      assert (a + b)[..|a + b| - 1] == a + b[..|b| - 1];
      ReplayAppend(kernel, a, b[..|b| - 1]);
    }
  }

  /** The log has grown, and the kernel is what its new commands make of the old one. */
  ghost predicate Follows(kernel: Kernel, commands: seq<Command>, kernel': Kernel, commands': seq<Command>) {
    commands <= commands' && kernel' == Replay(kernel, commands'[|commands|..])
  }

  lemma FollowsSame(kernel: Kernel, commands: seq<Command>)
    ensures Follows(kernel, commands, kernel, commands)
  {}

  lemma FollowsOne(kernel: Kernel, commands: seq<Command>, c: Command)
    ensures Follows(kernel, commands, Executed(kernel, c), commands + [c])
  {
    assert (commands + [c])[|commands|..] == [c] && [c][..0] == [];
  }

  lemma FollowsOn(k0: Kernel, c0: seq<Command>, k1: Kernel, c1: seq<Command>, k2: Kernel, c2: seq<Command>)
    requires Follows(k0, c0, k1, c1) && Follows(k1, c1, k2, c2)
    ensures Follows(k0, c0, k2, c2)
  {
    assert c2[|c0|..] == c1[|c0|..] + c2[|c1|..];
    ReplayAppend(k0, c1[|c0|..], c2[|c1|..]);
  }

  function Deletes(t: nat, lines: seq<Rule>): seq<Command> {
    seq(|lines|, i requires 0 <= i < |lines| => DeleteRule(t, lines[i]))
  }

  /** One printed line more: a declared one changes nothing, any other one is deleted. */
  lemma DeletesNext(t: nat, ts: Chains, lines: seq<Rule>, i: nat, d: seq<Rule>)
    requires t < N && i < |lines|
    ensures lines[i] in d ==>
      && Stale(lines[..i + 1], d) == Stale(lines[..i], d) && Purged(ts, lines[..i + 1], d) == Purged(ts, lines[..i], d)
    ensures lines[i] !in d ==>
      && Stale(lines[..i + 1], d) == Stale(lines[..i], d) + [lines[i]]
      && Purged(ts, lines[..i + 1], d) == Delete(Purged(ts, lines[..i], d), lines[i])
      && Deletes(t, Stale(lines[..i + 1], d)) == Deletes(t, Stale(lines[..i], d)) + [DeleteRule(t, lines[i])]
  {
    assert lines[..i + 1][..i] == lines[..i];
    assert lines[..i + 1] == lines[..i] + [lines[i]];
    FilterAppend(lines[..i], [lines[i]], r => r !in d);
  }

  lemma NothingDeleted(t: nat, kernel: Kernel, lines: seq<Rule>, d: seq<Rule>)
    requires t < N
    ensures Stale(lines[..0], d) == [] && Deletes(t, []) == []
    ensures kernel == kernel[t := Purged(kernel[t], lines[..0], d)]
  {}

  function Adds(t: nat, d: seq<Rule>): seq<Command> {
    seq(|d|, i requires 0 <= i < |d| => AddRule(t, d[i]))
  }

  function Drops(t: nat, printed: seq<Rule>): seq<Command> {
    seq(|printed|, i requires 0 <= i < |printed| => DeleteFirst(t, printed[i].chain))
  }

  /** The commands of a round, of the first and of the second loop of a reload, for the
      first `n` tables. */
  function DeletesUpTo(layout: Layout, kernel: Kernel, rules: Resources, n: nat): seq<Command>
    requires n <= N
  {
    if n == 0 then []
    else
      DeletesUpTo(layout, kernel, rules, n - 1)
      + Deletes(n - 1, Stale(Lines(Print(layout[n - 1], kernel[n - 1])), Wanted(rules, n - 1)))
  }

  function AddsUpTo(rules: Resources, n: nat): seq<Command>
    requires n <= N
  {
    if n == 0 then [] else AddsUpTo(rules, n - 1) + Adds(n - 1, Wanted(rules, n - 1))
  }

  function DropsUpTo(printed: Printed, n: nat): seq<Command>
    requires n <= N
  {
    if n == 0 then [] else DropsUpTo(printed, n - 1) + Drops(n - 1, printed[n - 1])
  }

  // ---------- no chain is ever without its declared rules during a reload ----------

  /** How often the head of this chain is deleted. */
  function HeadDeletes(commands: seq<Command>, t: nat, c: Chain): nat {
    if commands == [] then 0
    else
      HeadDeletes(commands[..|commands| - 1], t, c)
      + if commands[|commands| - 1] == DeleteFirst(t, c) then 1 else 0
  }

  lemma {:induction false} HeadDeletesAppend(a: seq<Command>, b: seq<Command>, t: nat, c: Chain)
    ensures HeadDeletes(a + b, t, c) == HeadDeletes(a, t, c) + HeadDeletes(b, t, c)
  {
    if b == [] {
      assert a + b == a;
    } else {
      assert (a + b)[..|a + b| - 1] == a + b[..|b| - 1];
      HeadDeletesAppend(a, b[..|b| - 1], t, c);
    }
  }

  lemma {:induction false} HeadDeletesOfDrops(u: nat, printed: seq<Rule>, t: nat, c: Chain)
    ensures HeadDeletes(Drops(u, printed), t, c) == if u == t then |OfChain(printed, c)| else 0
  {
    if printed != [] {
      var init, r := printed[..|printed| - 1], printed[|printed| - 1];
      HeadDeletesOfDrops(u, init, t, c);
      assert printed == init + [r];
      FilterAppend(init, [r], (q: Rule) => q.chain == c);
      assert Drops(u, printed)[..|printed| - 1] == Drops(u, init);
    }
  }

  lemma {:induction false} HeadDeletesInAll(printed: Printed, n: nat, t: nat, c: Chain)
    requires n <= N
    ensures HeadDeletes(DropsUpTo(printed, n), t, c) == if t < n then |OfChain(printed[t], c)| else 0
  {
    if n > 0 {
      HeadDeletesInAll(printed, n - 1, t, c);
      HeadDeletesAppend(DropsUpTo(printed, n - 1), Drops(n - 1, printed[n - 1]), t, c);
      HeadDeletesOfDrops(n - 1, printed[n - 1], t, c);
    }
  }

  ghost predicate OnlyDrops(commands: seq<Command>) {
    forall i :: 0 <= i < |commands| ==> commands[i].DeleteFirst?
  }

  lemma {:induction false} DropsAreDrops(printed: Printed, n: nat)
    requires n <= N
    ensures OnlyDrops(DropsUpTo(printed, n))
  {
    if n > 0 { DropsAreDrops(printed, n - 1); }
  }

  lemma {:induction false} ReplayDrops(kernel: Kernel, drops: seq<Command>, t: nat, c: Chain)
    requires t < N && c in kernel[t] && OnlyDrops(drops)
    requires HeadDeletes(drops, t, c) <= |kernel[t][c]|
    ensures c in Replay(kernel, drops)[t]
    ensures Replay(kernel, drops)[t][c] == kernel[t][c][HeadDeletes(drops, t, c)..]
  {
    if drops != [] { ReplayDrops(kernel, drops[..|drops| - 1], t, c); }
  }

  /** The first loop of a reload, as commands. */
  lemma {:induction false} ReplayAdds(kernel: Kernel, rules: Resources, n: nat)
    requires n <= N
    ensures forall t :: 0 <= t < N ==>
      Replay(kernel, AddsUpTo(rules, n))[t] == if t < n then Appended(kernel[t], Wanted(rules, t)) else kernel[t]
  {
    hide *;
    if n == 0 {
      NoAdds(kernel, rules);
    } else {
      var before, d := AddsUpTo(rules, n - 1), Wanted(rules, n - 1);
      ReplayAdds(kernel, rules, n - 1);
      AddsNext(rules, n - 1);
      ReplayAppend(kernel, before, Adds(n - 1, d));
      ReplayTableAdds(Replay(kernel, before), n - 1, d);
    }
  }

  lemma NoAdds(kernel: Kernel, rules: Resources)
    ensures Replay(kernel, AddsUpTo(rules, 0)) == kernel
  {}

  lemma AddsNext(rules: Resources, n: nat)
    requires n < N
    ensures AddsUpTo(rules, n + 1) == AddsUpTo(rules, n) + Adds(n, Wanted(rules, n))
  {}

  lemma {:induction false} ReplayTableAdds(kernel: Kernel, u: nat, d: seq<Rule>)
    requires u < N
    ensures Replay(kernel, Adds(u, d)) == kernel[u := Appended(kernel[u], d)]
  {
    if d != [] {
      var init := d[..|d| - 1];
      ReplayTableAdds(kernel, u, init);
      assert Adds(u, d)[..|d| - 1] == Adds(u, init);
    }
  }

  /** Whenever the second loop of a reload is interrupted, every chain still ends with
      all its declared rules in order: only rules from before have gone. */
  lemma ReloadNeverBare(layout: Layout, kernel: Kernel, rules: Resources, printed: Printed, n: nat, t: nat, c: Chain)
    requires ValidKernel(layout, kernel) && t < N && c in kernel[t]
    requires forall u :: 0 <= u < N ==> printed[u] == Print(layout[u], kernel[u])
    requires n <= |DropsUpTo(printed, N)|
    ensures var now := Replay(kernel, AddsUpTo(rules, N) + DropsUpTo(printed, N)[..n]);
      var own := OfChain(Wanted(rules, t), c);
      && c in now[t] && |own| <= |now[t][c]| && now[t][c][|now[t][c]| - |own|..] == own
  {
    hide *;
    var drops := DropsUpTo(printed, N);
    FullyAdded(layout, kernel, rules, printed, t, c);
    DropsWithin(printed, n, t, c);
    var full := Replay(kernel, AddsUpTo(rules, N));
    ReplayAppend(kernel, AddsUpTo(rules, N), drops[..n]);
    EndsWith(kernel[t][c], OfChain(Wanted(rules, t), c), HeadDeletes(drops[..n], t, c));
    ReplayDrops(full, drops[..n], t, c);
  }

  lemma FullyAdded(layout: Layout, kernel: Kernel, rules: Resources, printed: Printed, t: nat, c: Chain)
    requires ValidKernel(layout, kernel) && t < N && c in kernel[t] && printed[t] == Print(layout[t], kernel[t])
    ensures var full := Replay(kernel, AddsUpTo(rules, N));
      c in full[t] && full[t][c] == kernel[t][c] + OfChain(Wanted(rules, t), c)
    ensures |OfChain(printed[t], c)| == |kernel[t][c]|
  {
    ReplayAdds(kernel, rules, N);
    AppendedChain(kernel[t], Wanted(rules, t), c);
    PrintedChain(layout[t], kernel[t], c);
  }

  lemma DropsWithin(printed: Printed, n: nat, t: nat, c: Chain)
    requires t < N && n <= |DropsUpTo(printed, N)|
    ensures HeadDeletes(DropsUpTo(printed, N)[..n], t, c) <= |OfChain(printed[t], c)|
    ensures OnlyDrops(DropsUpTo(printed, N)[..n])
  {
    hide HeadDeletes, DropsUpTo, OfChain;
    var drops := DropsUpTo(printed, N);
    HeadDeletesInAll(printed, N, t, c);
    assert drops == drops[..n] + drops[n..];
    HeadDeletesAppend(drops[..n], drops[n..], t, c);
    DropsAreDrops(printed, N);
  }

  lemma EndsWith(before: seq<Rule>, own: seq<Rule>, k: nat)
    requires k <= |before|
    ensures var now := (before + own)[k..]; |own| <= |now| && now[|now| - |own|..] == own
  {}
}
