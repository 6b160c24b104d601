/** The lists of rules that `finalize` sets: the resources in the order of their sort
    keys, with the rules of the pre and post files around them; and when they are in the
    order in which the kernel prints them. */
module FirewallLists {
  import opened FirewallKernel
  import opened Wrappers

  /** A declared rule with the rest of its sort key. */
  datatype Resource = Resource(rule: Rule, name: string, source: string)

  /** The resources of each table. */
  type Declarations = s: seq<Option<seq<Resource>>> | |s| == N witness [None, None, None, None]

  /** A line of the pre or post file, for one of the four tables or another one. */
  datatype FileLine = FileLine(table: nat, rule: Rule)

  type RuleFile = seq<FileLine>

  predicate TextLe(a: string, b: string) {
    a == [] || (b != [] && (a[0] < b[0] || (a[0] == b[0] && TextLe(a[1..], b[1..]))))
  }

  /** `[chain_prio, name, source]`, compared from the left. */
  predicate KeyLe(a: Resource, b: Resource) {
    var p, q := ChainPriority(a.rule.chain), ChainPriority(b.rule.chain);
    p < q || (p == q && if a.name != b.name then TextLe(a.name, b.name) else TextLe(a.source, b.source))
  }

  /** Any result that `sort_by` may have: equal keys come in any order. */
  ghost predicate IsSorting(given: seq<Resource>, sorted: seq<Resource>) {
    && multiset(sorted) == multiset(given)
    && forall i, j :: 0 <= i < j < |sorted| ==> KeyLe(sorted[i], sorted[j])
  }

  ghost predicate AllSorted(given: Declarations, sorted: Declarations) {
    forall t :: 0 <= t < N ==>
      (given[t].None? <==> sorted[t].None?) && (given[t].Some? ==> IsSorting(given[t].value, sorted[t].value))
  }

  /** The order of the chains; any other chain sorts in front of them. */
  lemma ChainOrder(c: Chain)
    ensures var chains := ["PREROUTING", "INPUT", "FORWARD", "OUTPUT", "POSTROUTING"];
      && (forall i :: 0 <= i < 5 && c == chains[i] ==> ChainPriority(c) == i + 1)
      && (c !in chains ==> ChainPriority(c) == 0)
  {}

  /** One text stands before another: it is a beginning of it, or has the smaller
      character at the first place where they differ. */
  ghost predicate StandsBefore(a: string, b: string) {
    || a <= b
    || exists k :: 0 <= k < |a| && k < |b| && a[..k] == b[..k] && a[k] < b[k]
  }

  lemma {:induction false} TextLeIff(a: string, b: string)
    ensures TextLe(a, b) <==> StandsBefore(a, b)
  {
    if a != [] && b != [] && a[0] == b[0] {
      var c, d := a[1..], b[1..];
      TextLeIff(c, d);
      assert a == [a[0]] + c && b == [a[0]] + d;
      if !(a <= b) {
        if k :| 0 <= k < |a| && k < |b| && a[..k] == b[..k] && a[k] < b[k] {
          assert c[..k - 1] == a[..k][1..] == b[..k][1..] == d[..k - 1] && c[k - 1] < d[k - 1];
        }
        if k :| 0 <= k < |c| && k < |d| && c[..k] == d[..k] && c[k] < d[k] {
          assert a[..k + 1] == [a[0]] + c[..k] == [a[0]] + d[..k] == b[..k + 1] && a[k + 1] < b[k + 1];
        }
      }
    } else if a != [] && b != [] && a[0] < b[0] {
      assert a[..0] == b[..0];
    }
  }

  /** Of two resources of a sorted list, the earlier one has the earlier chain, or the
      same one and the earlier name, or the same name too and the earlier source. */
  lemma SortedByChainNameSource(given: seq<Resource>, sorted: seq<Resource>, i: nat, j: nat)
    requires IsSorting(given, sorted) && i < j < |sorted|
    ensures var a, b := sorted[i], sorted[j];
      var p, q := ChainPriority(a.rule.chain), ChainPriority(b.rule.chain);
      && p <= q
      && (p == q ==> StandsBefore(a.name, b.name))
      && (p == q && a.name == b.name ==> StandsBefore(a.source, b.source))
    ensures sorted[i] in given && sorted[j] in given && |sorted| == |given|
  {
    var a, b := sorted[i], sorted[j];
    assert KeyLe(a, b);
    TextLeIff(a.name, b.name);
    TextLeIff(a.source, b.source);
    assert a in multiset(sorted) && b in multiset(sorted);
    assert |multiset(sorted)| == |sorted| && |multiset(given)| == |given|;
  }

  function RulesOnly(resources: seq<Resource>): seq<Rule> {
    seq(|resources|, i requires 0 <= i < |resources| => resources[i].rule)
  }

  function Stripped(d: Option<seq<Resource>>): Declaration {
    if d.None? then Undeclared else Declared(RulesOnly(d.value))
  }

  function StrippedAll(sorted: Declarations): Resources {
    seq(N, t requires 0 <= t < N => Stripped(sorted[t]))
  }

  /** `insert(counter, rule)` or `push(rule)` on `rules[table]`. The counter runs along
      with the lines of all tables; inserting past the end of a list leaves a hole in it,
      on which `finalize` fails before it has run any command. */
  function LineLoaded(rules: Resources, l: FileLine, counter: nat, prepend: bool): Option<Resources> {
    if l.table >= N then Some(rules)
    else
      var own := Wanted(rules, l.table);
      if !prepend then Some(rules[l.table := Declared(own + [l.rule])])
      else if counter > |own| then None
      else Some(rules[l.table := Declared(own[..counter] + [l.rule] + own[counter..])])
  }

  /** `load_rules_from_file`. */
  function LoadedBy(rules: Resources, file: RuleFile, prepend: bool): Option<Resources> {
    if file == [] then Some(rules)
    else
      var n := |file| - 1;
      var before := LoadedBy(rules, file[..n], prepend);
      if before.None? then None else LineLoaded(before.value, file[n], n, prepend)
  }

  /** The lists that `finalize` numbers; `None` if one has a hole. */
  function Assembled(sorted: Declarations, pre: RuleFile, post: RuleFile): Option<Resources> {
    var before := LoadedBy(StrippedAll(sorted), pre, true);
    if before.None? then None else LoadedBy(before.value, post, false)
  }

  function LinesFor(file: RuleFile, t: nat): seq<Rule> {
    if file == [] then []
    else LinesFor(file[..|file| - 1], t) + if file[|file| - 1].table == t then [file[|file| - 1].rule] else []
  }

  /** The lines for the table are the first ones of the file, if there are any. */
  predicate Leading(file: RuleFile, t: nat) {
    forall b, c :: 0 <= b < c < |file| && file[c].table == t ==> file[b].table == t
  }

  lemma {:induction false} OnlyLines(file: RuleFile, t: nat)
    requires forall c :: 0 <= c < |file| ==> file[c].table == t
    ensures |LinesFor(file, t)| == |file|
  {
    if file != [] { OnlyLines(file[..|file| - 1], t); }
  }

  lemma {:induction false} LoadedCounts(rules: Resources, file: RuleFile, prepend: bool, t: nat)
    requires t < N && LoadedBy(rules, file, prepend).Some?
    ensures |Wanted(LoadedBy(rules, file, prepend).value, t)| == |Wanted(rules, t)| + |LinesFor(file, t)|
  {
    if file != [] { LoadedCounts(rules, file[..|file| - 1], prepend, t); }
  }

  /** The post file's lines come behind the table's rules. */
  lemma {:induction false} PushedLines(rules: Resources, file: RuleFile, t: nat)
    requires t < N
    ensures LoadedBy(rules, file, false).Some?
    ensures Wanted(LoadedBy(rules, file, false).value, t) == Wanted(rules, t) + LinesFor(file, t)
  {
    if file != [] { PushedLines(rules, file[..|file| - 1], t); }
  }

  lemma LoadedNone(rules: Resources, prepend: bool)
    ensures LoadedBy(rules, [], prepend) == Some(rules)
  {}

  lemma LoadedNext(rules: Resources, file: RuleFile, n: nat, prepend: bool)
    requires n < |file|
    ensures var before := LoadedBy(rules, file[..n], prepend);
      LoadedBy(rules, file[..n + 1], prepend) ==
        if before.None? then None else LineLoaded(before.value, file[n], n, prepend)
  {
    assert file[..n + 1][..n] == file[..n];
  }

  lemma LineStep(before: Resources, l: FileLine, n: nat, t: nat)
    requires t < N && LineLoaded(before, l, n, true).Some?
    ensures var own, after := Wanted(before, t), Wanted(LineLoaded(before, l, n, true).value, t);
      if l.table == t then n <= |own| && after == own[..n] + [l.rule] + own[n..] else after == own
  {}

  lemma LinesNext(file: RuleFile, n: nat, t: nat)
    requires n < |file|
    ensures LinesFor(file[..n + 1], t) == LinesFor(file[..n], t) + if file[n].table == t then [file[n].rule] else []
  {
    assert file[..n + 1][..n] == file[..n];
  }

  /** The pre file's lines come in front if no line for another table precedes them. */
  lemma {:induction false} LeadingLines(rules: Resources, file: RuleFile, t: nat)
    requires t < N && LoadedBy(rules, file, true).Some? && Leading(file, t)
    ensures Wanted(LoadedBy(rules, file, true).value, t) == LinesFor(file, t) + Wanted(rules, t)
  {
    if file == [] {
    } else {
      var n := |file| - 1;
      assert file == file[..n + 1];
      LoadedNext(rules, file, n, true);
      LinesNext(file, n, t);
      LeadingLines(rules, file[..n], t);
      LeadingStep(rules, file, n, t);
    }
  }

  lemma LeadingStep(rules: Resources, file: RuleFile, n: nat, t: nat)
    requires t < N && n + 1 == |file| && Leading(file, t) && LoadedBy(rules, file[..n], true).Some?
    requires Wanted(LoadedBy(rules, file[..n], true).value, t) == LinesFor(file[..n], t) + Wanted(rules, t)
    requires LineLoaded(LoadedBy(rules, file[..n], true).value, file[n], n, true).Some?
    ensures Wanted(LineLoaded(LoadedBy(rules, file[..n], true).value, file[n], n, true).value, t)
      == LinesFor(file[..n], t) + (if file[n].table == t then [file[n].rule] else []) + Wanted(rules, t)
  {
    hide LoadedBy, LinesFor, LineLoaded, Wanted;
    LineStep(LoadedBy(rules, file[..n], true).value, file[n], n, t);
    if file[n].table == t {
      OnlyLines(file[..n], t);
      InsertBetween(LinesFor(file[..n], t), file[n].rule, Wanted(rules, t));
    }
  }

  lemma InsertBetween(lines: seq<Rule>, r: Rule, own: seq<Rule>)
    ensures var now := lines + own; now[..|lines|] + [r] + now[|lines|..] == lines + [r] + own
  {
    assert (lines + own)[..|lines|] == lines && (lines + own)[|lines|..] == own;
  }

  /** Wherever else it may be: line `c` of the pre file ends at position `c` of its
      table's list. */
  lemma {:induction false} LinesStay(rules: Resources, file: RuleFile, c: nat)
    requires LoadedBy(rules, file, true).Some? && c < |file| && file[c].table < N
    ensures var list := Wanted(LoadedBy(rules, file, true).value, file[c].table);
      c < |list| && list[c] == file[c].rule
  {
    var n := |file| - 1;
    if c < n {
      LinesStay(rules, file[..n], c);
    }
  }

  predicate Overtakes(rules: Resources, file: RuleFile, n: nat)
    requires n < |file|
  {
    file[n].table < N && |Wanted(rules, file[n].table)| + |LinesFor(file[..n], file[n].table)| < n
  }

  lemma OvertakesNow(rules: Resources, file: RuleFile, n: nat)
    requires n < |file| && LoadedBy(rules, file[..n], true).Some?
    ensures LineLoaded(LoadedBy(rules, file[..n], true).value, file[n], n, true).None? <==> Overtakes(rules, file, n)
  {
    hide LoadedBy, LinesFor;
    if file[n].table < N {
      LoadedCounts(rules, file[..n], true, file[n].table);
    }
  }

  lemma OvertakesBefore(rules: Resources, file: RuleFile, n: nat)
    requires n <= |file|
    ensures forall m :: 0 <= m < n ==> (Overtakes(rules, file, m) <==> Overtakes(rules, file[..n], m))
  {
    hide LinesFor, Wanted;
    forall m | 0 <= m < n ensures Overtakes(rules, file, m) <==> Overtakes(rules, file[..n], m) {
      assert file[..n][..m] == file[..m];
    }
  }

  /** Exactly when the pre file leaves a hole: some line has more lines for other tables
      before it than its own table had rules. */
  lemma {:induction false} HoleIff(rules: Resources, file: RuleFile)
    ensures LoadedBy(rules, file, true).None? <==> exists n :: 0 <= n < |file| && Overtakes(rules, file, n)
  {
    hide Overtakes, LineLoaded;
    if file != [] {
      var n := |file| - 1;
      HoleIff(rules, file[..n]);
      OvertakesBefore(rules, file, n);
      if LoadedBy(rules, file[..n], true).Some? {
        OvertakesNow(rules, file, n);
      } else {
        var m :| 0 <= m < n && Overtakes(rules, file[..n], m);
        assert Overtakes(rules, file, m);
      }
    }
  }

  /** A pre file for two tables, the second of which has no resources. */
  lemma TwoTablesFail(a: Rule, b: Rule)
    ensures LoadedBy([Undeclared, Undeclared, Undeclared, Undeclared], [FileLine(0, a), FileLine(1, b)], true) == None
  {
    var file := [FileLine(0, a), FileLine(1, b)];
    assert file[..1] == [FileLine(0, a)];
    assert LinesFor(file[..1], 1) == [] by { assert LinesFor([], 1) == []; assert file[..1][..0] == []; }
    assert Overtakes([Undeclared, Undeclared, Undeclared, Undeclared], file, 1);
    HoleIff([Undeclared, Undeclared, Undeclared, Undeclared], file);
  }

  lemma {:induction false} HoleStays(rules: Resources, file: RuleFile, n: nat, prepend: bool)
    requires n <= |file| && LoadedBy(rules, file[..n], prepend).None?
    ensures LoadedBy(rules, file, prepend).None?
    decreases |file|
  {
    if n < |file| {
      assert file[..|file| - 1][..n] == file[..n];
      HoleStays(rules, file[..|file| - 1], n, prepend);
    } else {
      assert file[..n] == file;
    }
  }

  /** In each table whose lines lead the pre file: the pre file, the sorted resources,
      the post file. */
  lemma AssembledTable(sorted: Declarations, pre: RuleFile, post: RuleFile, t: nat)
    requires t < N && Leading(pre, t) && Assembled(sorted, pre, post).Some?
    ensures Wanted(Assembled(sorted, pre, post).value, t)
      == LinesFor(pre, t) + Wanted(StrippedAll(sorted), t) + LinesFor(post, t)
  {
    LeadingLines(StrippedAll(sorted), pre, t);
    PushedLines(LoadedBy(StrippedAll(sorted), pre, true).value, post, t);
  }

  /** No rule of `b` belongs to a chain that is printed before the chain of a rule of `a`. */
  ghost predicate Before(order: seq<Chain>, a: seq<Rule>, b: seq<Rule>) {
    forall r, q :: r in a && q in b ==> Position(order, r.chain) <= Position(order, q.chain)
  }

  lemma PrintOrderAppend(order: seq<Chain>, a: seq<Rule>, b: seq<Rule>)
    ensures InPrintOrder(order, a + b) <==> InPrintOrder(order, a) && InPrintOrder(order, b) && Before(order, a, b)
  {
    var d := a + b;
    if InPrintOrder(order, d) {
      forall i | 0 <= i < |a| ensures a[i].chain in order { assert d[i] == a[i]; }
      forall i, j | 0 <= i < j < |a| ensures Position(order, a[i].chain) <= Position(order, a[j].chain) {
        assert d[i] == a[i] && d[j] == a[j];
      }
      forall i | 0 <= i < |b| ensures b[i].chain in order { assert d[|a| + i] == b[i]; }
      forall i, j | 0 <= i < j < |b| ensures Position(order, b[i].chain) <= Position(order, b[j].chain) {
        assert d[|a| + i] == b[i] && d[|a| + j] == b[j];
      }
      forall r, q | r in a && q in b ensures Position(order, r.chain) <= Position(order, q.chain) {
        var i :| 0 <= i < |a| && a[i] == r;
        var j :| 0 <= j < |b| && b[j] == q;
        assert d[i] == r && d[|a| + j] == q;
      }
    }
  }

  /** The table prints the chains of the resources by priority. */
  ghost predicate PrintsByPriority(order: seq<Chain>, given: seq<Resource>) {
    && (forall r :: r in given ==> r.rule.chain in order)
    && (forall r, q :: r in given && q in given && ChainPriority(r.rule.chain) <= ChainPriority(q.rule.chain) ==>
          Position(order, r.rule.chain) <= Position(order, q.rule.chain))
  }

  lemma PriorityLayout(order: seq<Chain>, given: seq<Resource>)
    requires forall i, j :: 0 <= i < j < |order| ==> ChainPriority(order[i]) < ChainPriority(order[j])
    requires forall r :: r in given ==> r.rule.chain in order
    ensures PrintsByPriority(order, given)
  {
    forall r, q | r in given && q in given && ChainPriority(r.rule.chain) <= ChainPriority(q.rule.chain)
      ensures Position(order, r.rule.chain) <= Position(order, q.rule.chain)
    {
      PositionFinds(order, r.rule.chain);
      PositionFinds(order, q.rule.chain);
    }
  }

  lemma SortingByPriority(given: seq<Resource>, sorted: seq<Resource>, order: seq<Chain>)
    requires IsSorting(given, sorted) && PrintsByPriority(order, given)
    ensures InPrintOrder(order, RulesOnly(sorted))
  {
    var d := RulesOnly(sorted);
    forall i | 0 <= i < |sorted| ensures sorted[i] in given {
      assert sorted[i] in multiset(sorted);
    }
    forall i, j | 0 <= i < j < |d| ensures Position(order, d[i].chain) <= Position(order, d[j].chain) {
      assert KeyLe(sorted[i], sorted[j]);
    }
  }

  /** The files are in print order themselves, and the pre file has no rule of a chain
      printed after one of the resources or of the post file, nor the resources one
      printed after one of the post file. */
  ghost predicate Fits(order: seq<Chain>, pre: seq<Rule>, own: seq<Rule>, post: seq<Rule>) {
    && InPrintOrder(order, pre) && InPrintOrder(order, post)
    && Before(order, pre, own) && Before(order, own, post) && Before(order, pre, post)
  }

  lemma FitsIff(order: seq<Chain>, pre: seq<Rule>, own: seq<Rule>, post: seq<Rule>)
    requires InPrintOrder(order, own)
    ensures InPrintOrder(order, pre + own + post) <==> Fits(order, pre, own, post)
  {
    hide InPrintOrder, Position;
    PrintOrderAppend(order, pre, own);
    PrintOrderAppend(order, pre + own, post);
    BeforeAppend(order, pre, own, post);
  }

  /** When the assembled list of a table that prints its chains by priority is in print
      order, whatever the sort does with equal keys. */
  lemma AssembledInPrintOrderIff(order: seq<Chain>, given: seq<Resource>, sorted: seq<Resource>,
      pre: seq<Rule>, post: seq<Rule>)
    requires IsSorting(given, sorted) && PrintsByPriority(order, given)
    ensures InPrintOrder(order, pre + RulesOnly(sorted) + post) <==> Fits(order, pre, RulesOnly(sorted), post)
  {
    SortingByPriority(given, sorted, order);
    FitsIff(order, pre, RulesOnly(sorted), post);
  }

  ghost predicate AllPrintByPriority(layout: Layout, given: Declarations) {
    forall t :: 0 <= t < N && given[t].Some? ==> PrintsByPriority(layout[t], given[t].value)
  }

  ghost predicate AllFit(layout: Layout, sorted: Declarations, pre: RuleFile, post: RuleFile) {
    forall t :: 0 <= t < N ==> Fits(layout[t], LinesFor(pre, t), Wanted(StrippedAll(sorted), t), LinesFor(post, t))
  }

  lemma TableFitsIff(layout: Layout, given: Declarations, sorted: Declarations, pre: RuleFile, post: RuleFile, t: nat)
    requires AllSorted(given, sorted) && AllPrintByPriority(layout, given)
    requires t < N && Leading(pre, t) && Assembled(sorted, pre, post).Some?
    ensures var rules := Assembled(sorted, pre, post).value;
      (rules[t].Declared? ==> InPrintOrder(layout[t], rules[t].rules)) <==>
        Fits(layout[t], LinesFor(pre, t), Wanted(StrippedAll(sorted), t), LinesFor(post, t))
  {
    var rules, own := Assembled(sorted, pre, post).value, Wanted(StrippedAll(sorted), t);
    if given[t].Some? {
      SortingByPriority(given[t].value, sorted[t].value, layout[t]);
    }
    assert InPrintOrder(layout[t], own);
    AssembledTable(sorted, pre, post, t);
    FitsIff(layout[t], LinesFor(pre, t), own, LinesFor(post, t));
    assert rules[t].Declared? ==> rules[t].rules == Wanted(rules, t);
  }

  /** From the inputs of `finalize` to the quiet second run: with a pre file for one
      table, and tables that print the chains of the resources by priority, a second run
      issues no command if and only if the first did not reload or the files fit. */
  lemma SecondFinalizeQuietIff(layout: Layout, kernel: Kernel, given: Declarations, sorted: Declarations,
      pre: RuleFile, post: RuleFile)
    requires ValidKernel(layout, kernel) && AllSorted(given, sorted) && AllPrintByPriority(layout, given)
    requires Assembled(sorted, pre, post).Some? && forall t :: 0 <= t < N ==> Leading(pre, t)
    ensures var rules := Assembled(sorted, pre, post).value;
      CommandCount(layout, FinalKernel(layout, kernel, rules), rules) == 0 <==>
        (Differs(layout, AfterDeletes(kernel, rules), rules) ==> AllFit(layout, sorted, pre, post))
  {
    hide CommandCount, FinalKernel, Differs, AfterDeletes, Assembled, InPrintOrder, Fits, AllSorted, AllPrintByPriority,
      ValidKernel, Wanted, LinesFor, Leading, StrippedAll;
    SecondRunQuiet(layout, kernel, Assembled(sorted, pre, post).value);
    forall t | 0 <= t < N
      ensures var rules := Assembled(sorted, pre, post).value;
        (rules[t].Declared? ==> InPrintOrder(layout[t], rules[t].rules)) <==>
          Fits(layout[t], LinesFor(pre, t), Wanted(StrippedAll(sorted), t), LinesFor(post, t))
    {
      TableFitsIff(layout, given, sorted, pre, post, t);
    }
  }

  lemma BeforeAppend(order: seq<Chain>, a: seq<Rule>, b: seq<Rule>, c: seq<Rule>)
    ensures Before(order, a + b, c) <==> Before(order, a, c) && Before(order, b, c)
  {
    assert forall r :: r in a + b <==> r in a || r in b;
  }

  /** A pre file with a rule for `OUTPUT`, put before a resource for `INPUT`, makes every
      run reload: nothing was wrong with the kernel, and the second run still has
      commands to issue. */
  lemma SecondRunIsNotAlwaysQuiet(out: Rule, input: Rule)
    requires out.chain == "OUTPUT" && input.chain == "INPUT"
    ensures var layout: Layout := [["INPUT", "OUTPUT"], [], [], []];
      var kernel: Kernel := [map["INPUT" := [], "OUTPUT" := []], map[], map[], map[]];
      var rules: Resources := [Declared([out] + [input]), Undeclared, Undeclared, Undeclared];
      && ValidKernel(layout, kernel)
      && CommandCount(layout, FinalKernel(layout, kernel, rules), rules) > 0
  {
    var layout: Layout := [["INPUT", "OUTPUT"], [], [], []];
    var kernel: Kernel := [map["INPUT" := [], "OUTPUT" := []], map[], map[], map[]];
    var d := [out] + [input];
    var rules: Resources := [Declared(d), Undeclared, Undeclared, Undeclared];
    SampleKernel(layout, kernel, d);
    assert rules[0].Declared? && rules[0].rules == d && Wanted(rules, 0) == d;
    assert AfterDeletes(kernel, rules)[0] == Kept(kernel[0], d);
    assert !(rules[0].rules <= Print(layout[0], AfterDeletes(kernel, rules)[0]));
    assert Differs(layout, AfterDeletes(kernel, rules), rules);
    hide CommandCount, FinalKernel, Differs, ValidKernel, AfterDeletes, Print, InPrintOrder;
    SecondRunQuiet(layout, kernel, rules);
  }

  lemma SampleKernel(layout: Layout, kernel: Kernel, d: seq<Rule>)
    requires layout == [["INPUT", "OUTPUT"], [], [], []]
    requires kernel == [map["INPUT" := [], "OUTPUT" := []], map[], map[], map[]]
    requires |d| == 2 && d[0].chain == "OUTPUT" && d[1].chain == "INPUT"
    ensures ValidKernel(layout, kernel)
    ensures Print(layout[0], Kept(kernel[0], d)) == []
    ensures !InPrintOrder(layout[0], d)
  {
    var order := layout[0];
    assert order[0] == "INPUT" && order[1] == "OUTPUT";
    assert order[1..] == ["OUTPUT"] && order[1..][1..] == [];
    assert "INPUT" != "OUTPUT" by { assert "INPUT"[0] == 'I' && "OUTPUT"[0] == 'O'; }
    assert Kept(kernel[0], d) == map["INPUT" := [], "OUTPUT" := []];
    assert Print(order[1..], Kept(kernel[0], d)) == [];
    assert Position(order[1..], "OUTPUT") == 0 && Position(order, "OUTPUT") == 1 && Position(order, "INPUT") == 0;
  }
}
