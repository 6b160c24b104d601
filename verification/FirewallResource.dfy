/** The `iptables` Puppet resource type: its class-level state, and the commands with
    which `finalize` drives the kernel's rule tables to the declared lists. */
module FirewallResource {
  import opened FirewallKernel
  import opened FirewallLists
  import opened Lists
  import opened Wrappers

  /** The class-level state of the resource type together with the kernel it
      drives and the log of commands it has run. */
  class ResourceType {
    const noop: bool
    const layout: Layout
    var rules: Resources
    var currentRules: Printed
    var kernel: Kernel
    var commands: seq<Command>
    var finalized: bool
    /** Whether there is a command to persist rules, and Puppet as a whole runs it. */
    const canSave: bool
    var saves: nat

    constructor (noop: bool, canSave: bool, layout: Layout, kernel: Kernel)
      ensures this.noop == noop && this.canSave == canSave && this.layout == layout && this.kernel == kernel
      ensures rules == [Undeclared, Undeclared, Undeclared, Undeclared]
      ensures commands == [] && saves == 0 && !finalized
    {
      this.noop, this.canSave, this.layout, this.kernel := noop, canSave, layout, kernel;
      rules, currentRules := [Undeclared, Undeclared, Undeclared, Undeclared], [[], [], [], []];
      commands, saves, finalized := [], 0, false;
    }

    /** `ok` is false when a line leaves a hole in a list. */
    method LoadRulesFromFile(file: RuleFile, prepend: bool) returns (ok: bool)
      modifies this`rules
      ensures ok == LoadedBy(old(rules), file, prepend).Some?
      ensures ok ==> rules == LoadedBy(old(rules), file, prepend).value
    {
      hide LoadedBy;
      LoadedNone(rules, prepend);
      assert file[..0] == [];
      var counter := 0;
      while counter < |file|
        invariant counter <= |file|
        invariant LoadedBy(old(rules), file[..counter], prepend) == Some(rules)
      {
        var line := file[counter];
        LoadedNext(old(rules), file, counter, prepend);
        if line.table < N {
          var now := Wanted(rules, line.table);
          if !prepend {
            rules := rules[line.table := Declared(now + [line.rule])];
          } else if counter <= |now| {
            rules := rules[line.table := Declared(now[..counter] + [line.rule] + now[counter..])];
          } else {
            HoleStays(old(rules), file, counter + 1, prepend);
            return false;
          }
        }
        counter := counter + 1;
      }
      assert file[..|file|] == file;
      return true;
    }

    /** The first part of `finalize`: `sorted` is what the sort made of `given`. */
    method Assemble(ghost given: Declarations, sorted: Declarations, pre: RuleFile, post: RuleFile) returns (ok: bool)
      requires AllSorted(given, sorted)
      modifies this`rules
      ensures ok == Assembled(sorted, pre, post).Some?
      ensures ok ==> rules == Assembled(sorted, pre, post).value
    {
      for t := 0 to N
        invariant forall k :: 0 <= k < t ==> rules[k] == Stripped(sorted[k])
      {
        rules := rules[t := Stripped(sorted[t])];
      }
      assert rules == StrippedAll(sorted);
      ok := LoadRulesFromFile(pre, true);
      if ok {
        ok := LoadRulesFromFile(post, false);
      }
    }

    /** Runs one `iptables` command: the log and the kernel go together. */
    method Execute(c: Command)
      modifies this`kernel, this`commands
      ensures kernel == Executed(old(kernel), c) && commands == old(commands) + [c]
      ensures Follows(old(kernel), old(commands), kernel, commands)
    {
      FollowsOne(kernel, commands, c);
      commands := commands + [c];
      kernel := Executed(kernel, c);
    }

    /** One round of deletions over the four tables. */
    method DeleteNotMatchedRules() returns (deleted: nat)
      modifies this`kernel, this`commands, this`currentRules
      ensures noop ==> deleted == 0 && kernel == old(kernel) && commands == old(commands)
      ensures !noop ==> OnePass(layout, old(kernel), kernel, rules)
      ensures !noop ==> deleted == Sum(LineCounts(layout, old(kernel), rules))
      ensures |commands| == |old(commands)| + deleted && Follows(old(kernel), old(commands), kernel, commands)
      ensures !noop ==> commands == old(commands) + DeletesUpTo(layout, old(kernel), rules, N)
    {
      hide Purged, Stale, Lines, Print, Sum, Wanted, Follows, Deletes;
      FollowsSame(kernel, commands);
      deleted := 0;
      assert Sum(LineCounts(layout, kernel, rules)[..0]) == 0 by { NoSum(LineCounts(layout, kernel, rules)); }
      LoadCurrentRules(false);
      ghost var loaded := currentRules;
      for i := 0 to N
        invariant currentRules == loaded
        invariant forall t :: i <= t < N ==> kernel[t] == old(kernel)[t]
        invariant noop ==> deleted == 0 && kernel == old(kernel) && commands == old(commands)
        invariant !noop ==> forall t :: 0 <= t < i ==> kernel[t] == Passed(layout, old(kernel), rules, t)
        invariant !noop ==> deleted == Sum(LineCounts(layout, old(kernel), rules)[..i])
        invariant |commands| == |old(commands)| + deleted && Follows(old(kernel), old(commands), kernel, commands)
        invariant !noop ==> commands == old(commands) + DeletesUpTo(layout, old(kernel), rules, i)
      {
        SumPrefix(LineCounts(layout, old(kernel), rules), i);
        ghost var k, c := kernel, commands;
        var n := DeleteUnmarked(i, currentRules[i]);
        FollowsOn(old(kernel), old(commands), k, c, kernel, commands);
        deleted := deleted + n;
      }
      assert LineCounts(layout, old(kernel), rules)[..N] == LineCounts(layout, old(kernel), rules);
    }

    /** The body of that round for one table: mark, then delete what is unmarked. */
    method DeleteUnmarked(t: nat, lines: seq<Rule>) returns (deleted: nat)
      requires t < N
      modifies this`kernel, this`commands
      ensures noop ==> deleted == 0 && kernel == old(kernel) && commands == old(commands)
      ensures !noop ==> kernel == old(kernel)[t := Purged(old(kernel)[t], lines, Wanted(rules, t))]
      ensures !noop ==> deleted == |Stale(lines, Wanted(rules, t))|
      ensures |commands| == |old(commands)| + deleted && Follows(old(kernel), old(commands), kernel, commands)
      ensures !noop ==> commands == old(commands) + Deletes(t, Stale(lines, Wanted(rules, t)))
    {
      hide Follows, Stale, Purged, Deletes, Delete;
      FollowsSame(kernel, commands);
      var keep: set<Rule> := {};
      var d := Wanted(rules, t);
      for i := 0 to |d|
        invariant forall r :: r in keep <==> r in d[..i] && r in lines
      {
        if d[i] in lines { keep := keep + {d[i]}; }
      }
      deleted := 0;
      NothingDeleted(t, kernel, lines, d);
      for i := 0 to |lines|
        invariant noop ==> deleted == 0 && kernel == old(kernel) && commands == old(commands)
        invariant !noop ==> kernel == old(kernel)[t := Purged(old(kernel)[t], lines[..i], d)]
        invariant !noop ==> deleted == |Stale(lines[..i], d)|
        invariant |commands| == |old(commands)| + deleted && Follows(old(kernel), old(commands), kernel, commands)
        invariant !noop ==> commands == old(commands) + Deletes(t, Stale(lines[..i], d))
      {
        DeletesNext(t, old(kernel)[t], lines, i, d);
        if lines[i] !in keep && !noop {
          ghost var k, c := kernel, commands;
          Execute(DeleteRule(t, lines[i]));
          FollowsOn(old(kernel), old(commands), k, c, kernel, commands);
          deleted := deleted + 1;
        }
      }
      assert lines[..|lines|] == lines;
    }

    /** `iptables-save`, read into a hash: keyed by line, or by number and line. */
    method LoadCurrentRules(numbered: bool)
      modifies this`currentRules
      ensures forall t :: 0 <= t < N ==> currentRules[t] == Listing(layout[t], kernel[t], numbered)
    {
      for i := 0 to N
        invariant forall t :: 0 <= t < i ==> currentRules[t] == Listing(layout[t], kernel[t], numbered)
      {
        var loaded := LoadTable(Print(layout[i], kernel[i]), numbered);
        currentRules := currentRules[i := loaded];
      }
    }

    static method LoadTable(printed: seq<Rule>, numbered: bool) returns (loaded: seq<Rule>)
      ensures loaded == if numbered then printed else Lines(printed)
    {
      loaded := [];
      for k := 0 to |printed|
        invariant loaded == if numbered then printed[..k] else Lines(printed[..k])
      {
        assert printed[..k + 1][..k] == printed[..k];
        if numbered || printed[k] !in loaded { loaded := loaded + [printed[k]]; }
      }
      assert printed[..|printed|] == printed;
    }

    method RulesAreDifferent() returns (different: bool)
      modifies this`currentRules
      ensures different == Differs(layout, kernel, rules)
      ensures forall t :: 0 <= t < N ==> currentRules[t] == Print(layout[t], kernel[t])
    {
      LoadCurrentRules(true);
      for i := 0 to N
        invariant forall t :: 0 <= t < i && rules[t].Declared? ==> rules[t].rules <= currentRules[t]
      {
        if rules[i].Declared? {
          var d := rules[i].rules;
          for k := 0 to |d|
            invariant d[..k] <= currentRules[i]
          {
            if |currentRules[i]| <= k || currentRules[i][k] != d[k] {
              assert !(d <= currentRules[i]);
              return true;
            }
          }
          assert d[..|d|] == d;
        }
      }
      return false;
    }

    method AddDeclared()
      requires !noop
      modifies this`kernel, this`commands
      ensures forall t :: 0 <= t < N ==> kernel[t] == Appended(old(kernel)[t], Wanted(rules, t))
      ensures |commands| == |old(commands)| + Sum(WantedCounts(rules))
      ensures commands == old(commands) + AddsUpTo(rules, N) && Follows(old(kernel), old(commands), kernel, commands)
    {
      hide Follows, Appended, Sum;
      FollowsSame(kernel, commands);
      NoSum(WantedCounts(rules));
      for i := 0 to N
        invariant forall t :: 0 <= t < i ==> kernel[t] == Appended(old(kernel)[t], Wanted(rules, t))
        invariant forall t :: i <= t < N ==> kernel[t] == old(kernel)[t]
        invariant |commands| == |old(commands)| + Sum(WantedCounts(rules)[..i])
        invariant commands == old(commands) + AddsUpTo(rules, i)
        invariant Follows(old(kernel), old(commands), kernel, commands)
      {
        SumPrefix(WantedCounts(rules), i);
        ghost var k, c := kernel, commands;
        AddAll(i);
        FollowsOn(old(kernel), old(commands), k, c, kernel, commands);
      }
      assert WantedCounts(rules)[..N] == WantedCounts(rules);
    }

    method AddAll(t: nat)
      requires !noop && t < N
      modifies this`kernel, this`commands
      ensures kernel == old(kernel)[t := Appended(old(kernel)[t], Wanted(rules, t))]
      ensures commands == old(commands) + Adds(t, Wanted(rules, t))
      ensures Follows(old(kernel), old(commands), kernel, commands)
    {
      hide Follows;
      FollowsSame(kernel, commands);
      var d := Wanted(rules, t);
      for k := 0 to |d|
        invariant kernel == old(kernel)[t := Appended(old(kernel)[t], d[..k])]
        invariant commands == old(commands) + Adds(t, d[..k]) && Follows(old(kernel), old(commands), kernel, commands)
      {
        assert d[..k + 1][..k] == d[..k];
        ghost var before, c := kernel, commands;
        Execute(AddRule(t, d[k]));
        FollowsOn(old(kernel), old(commands), before, c, kernel, commands);
        assert Adds(t, d[..k + 1]) == Adds(t, d[..k]) + [AddRule(t, d[k])];
      }
      assert d[..|d|] == d;
    }

    method DropOld()
      requires !noop
      modifies this`kernel, this`commands
      ensures forall t :: 0 <= t < N ==> kernel[t] == Beheaded(old(kernel)[t], currentRules[t])
      ensures |commands| == |old(commands)| + Sum(Lengths(currentRules))
      ensures commands == old(commands) + DropsUpTo(currentRules, N)
      ensures Follows(old(kernel), old(commands), kernel, commands)
    {
      hide Follows, Beheaded, Sum;
      FollowsSame(kernel, commands);
      NoSum(Lengths(currentRules));
      for i := 0 to N
        invariant forall t :: 0 <= t < i ==> kernel[t] == Beheaded(old(kernel)[t], currentRules[t])
        invariant forall t :: i <= t < N ==> kernel[t] == old(kernel)[t]
        invariant |commands| == |old(commands)| + Sum(Lengths(currentRules)[..i])
        invariant commands == old(commands) + DropsUpTo(currentRules, i)
        invariant Follows(old(kernel), old(commands), kernel, commands)
      {
        SumPrefix(Lengths(currentRules), i);
        ghost var k, c := kernel, commands;
        DropAll(i, currentRules[i]);
        FollowsOn(old(kernel), old(commands), k, c, kernel, commands);
      }
      assert Lengths(currentRules)[..N] == Lengths(currentRules);
    }

    method DropAll(t: nat, printed: seq<Rule>)
      requires !noop && t < N
      modifies this`kernel, this`commands
      ensures kernel == old(kernel)[t := Beheaded(old(kernel)[t], printed)]
      ensures commands == old(commands) + Drops(t, printed) && Follows(old(kernel), old(commands), kernel, commands)
    {
      hide Follows;
      FollowsSame(kernel, commands);
      for k := 0 to |printed|
        invariant kernel == old(kernel)[t := Beheaded(old(kernel)[t], printed[..k])]
        invariant commands == old(commands) + Drops(t, printed[..k])
        invariant Follows(old(kernel), old(commands), kernel, commands)
      {
        assert printed[..k + 1][..k] == printed[..k];
        ghost var before, c := kernel, commands;
        Execute(DeleteFirst(t, printed[k].chain));
        FollowsOn(old(kernel), old(commands), before, c, kernel, commands);
        assert Drops(t, printed[..k + 1]) == Drops(t, printed[..k]) + [DeleteFirst(t, printed[k].chain)];
      }
      assert printed[..|printed|] == printed;
    }

    /** Add every declared rule, then drop the rules that were there before. */
    method Reload()
      requires !noop && ValidKernel(layout, kernel)
      requires forall t :: 0 <= t < N ==> currentRules[t] == Print(layout[t], kernel[t])
      modifies this`kernel, this`commands
      ensures kernel == Reloaded(old(kernel), rules)
      ensures |commands| == |old(commands)| + Sum(WantedCounts(rules)) + Sum(PrintedCounts(layout, old(kernel)))
      ensures commands == old(commands) + AddsUpTo(rules, N) + DropsUpTo(currentRules, N)
      ensures Follows(old(kernel), old(commands), kernel, commands)
    {
      hide Appended, Beheaded, Regrouped, Print, Sum, Wanted, WellChained, Follows, AddsUpTo, DropsUpTo;
      assert Lengths(currentRules) == PrintedCounts(layout, kernel);
      AddDeclared();
      ghost var k, c := kernel, commands;
      DropOld();
      FollowsOn(old(kernel), old(commands), k, c, kernel, commands);
      forall t | 0 <= t < N ensures kernel[t] == Regrouped(old(kernel)[t], Wanted(rules, t)) {
        ReloadExact(layout[t], old(kernel)[t], Wanted(rules, t));
      }
    }

    /** The rounds of deletions, repeated because each round deletes one copy of
        a duplicated line only. */
    method DeleteUntilNoneLeft()
      requires ValidKernel(layout, kernel)
      modifies this`kernel, this`commands, this`currentRules
      ensures ValidKernel(layout, kernel)
      ensures Follows(old(kernel), old(commands), kernel, commands)
      ensures noop ==> kernel == old(kernel) && commands == old(commands)
      ensures !noop ==> kernel == AfterDeletes(old(kernel), rules)
      ensures !noop ==> |commands| == |old(commands)| + Sum(StaleCounts(layout, old(kernel), rules))
    {
      hide Follows, DeletesUpTo;
      ghost var start, total := kernel, |commands| + Sum(StaleCounts(layout, kernel, rules));
      var deleted := DeleteNotMatchedRules();
      if !noop { PassKernel(layout, start, kernel, rules); }
      while deleted > 0
        invariant ValidKernel(layout, kernel)
        invariant Follows(old(kernel), old(commands), kernel, commands)
        invariant noop ==> kernel == start && commands == old(commands) && deleted == 0
        invariant !noop ==> AfterDeletes(kernel, rules) == AfterDeletes(start, rules)
        invariant !noop ==> |commands| + Sum(StaleCounts(layout, kernel, rules)) == total
        invariant !noop && deleted == 0 ==>
          kernel == AfterDeletes(kernel, rules) && Sum(StaleCounts(layout, kernel, rules)) == 0
        decreases Sum(StaleCounts(layout, kernel, rules)), deleted
      {
        ghost var before, c := kernel, commands;
        deleted := DeleteNotMatchedRules();
        FollowsOn(old(kernel), old(commands), before, c, kernel, commands);
        PassKernel(layout, before, kernel, rules);
      }
    }

    /** Deletes what is not declared, reloads if something differs, and persists. */
    method Reconcile()
      requires ValidKernel(layout, kernel)
      modifies this`rules, this`kernel, this`commands, this`currentRules, this`saves
      ensures Follows(old(kernel), old(commands), kernel, commands)
      ensures noop ==> kernel == old(kernel) && commands == old(commands)
      ensures !noop ==> kernel == FinalKernel(layout, old(kernel), old(rules))
      ensures !noop ==> |commands| == |old(commands)| + CommandCount(layout, old(kernel), old(rules))
      ensures var compared := if noop then old(kernel) else AfterDeletes(old(kernel), old(rules));
        var different := Differs(layout, compared, old(rules));
        && rules == (if different then [Undeclared, Undeclared, Undeclared, Undeclared] else old(rules))
        && saves == old(saves) + if different && canSave then 1 else 0
    {
      hide ValidKernel, AfterDeletes, Reloaded, Sum, StaleCounts, WantedCounts, PrintedCounts, Follows, AddsUpTo,
        DropsUpTo;
      DeleteUntilNoneLeft();
      var different := RulesAreDifferent();
      if different {
        if !noop {
          ghost var k, c := kernel, commands;
          Reload();
          FollowsOn(old(kernel), old(commands), k, c, kernel, commands);
          ReloadAfterDeletes(layout, old(kernel), rules, kernel);
        }
        if canSave {
          saves := saves + 1;
        }
        rules := [Undeclared, Undeclared, Undeclared, Undeclared];
      }
    }

    /** Runs once all resources are declared. Outside noop mode the kernel ends in the
        closed form `FinalKernel` for the assembled lists; in noop mode no command is
        run on it. `ok` is false when it fails on a hole, before any command. */
    method Finalize(ghost given: Declarations, sorted: Declarations, pre: RuleFile, post: RuleFile) returns (ok: bool)
      requires ValidKernel(layout, kernel) && AllSorted(given, sorted)
      modifies this
      ensures ok == Assembled(sorted, pre, post).Some?
      ensures !ok ==> kernel == old(kernel) && commands == old(commands)
      ensures !ok ==> saves == old(saves) && finalized == old(finalized)
      ensures ok ==> finalized && Follows(old(kernel), old(commands), kernel, commands)
      ensures ok && noop ==> kernel == old(kernel) && commands == old(commands)
      ensures ok ==> var declared := Assembled(sorted, pre, post).value;
        var different := Differs(layout, if noop then old(kernel) else AfterDeletes(old(kernel), declared), declared);
        && (!noop ==> kernel == FinalKernel(layout, old(kernel), declared))
        && (!noop ==> |commands| == |old(commands)| + CommandCount(layout, old(kernel), declared))
        && rules == (if different then [Undeclared, Undeclared, Undeclared, Undeclared] else declared)
        && saves == old(saves) + if different && canSave then 1 else 0
    {
      hide *;
      ok := Assemble(given, sorted, pre, post);
      if ok {
        Reconcile();
        finalized := true;
      }
    }
  }
}
