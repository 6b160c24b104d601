/** The `shuffle` parser function: an in-place Fisher-Yates shuffle. The random
    numbers are a parameter: `choices[i]` is the value of `rand(elements - i)`. */
module Shuffle {

  /** The i-th choice is below the number of elements not yet placed. */
  ghost predicate ValidChoices(choices: seq<nat>, n: nat) {
    |choices| == n && forall i :: 0 <= i < n ==> choices[i] < n - i
  }

  /** The rest of a list after its first element is swapped with the one at `j`. */
  function SwappedRest<T>(s: seq<T>, j: nat): seq<T>
    requires j < |s|
  {
    if j == 0 then s[1..] else s[1..][j - 1 := s[0]]
  }

  function Shuffled<T>(s: seq<T>, choices: seq<nat>): (r: seq<T>)
    requires ValidChoices(choices, |s|)
    ensures |r| == |s|
    decreases |s|
  {
    if s == [] then [] else [s[choices[0]]] + Shuffled(SwappedRest(s, choices[0]), choices[1..])
  }

  lemma ShuffledHead<T>(s: seq<T>, choices: seq<nat>)
    requires s != [] && ValidChoices(choices, |s|)
    ensures ValidChoices(choices[1..], |s| - 1)
    ensures Shuffled(s, choices) == [s[choices[0]]] + Shuffled(SwappedRest(s, choices[0]), choices[1..])
  {}

  lemma SwapParts<T>(now: seq<T>, i: nat, j: nat, next: seq<T>)
    requires i <= j < |now|
    requires next == now[j := now[i]][i := now[j]]
    ensures next[..i + 1] == now[..i] + [now[i..][j - i]]
    ensures next[i + 1..] == SwappedRest(now[i..], j - i)
  {}

  /** One swap, seen from the part of the list that is still to be placed. */
  lemma SwapStep<T>(now: seq<T>, i: nat, j: nat, next: seq<T>, choices: seq<nat>)
    requires i <= j < |now| && |choices| == |now| && choices[i] == j - i
    requires next == now[j := now[i]][i := now[j]]
    requires ValidChoices(choices[i..], |now| - i)
    ensures ValidChoices(choices[i + 1..], |now| - i - 1)
    ensures now[..i] + Shuffled(now[i..], choices[i..]) == next[..i + 1] + Shuffled(next[i + 1..], choices[i + 1..])
  {
    hide *;
    assert choices[i..][0] == j - i && choices[i..][1..] == choices[i + 1..];
    ShuffledHead(now[i..], choices[i..]);
    SwapParts(now, i, j, next);
  }

  method ShuffleInPlace<T>(result: array<T>, choices: seq<nat>)
    requires ValidChoices(choices, result.Length)
    modifies result
    ensures result[..] == Shuffled(old(result[..]), choices)
  {
    hide Shuffled, SwappedRest;
    ghost var was := result[..];
    assert choices[0..] == choices && result[0..] == was;
    // a list of at most one element is returned as it is
    if result.Length <= 1 {
      ShortList(was, choices);
      return;
    }
    var elements := result.Length;
    for i := 0 to elements
      invariant ValidChoices(choices[i..], elements - i)
      invariant Shuffled(was, choices) == result[..i] + Shuffled(result[i..], choices[i..])
    {
      var j := choices[i] + i;
      ghost var now := result[..];
      assert now[..i] == result[..i] && now[i..] == result[i..];
      result[j], result[i] := result[i], result[j];
      SwapStep(now, i, j, result[..], choices);
      assert result[..][..i + 1] == result[..i + 1] && result[..][i + 1..] == result[i + 1..];
    }
    assert result[..elements] == result[..];
  }

  lemma ShortList<T>(s: seq<T>, choices: seq<nat>)
    requires |s| <= 1 && ValidChoices(choices, |s|)
    ensures Shuffled(s, choices) == s
  {
    if s != [] { assert Shuffled(SwappedRest(s, 0), choices[1..]) == []; }
  }

  /** The swaps from position `i` on, one after the other: of the element at each position
      with the one as many places further on as was chosen. */
  function AfterSwaps<T>(s: seq<T>, choices: seq<nat>, i: nat): seq<T>
    requires i <= |s| == |choices| && forall k :: i <= k < |s| ==> choices[k] < |s| - k
    decreases |s| - i
  {
    if i == |s| then s
    else
      var j := i + choices[i];
      AfterSwaps(s[i := s[j]][j := s[i]], choices, i + 1)
  }

  /** The result, stated from the front of the list, is that of the swaps in place. */
  lemma {:induction false} ShuffledIsSwaps<T>(s: seq<T>, choices: seq<nat>, i: nat)
    requires i <= |s| == |choices| && forall k :: i <= k < |s| ==> choices[k] < |s| - k
    ensures s[..i] + Shuffled(s[i..], choices[i..]) == AfterSwaps(s, choices, i)
    decreases |s| - i
  {
    hide Shuffled;
    if i < |s| {
      var j := i + choices[i];
      var next := s[i := s[j]][j := s[i]];
      SwapEitherWay(s, i, j);
      SwapStep(s, i, j, next, choices);
      ShuffledIsSwaps(next, choices, i + 1);
    } else {
      NothingToPlace(s, choices);
    }
  }

  lemma SwapEitherWay<T>(s: seq<T>, i: nat, j: nat)
    requires i < |s| && j < |s|
    ensures s[i := s[j]][j := s[i]] == s[j := s[i]][i := s[j]]
  {}

  lemma NothingToPlace<T>(s: seq<T>, choices: seq<nat>)
    requires |choices| == |s|
    ensures ValidChoices(choices[|s|..], |s[|s|..]|)
    ensures s[..|s|] + Shuffled(s[|s|..], choices[|s|..]) == s
  {}

  ghost predicate Distinct<T>(s: seq<T>) {
    forall i, j :: 0 <= i < j < |s| ==> s[i] != s[j]
  }

  function IndexOf<T(==)>(s: seq<T>, x: T): (i: nat)
    requires x in s
    ensures i < |s| && s[i] == x
  {
    if s[0] == x then 0 else 1 + IndexOf(s[1..], x)
  }

  /** The choices that turn `s` into `p`. */
  function ChoicesFor<T(==)>(s: seq<T>, p: seq<T>): (choices: seq<nat>)
    requires multiset(s) == multiset(p)
    ensures ValidChoices(choices, |s|)
    decreases |p|
  {
    if p == [] then
      assert |multiset(s)| == |s|; []
    else
      assert p[0] in multiset(p);
      var j := IndexOf(s, p[0]);
      SwappedRestMultiset(s, j);
      assert p == [p[0]] + p[1..];
      [j] + ChoicesFor(SwappedRest(s, j), p[1..])
  }

  lemma SwappedRestMultiset<T>(s: seq<T>, j: nat)
    requires j < |s|
    ensures multiset(SwappedRest(s, j)) == multiset(s) - multiset{s[j]}
  {
    assert s == [s[0]] + s[1..];
    if j > 0 {
      assert multiset(s[1..][j - 1 := s[0]]) == multiset(s[1..]) - multiset{s[j]} + multiset{s[0]};
    }
  }

  lemma SwappedRestDistinct<T>(s: seq<T>, j: nat)
    requires Distinct(s) && j < |s|
    ensures Distinct(SwappedRest(s, j))
  {}

  /** Every result is a rearrangement of the list. */
  lemma {:induction false} ShuffledIsPermutation<T>(s: seq<T>, choices: seq<nat>)
    requires ValidChoices(choices, |s|)
    ensures multiset(Shuffled(s, choices)) == multiset(s)
    decreases |s|
  {
    if s != [] {
      SwappedRestMultiset(s, choices[0]);
      ShuffledIsPermutation(SwappedRest(s, choices[0]), choices[1..]);
    }
  }

  /** Every rearrangement is reached. */
  lemma {:induction false} EveryPermutationReached<T>(s: seq<T>, p: seq<T>)
    requires multiset(s) == multiset(p)
    ensures Shuffled(s, ChoicesFor(s, p)) == p
    decreases |p|
  {
    if p == [] {
      assert |multiset(s)| == |s|;
    } else {
      assert p[0] in multiset(p);
      var j := IndexOf(s, p[0]);
      SwappedRestMultiset(s, j);
      assert p == [p[0]] + p[1..];
      EveryPermutationReached(SwappedRest(s, j), p[1..]);
      assert ChoicesFor(s, p)[1..] == ChoicesFor(SwappedRest(s, j), p[1..]);
    }
  }

  /** And by one choice vector only, when the elements are distinct. */
  lemma {:induction false} ReachedOnce<T>(s: seq<T>, choices: seq<nat>)
    requires Distinct(s) && ValidChoices(choices, |s|)
    ensures multiset(Shuffled(s, choices)) == multiset(s)
    ensures ChoicesFor(s, Shuffled(s, choices)) == choices
    decreases |s|
  {
    ShuffledIsPermutation(s, choices);
    if s != [] {
      var j := choices[0];
      var rest := SwappedRest(s, j);
      SwappedRestDistinct(s, j);
      ReachedOnce(rest, choices[1..]);
      assert Shuffled(s, choices)[1..] == Shuffled(rest, choices[1..]);
      assert IndexOf(s, s[j]) == j;
    }
  }

  /** Shuffling is a bijection from choice vectors to rearrangements: with every
      vector equally likely, so is every rearrangement. */
  lemma ShuffleIsBijection<T>(s: seq<T>, p: seq<T>)
    requires Distinct(s)
    ensures multiset(p) == multiset(s) <==> exists choices :: ValidChoices(choices, |s|) && Shuffled(s, choices) == p
    ensures forall c, d :: ValidChoices(c, |s|) && ValidChoices(d, |s|) && Shuffled(s, c) == Shuffled(s, d) ==> c == d
  {
    if multiset(p) == multiset(s) {
      EveryPermutationReached(s, p);
      assert ValidChoices(ChoicesFor(s, p), |s|) && Shuffled(s, ChoicesFor(s, p)) == p;
    }
    forall c | ValidChoices(c, |s|)
      ensures multiset(Shuffled(s, c)) == multiset(s) && ChoicesFor(s, Shuffled(s, c)) == c
    {
      ReachedOnce(s, c);
    }
  }
}
