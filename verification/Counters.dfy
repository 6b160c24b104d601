/** `compat.Counter`: a dictionary of counts in which a missing key counts zero. */
module Counters {

  type Counter<T> = map<T, int>

  function Get<T>(c: Counter<T>, e: T): int {
    if e in c then c[e] else 0
  }

  ghost predicate NonNegative<T(!new)>(c: Counter<T>) {
    forall e :: e in c ==> c[e] >= 0
  }

  function Updated<T>(a: Counter<T>, b: Counter<T>): Counter<T> {
    map e | e in a.Keys + b.Keys :: Get(a, e) + Get(b, e)
  }

  lemma UpdatedGet<T>(a: Counter<T>, b: Counter<T>, e: T)
    ensures Get(Updated(a, b), e) == Get(a, e) + Get(b, e)
  {}

  function Plus<T>(a: Counter<T>, b: Counter<T>): Counter<T> {
    map e | e in a.Keys + b.Keys && Get(a, e) + Get(b, e) > 0 :: Get(a, e) + Get(b, e)
  }

  function Minus<T>(a: Counter<T>, b: Counter<T>): Counter<T> {
    map e | e in a.Keys + b.Keys && Get(a, e) - Get(b, e) > 0 :: Get(a, e) - Get(b, e)
  }

  function Max(x: int, y: int): int {
    if x < y then y else x
  }

  function Min(x: int, y: int): int {
    if x < y then x else y
  }

  function Union<T>(a: Counter<T>, b: Counter<T>): Counter<T> {
    map e | e in a.Keys + b.Keys && Max(Get(a, e), Get(b, e)) > 0 :: Max(Get(a, e), Get(b, e))
  }

  function Intersection<T>(a: Counter<T>, b: Counter<T>): Counter<T> {
    map e | e in a.Keys * b.Keys && Min(Get(a, e), Get(b, e)) > 0 :: Min(Get(a, e), Get(b, e))
  }

  /** `update` with another counter, including the fast path for an empty one. */
  method Update<T(==)>(self: Counter<T>, other: Counter<T>) returns (result: Counter<T>)
    ensures result == Updated(self, other)
  {
    if self == map[] {
      return other;
    }
    result := self;
    var rest := other.Keys;
    while rest != {}
      invariant rest <= other.Keys
      invariant result.Keys == self.Keys + (other.Keys - rest)
      invariant forall e :: e in result ==> result[e] == Get(self, e) + if e in rest then 0 else Get(other, e)
    {
      var elem :| elem in rest;
      result := result[elem := Get(result, elem) + other[elem]];
      rest := rest - {elem};
    }
  }

  /** `update` with an iterable: one more for each element. */
  method UpdateFrom<T(==)>(self: Counter<T>, items: seq<T>) returns (result: Counter<T>)
    ensures result.Keys == self.Keys + set e | e in items
    ensures forall e :: e in result ==> result[e] == Get(self, e) + multiset(items)[e]
  {
    result := self;
    for i := 0 to |items|
      invariant result.Keys == self.Keys + set e | e in items[..i]
      invariant forall e :: e in result ==> result[e] == Get(self, e) + multiset(items[..i])[e]
    {
      assert items[..i + 1] == items[..i] + [items[i]];
      result := result[items[i] := Get(result, items[i]) + 1];
    }
    assert items[..|items|] == items;
  }

  /** `elements`: each key as often as its count, and not at all for a count of
      zero or less. */
  method Elements<T(==)>(self: Counter<T>) returns (items: seq<T>)
    ensures forall e :: multiset(items)[e] == Max(0, Get(self, e))
  {
    items := [];
    var rest := self.Keys;
    while rest != {}
      invariant rest <= self.Keys
      invariant forall e :: multiset(items)[e] == if e in rest then 0 else Max(0, Get(self, e))
    {
      var elem :| elem in rest;
      ghost var before := multiset(items);
      for n := 0 to Max(0, self[elem])
        invariant multiset(items) == before[elem := n]
      {
        items := items + [elem];
      }
      rest := rest - {elem};
    }
  }

  /** The operators build their result key by key. */
  method Add<T(==)>(self: Counter<T>, other: Counter<T>) returns (result: Counter<T>)
    ensures result == Plus(self, other)
  {
    result := map[];
    var rest := self.Keys + other.Keys;
    while rest != {}
      invariant rest <= self.Keys + other.Keys
      invariant result == map e | e in self.Keys + other.Keys - rest && Get(self, e) + Get(other, e) > 0 ::
        Get(self, e) + Get(other, e)
    {
      var elem :| elem in rest;
      var newcount := Get(self, elem) + Get(other, elem);
      if newcount > 0 { result := result[elem := newcount]; }
      rest := rest - {elem};
    }
  }

  method Sub<T(==)>(self: Counter<T>, other: Counter<T>) returns (result: Counter<T>)
    ensures result == Minus(self, other)
  {
    result := map[];
    var rest := self.Keys + other.Keys;
    while rest != {}
      invariant rest <= self.Keys + other.Keys
      invariant result == map e | e in self.Keys + other.Keys - rest && Get(self, e) - Get(other, e) > 0 ::
        Get(self, e) - Get(other, e)
    {
      var elem :| elem in rest;
      var newcount := Get(self, elem) - Get(other, elem);
      if newcount > 0 { result := result[elem := newcount]; }
      rest := rest - {elem};
    }
  }

  method Or<T(==)>(self: Counter<T>, other: Counter<T>) returns (result: Counter<T>)
    ensures result == Union(self, other)
  {
    result := map[];
    var rest := self.Keys + other.Keys;
    while rest != {}
      invariant rest <= self.Keys + other.Keys
      invariant result == map e | e in self.Keys + other.Keys - rest && Max(Get(self, e), Get(other, e)) > 0 ::
        Max(Get(self, e), Get(other, e))
    {
      var elem :| elem in rest;
      var newcount := Max(Get(self, elem), Get(other, elem));
      if newcount > 0 { result := result[elem := newcount]; }
      rest := rest - {elem};
    }
  }

  /** Iterates over the smaller operand; the swap does not show in the result. */
  method And<T(==)>(self: Counter<T>, other: Counter<T>) returns (result: Counter<T>)
    ensures result == Intersection(self, other)
  {
    result := map[];
    var a, b := self, other;
    if |a| < |b| { a, b := b, a; }
    var rest := b.Keys;
    while rest != {}
      invariant rest <= b.Keys
      invariant result == map e | e in (b.Keys - rest) * a.Keys && Min(Get(a, e), Get(b, e)) > 0 ::
        Min(Get(a, e), Get(b, e))
    {
      var elem :| elem in rest;
      if elem in a {
        var newcount := Min(a[elem], b[elem]);
        if newcount > 0 { result := result[elem := newcount]; }
      }
      rest := rest - {elem};
    }
  }

  /** What the operators give for one key, whatever the signs: the sum, the difference,
      the maximum and the minimum of the counts, where that is positive; a key that a
      counter lacks counts zero, and the result lacks every key that would not be
      positive. */
  lemma ByKey<T(!new)>(a: Counter<T>, b: Counter<T>, e: T)
    ensures var x, y := if e in a then a[e] else 0, if e in b then b[e] else 0;
      && (e in Plus(a, b) <==> x + y > 0) && (x + y > 0 ==> Plus(a, b)[e] == x + y)
      && (e in Minus(a, b) <==> x > y) && (x > y ==> Minus(a, b)[e] == x - y)
      && (e in Union(a, b) <==> x > 0 || y > 0)
      && (x >= y && x > 0 ==> Union(a, b)[e] == x) && (y >= x && y > 0 ==> Union(a, b)[e] == y)
      && (e in Intersection(a, b) <==> x > 0 && y > 0)
      && (y >= x > 0 ==> Intersection(a, b)[e] == x) && (x >= y > 0 ==> Intersection(a, b)[e] == y)
  {}

  /** The multiset identities, key by key, for counters without negative counts. */
  lemma Laws<T(!new)>(a: Counter<T>, b: Counter<T>, e: T)
    requires NonNegative(a) && NonNegative(b)
    ensures Get(Minus(Plus(a, b), b), e) == Get(a, e)
    ensures Get(Plus(Minus(a, b), Intersection(a, b)), e) == Get(a, e)
    ensures Get(Plus(Union(a, b), Intersection(a, b)), e) == Get(Plus(a, b), e)
  {
    assert e in a ==> a[e] >= 0;
    assert e in b ==> b[e] >= 0;
  }

  /** Counting the elements of a counter again gives its positive part. */
  method Recount<T(==)>(self: Counter<T>) returns (result: Counter<T>)
    ensures forall e :: Get(result, e) == Max(0, Get(self, e))
    ensures forall e :: e in result <==> Get(self, e) > 0
  {
    var items := Elements(self);
    forall e ensures e in items <==> Get(self, e) > 0 { assert e in items <==> e in multiset(items); }
    result := UpdateFrom(map[], items);
  }
}
