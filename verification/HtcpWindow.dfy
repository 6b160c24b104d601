/** `RingBuffer`: a TCP-like window over the sequence numbers of one HTCP source.
    Times are the clock readings passed in; what needs a clock that does not run
    backwards says so. */
module HtcpWindow {
  import opened Counters

  datatype Slot = Slot(seqnr: int, ts: int, received: bool)

  /** One call of `add`. */
  datatype Packet = Packet(seqnr: int, now: int)

  /** A slot that has left the window: it was there from the call numbered `birth`
      to the call numbered `death - 1`. */
  datatype Retired = Retired(slot: Slot, birth: nat, death: nat)

  type Counts = Counter<string>

  /** The window and its counts, with the calls so far, the number of the call that
      created each slot, and the slots that have left. */
  datatype View = View(slots: seq<Slot>, counts: Counts, log: seq<Packet>, births: seq<nat>, retired: seq<Retired>)

  const EMPTY := View([], map[], [], [], [])

  function Bump(c: Counts, key: string, n: nat): Counts {
    if n == 0 then c else c[key := Get(c, key) + n]
  }

  // ---------- one call of add, as a function ----------

  function Gap(first: int, next: int, now: int): seq<Slot>
    requires first <= next
  {
    seq(next - first, i requires 0 <= i => Slot(first + i, now, false))
  }

  ghost predicate Contiguous(slots: seq<Slot>) {
    forall i :: 0 <= i < |slots| ==> slots[i].seqnr == slots[0].seqnr + i
  }

  /** The window after the packet is taken in and before the purge. */
  function Taken(slots: seq<Slot>, p: Packet): seq<Slot>
    requires Contiguous(slots)
  {
    if slots == [] then [Slot(p.seqnr, p.now, true)]
    else
      var head, tail := slots[0].seqnr, slots[|slots| - 1].seqnr;
      if p.seqnr > tail then slots + Gap(tail + 1, p.seqnr, p.now) + [Slot(p.seqnr, p.now, true)]
      else if p.seqnr < head then slots
      else slots[p.seqnr - head := slots[p.seqnr - head].(received := true)]
  }

  /** What the packet itself is counted as. */
  function Kind(slots: seq<Slot>, seqnr: int): Counts
    requires Contiguous(slots)
  {
    if slots == [] || seqnr > slots[|slots| - 1].seqnr then map[]
    else if seqnr < slots[0].seqnr then map["ancient" := 1]
    else if slots[seqnr - slots[0].seqnr].received then map["dups" := 1]
    else map["outoforder" := 1]
  }

  /** The leading slots with a timestamp before `cutoff`. */
  function Expired(slots: seq<Slot>, cutoff: int): (n: nat)
    ensures n <= |slots|
    ensures forall i :: 0 <= i < n ==> slots[i].ts < cutoff
    ensures n < |slots| ==> slots[n].ts >= cutoff
  {
    if slots == [] || slots[0].ts >= cutoff then 0 else 1 + Expired(slots[1..], cutoff)
  }

  function Missing(slots: seq<Slot>): nat {
    if slots == [] then 0 else Missing(slots[..|slots| - 1]) + if slots[|slots| - 1].received then 0 else 1
  }

  function Purged(c: Counts, gone: seq<Slot>): Counts {
    Bump(Bump(c, "dequeued", |gone|), "lost", Missing(gone))
  }

  function Gone(slots: seq<Slot>, p: Packet, buffersize: int): seq<Slot>
    requires Contiguous(slots)
  {
    Taken(slots, p)[..Expired(Taken(slots, p), p.now - buffersize)]
  }

  function Left(slots: seq<Slot>, p: Packet, buffersize: int): seq<Slot>
    requires Contiguous(slots)
  {
    Taken(slots, p)[Expired(Taken(slots, p), p.now - buffersize)..]
  }

  /** The counter that `add` returns. */
  function AddCounts(slots: seq<Slot>, p: Packet, buffersize: int): Counts
    requires Contiguous(slots)
  {
    Purged(Bump(Kind(slots, p.seqnr), "received", 1), Gone(slots, p, buffersize))
  }

  function Repeat(n: nat, b: nat): seq<nat> {
    seq(n, i => b)
  }

  /** The records of slots that leave the window together. */
  function Leaving(gone: seq<Slot>, births: seq<nat>, death: nat): seq<Retired>
    requires |gone| <= |births|
  {
    seq(|gone|, i requires 0 <= i < |gone| => Retired(gone[i], births[i], death))
  }

  function Step(v: View, p: Packet, buffersize: int): View
    requires Contiguous(v.slots) && |v.births| == |v.slots|
  {
    var taken, gone := Taken(v.slots, p), Gone(v.slots, p, buffersize);
    var births, n := v.births + Repeat(|taken| - |v.slots|, |v.log|), |gone|;
    View(Left(v.slots, p, buffersize),
      Updated(v.counts, AddCounts(v.slots, p, buffersize)),
      v.log + [p],
      births[n..],
      v.retired + Leaving(gone, births, |v.log| + 1))
  }

  // ---------- the invariant ----------

  /** `seqnr` was passed to one of the calls numbered from `first` on, before `past`. */
  ghost predicate Arrived(log: seq<Packet>, seqnr: int, first: nat, past: nat) {
    exists k :: first <= k < past && k < |log| && log[k].seqnr == seqnr
  }

  ghost predicate ValidSlot(log: seq<Packet>, s: Slot, birth: nat, past: nat) {
    && birth < past <= |log|
    && s.ts == log[birth].now
    && (s.received <==> Arrived(log, s.seqnr, birth, past))
  }

  function MissingRetired(retired: seq<Retired>): nat {
    if retired == [] then 0
    else MissingRetired(retired[..|retired| - 1]) + if retired[|retired| - 1].slot.received then 0 else 1
  }

  ghost predicate Timely(log: seq<Packet>) {
    forall i, j :: 0 <= i < j < |log| ==> log[i].now <= log[j].now
  }

  ghost predicate Sorted(slots: seq<Slot>) {
    forall i, j :: 0 <= i < j < |slots| ==> slots[i].ts <= slots[j].ts
  }

  /** Numbers without holes, oldest first if the clock was never set back, and every
      slot, in the window or gone, marked as received exactly if its number arrived
      while it was there. */
  ghost predicate ValidWindow(v: View) {
    && Contiguous(v.slots)
    && |v.births| == |v.slots|
    && (Timely(v.log) ==> Sorted(v.slots))
    && (forall i :: 0 <= i < |v.slots| ==> ValidSlot(v.log, v.slots[i], v.births[i], |v.log|))
    && (forall r :: r in v.retired ==> ValidSlot(v.log, r.slot, r.birth, r.death))
  }

  /** The books: what came in is in the window, gone, repeated or too old. */
  ghost predicate Balanced(v: View) {
    && Get(v.counts, "received") == |v.log|
    && Get(v.counts, "dequeued") == |v.retired|
    && Get(v.counts, "lost") == MissingRetired(v.retired)
    && Get(v.counts, "ancient") >= 0 && Get(v.counts, "dups") >= 0 && Get(v.counts, "outoforder") >= 0
    && Get(v.counts, "received") - Get(v.counts, "ancient") - Get(v.counts, "dups")
       == Get(v.counts, "dequeued") - Get(v.counts, "lost") + (|v.slots| - Missing(v.slots))
  }

  // ---------- one call keeps the invariant ----------

  /** The window after the packet, with the calls that created its slots. */
  function TakenBirths(v: View, p: Packet): seq<nat>
    requires Contiguous(v.slots)
  {
    v.births + Repeat(|Taken(v.slots, p)| - |v.slots|, |v.log|)
  }

  lemma TakenShape(slots: seq<Slot>, p: Packet)
    requires Contiguous(slots)
    ensures Contiguous(Taken(slots, p)) && |slots| <= |Taken(slots, p)|
    ensures forall i :: 0 <= i < |slots| ==>
      Taken(slots, p)[i] == slots[i].(received := slots[i].received || slots[i].seqnr == p.seqnr)
    ensures forall s :: s in Taken(slots, p)[|slots|..] ==> s.ts == p.now && (s.received <==> s.seqnr == p.seqnr)
  {}

  lemma ArrivedNow(log: seq<Packet>, p: Packet, seqnr: int, birth: nat)
    requires birth <= |log|
    ensures Arrived(log + [p], seqnr, birth, |log| + 1) <==> Arrived(log, seqnr, birth, |log|) || p.seqnr == seqnr
    ensures forall past: nat :: past <= |log| ==>
      Arrived(log + [p], seqnr, birth, past) == Arrived(log, seqnr, birth, past)
  {
    var more := log + [p];
    assert forall k :: 0 <= k < |log| ==> more[k] == log[k];
    assert more[|log|] == p;
  }

  lemma TakenSlots(v: View, p: Packet)
    requires ValidWindow(v)
    ensures var taken, births, log := Taken(v.slots, p), TakenBirths(v, p), v.log + [p];
      && |births| == |taken|
      && (Timely(log) ==> Sorted(taken))
      && forall i :: 0 <= i < |taken| ==> ValidSlot(log, taken[i], births[i], |log|)
  {
    var taken, births, log := Taken(v.slots, p), TakenBirths(v, p), v.log + [p];
    TakenShape(v.slots, p);
    hide Taken, Arrived, Contiguous;
    forall i | 0 <= i < |taken| ensures ValidSlot(log, taken[i], births[i], |log|) {
      ArrivedNow(v.log, p, taken[i].seqnr, births[i]);
      if i < |v.slots| {
        assert ValidSlot(v.log, v.slots[i], v.births[i], |v.log|);
      } else {
        NothingYet(v.log, taken[i].seqnr, |v.log|);
      }
    }
    if Timely(log) {
      TimelyPrefix(v.log, p);
      forall i, j | 0 <= i < j < |taken| ensures taken[i].ts <= taken[j].ts {
        if |v.slots| <= j && i < |v.slots| {
          assert ValidSlot(v.log, v.slots[i], v.births[i], |v.log|);
          assert log[v.births[i]].now <= log[|v.log|].now;
        }
      }
    }
  }

  lemma TimelyPrefix(log: seq<Packet>, p: Packet)
    requires Timely(log + [p])
    ensures Timely(log)
  {
    var more := log + [p];
    forall i, j | 0 <= i < j < |log| ensures log[i].now <= log[j].now {
      assert more[i].now <= more[j].now;
    }
  }

  lemma NothingYet(log: seq<Packet>, seqnr: int, birth: nat)
    requires birth == |log|
    ensures !Arrived(log, seqnr, birth, birth)
  {}

  lemma ContiguousSuffix(slots: seq<Slot>, n: nat)
    requires Contiguous(slots) && n <= |slots|
    ensures Contiguous(slots[n..])
  {
    assert forall i :: 0 <= i < |slots| - n ==> slots[n..][i] == slots[n + i];
  }

  lemma StepKeepsRetired(v: View, p: Packet, buffersize: int)
    requires ValidWindow(v)
    ensures forall r :: r in Step(v, p, buffersize).retired ==> ValidSlot(v.log + [p], r.slot, r.birth, r.death)
  {
    var log, gone := v.log + [p], Gone(v.slots, p, buffersize);
    TakenSlots(v, p);
    hide Gone, Taken, Arrived, Timely;
    forall r | r in v.retired ensures ValidSlot(log, r.slot, r.birth, r.death) {
      assert ValidSlot(v.log, r.slot, r.birth, r.death);
      ArrivedNow(v.log, p, r.slot.seqnr, r.birth);
    }
    var births := TakenBirths(v, p);
    forall r | r in Leaving(gone, births, |log|) ensures ValidSlot(log, r.slot, r.birth, r.death) {
      var i :| 0 <= i < |gone| && r == Leaving(gone, births, |log|)[i];
      GonePrefix(v.slots, p, buffersize, i);
      assert ValidSlot(log, Taken(v.slots, p)[i], births[i], |log|);
    }
    assert Step(v, p, buffersize).retired == v.retired + Leaving(gone, births, |log|);
  }

  lemma GonePrefix(slots: seq<Slot>, p: Packet, buffersize: int, i: nat)
    requires Contiguous(slots) && i < |Gone(slots, p, buffersize)|
    ensures i < |Taken(slots, p)| && Gone(slots, p, buffersize)[i] == Taken(slots, p)[i]
  {}

  /** One call keeps the window valid: late and duplicate packets, gaps and purge. */
  lemma StepKeepsWindow(v: View, p: Packet, buffersize: int)
    requires ValidWindow(v)
    ensures ValidWindow(Step(v, p, buffersize))
  {
    var next, log := Step(v, p, buffersize), v.log + [p];
    var taken, births, n := Taken(v.slots, p), TakenBirths(v, p), |Gone(v.slots, p, buffersize)|;
    TakenShape(v.slots, p);
    TakenSlots(v, p);
    StepKeepsRetired(v, p, buffersize);
    ContiguousSuffix(taken, n);
    assert next.slots == taken[n..] && next.births == births[n..] && next.log == log;
    hide Taken, TakenBirths, Gone, Step, ValidSlot, Timely, Contiguous;
    assert Contiguous(next.slots) && |next.births| == |next.slots|;
    forall i | 0 <= i < |next.slots| ensures ValidSlot(next.log, next.slots[i], next.births[i], |next.log|) {
      assert ValidSlot(log, taken[n + i], births[n + i], |log|);
    }
    if Timely(log) { SortedSuffix(taken, n); }
  }

  lemma SortedSuffix(slots: seq<Slot>, n: nat)
    requires Sorted(slots) && n <= |slots|
    ensures Sorted(slots[n..])
  {}

  /** The purge removes slots older than the buffer only, and stops at one that is
      not; so, if the clock was never set back, it removes exactly the older ones. */
  lemma PurgeIsExact(v: View, p: Packet, buffersize: int)
    requires ValidWindow(v)
    ensures var taken := Taken(v.slots, p); var next := Step(v, p, buffersize);
      && taken == Gone(v.slots, p, buffersize) + next.slots
      && (forall s :: s in Gone(v.slots, p, buffersize) ==> s.ts < p.now - buffersize)
      && (next.slots != [] ==> next.slots[0].ts >= p.now - buffersize)
      && (Timely(v.log + [p]) ==> forall s :: s in next.slots ==> s.ts >= p.now - buffersize)
  {
    hide Taken, Kind, Contiguous, ValidSlot, Arrived, Timely, Updated;
    TakenSlots(v, p);
    StepFields(v, p, buffersize);
  }

  ghost predicate NoneExpired(slots: seq<Slot>, cutoff: int) {
    forall s :: s in slots ==> s.ts >= cutoff
  }

  /** Dropping the leading slots before a cutoff leaves none before it, whatever the
      cutoff. */
  ghost predicate ExactPurge(slots: seq<Slot>) {
    forall cutoff :: NoneExpired(slots[Expired(slots, cutoff)..], cutoff)
  }

  /** In general, purging is exact, whatever the length of the buffer, if and only if
      the window's timestamps are sorted. */
  lemma PurgeExactIffSorted(slots: seq<Slot>)
    ensures ExactPurge(slots) <==> Sorted(slots)
  {
    if Sorted(slots) {
      forall cutoff ensures NoneExpired(slots[Expired(slots, cutoff)..], cutoff) {
        SortedPurge(slots, cutoff);
      }
    }
    if ExactPurge(slots) {
      forall i, j | 0 <= i < j < |slots| ensures slots[i].ts <= slots[j].ts {
        var n := Expired(slots, slots[i].ts);
        assert NoneExpired(slots[n..], slots[i].ts) && n <= i;
        assert slots[n..][j - n] == slots[j];
      }
    }
  }

  lemma SortedPurge(slots: seq<Slot>, cutoff: int)
    requires Sorted(slots)
    ensures NoneExpired(slots[Expired(slots, cutoff)..], cutoff)
  {
    var n := Expired(slots, cutoff);
    forall s | s in slots[n..] ensures s.ts >= cutoff {
      var k :| n <= k < |slots| && slots[k] == s;
      assert n < k ==> slots[n].ts <= slots[k].ts;
    }
  }

  /** With a clock that is set back and forth again, an old slot can stay behind a
      younger one. */
  lemma OldSlotStays()
    ensures var v := Step(Step(Step(EMPTY, Packet(1, 10), 5), Packet(2, 0), 5), Packet(3, 10), 5);
      Slot(2, 0, true) in v.slots
  {
    hide Step, Left, Taken, Gone;
    InOrder(EMPTY, Packet(1, 10), 5);
    var v1 := Step(EMPTY, Packet(1, 10), 5);
    InOrder(v1, Packet(2, 0), 5);
    var v2 := Step(v1, Packet(2, 0), 5);
    InOrder(v2, Packet(3, 10), 5);
    assert v2.slots == [Slot(1, 10, true), Slot(2, 0, true)];
    assert Step(v2, Packet(3, 10), 5).slots[1] == Slot(2, 0, true);
  }

  /** A packet in order, while the oldest slot is not older than the buffer. */
  lemma InOrder(v: View, p: Packet, buffersize: nat)
    requires Contiguous(v.slots) && |v.births| == |v.slots|
    requires v.slots != [] ==> p.seqnr == v.slots[|v.slots| - 1].seqnr + 1 && v.slots[0].ts >= p.now - buffersize
    ensures var next := Step(v, p, buffersize);
      next.slots == v.slots + [Slot(p.seqnr, p.now, true)] && Contiguous(next.slots) && |next.births| == |next.slots|
  {
    assert Taken(v.slots, p) == v.slots + [Slot(p.seqnr, p.now, true)];
    assert Gone(v.slots, p, buffersize) == [];
  }

  lemma {:induction false} MissingAppend(a: seq<Slot>, b: seq<Slot>)
    ensures Missing(a + b) == Missing(a) + Missing(b)
  {
    if b == [] {
      assert a + b == a;
    } else {
      assert (a + b)[..|a + b| - 1] == a + b[..|b| - 1];
      MissingAppend(a, b[..|b| - 1]);
    }
  }

  lemma {:induction false} MissingBound(a: seq<Slot>)
    ensures Missing(a) <= |a|
    ensures (forall i :: 0 <= i < |a| ==> !a[i].received) ==> Missing(a) == |a|
  {
    if a != [] { MissingBound(a[..|a| - 1]); }
  }

  lemma MissingFlip(a: seq<Slot>, i: nat, s: Slot)
    requires i < |a| && s.received && !a[i].received
    ensures Missing(a[i := s]) == Missing(a) - 1
  {
    assert a == a[..i] + [a[i]] + a[i + 1..];
    assert a[i := s] == a[..i] + [s] + a[i + 1..];
    MissingAppend(a[..i] + [a[i]], a[i + 1..]);
    MissingAppend(a[..i] + [s], a[i + 1..]);
    MissingAppend(a[..i], [a[i]]);
    MissingAppend(a[..i], [s]);
    assert Missing([s]) == 0 && Missing([a[i]]) == 1 by { assert Missing([s][..0]) == 0 && Missing([a[i]][..0]) == 0; }
  }

  /** Taking a packet in adds one received slot unless it is a duplicate or ancient. */
  lemma TakenAccount(slots: seq<Slot>, p: Packet)
    requires Contiguous(slots)
    ensures var taken, kind := Taken(slots, p), Kind(slots, p.seqnr);
      |taken| - Missing(taken) == |slots| - Missing(slots) + 1 - Get(kind, "ancient") - Get(kind, "dups")
  {
    var taken := Taken(slots, p);
    var last := Slot(p.seqnr, p.now, true);
    assert Missing([last]) == 0 by { assert Missing([last][..0]) == 0; }
    if slots == [] {
    } else if p.seqnr > slots[|slots| - 1].seqnr {
      var gap := Gap(slots[|slots| - 1].seqnr + 1, p.seqnr, p.now);
      MissingBound(gap);
      MissingAppend(slots + gap, [last]);
      MissingAppend(slots, gap);
    } else if p.seqnr >= slots[0].seqnr {
      var i := p.seqnr - slots[0].seqnr;
      if slots[i].received {
        assert taken == slots;
      } else {
        MissingFlip(slots, i, slots[i].(received := true));
      }
    }
  }

  lemma {:induction false} RetiredAppend(retired: seq<Retired>, gone: seq<Slot>, births: seq<nat>, death: nat)
    requires |gone| <= |births|
    ensures MissingRetired(retired + Leaving(gone, births, death)) == MissingRetired(retired) + Missing(gone)
  {
    var more := Leaving(gone, births, death);
    if gone == [] {
      assert retired + more == retired;
    } else {
      var n := |gone| - 1;
      assert (retired + more)[..|retired + more| - 1] == retired + Leaving(gone[..n], births, death);
      RetiredAppend(retired, gone[..n], births, death);
    }
  }

  lemma AddCountsByKey(slots: seq<Slot>, p: Packet, buffersize: int)
    requires Contiguous(slots)
    ensures var c, kind, gone := AddCounts(slots, p, buffersize), Kind(slots, p.seqnr), Gone(slots, p, buffersize);
      && Get(c, "received") == 1
      && Get(c, "dequeued") == |gone|
      && Get(c, "lost") == Missing(gone)
      && Get(c, "ancient") == Get(kind, "ancient") >= 0
      && Get(c, "dups") == Get(kind, "dups") >= 0
      && Get(c, "outoforder") == Get(kind, "outoforder") >= 0
    ensures forall e :: e in AddCounts(slots, p, buffersize) ==> AddCounts(slots, p, buffersize)[e] > 0
  {
    hide Gone, Missing, Contiguous;
  }

  lemma StepFields(v: View, p: Packet, buffersize: int)
    requires Contiguous(v.slots) && |v.births| == |v.slots|
    ensures var next, gone := Step(v, p, buffersize), Gone(v.slots, p, buffersize);
      && Taken(v.slots, p) == gone + next.slots
      && |gone| <= |TakenBirths(v, p)|
      && next.retired == v.retired + Leaving(gone, TakenBirths(v, p), |v.log| + 1)
      && next.log == v.log + [p]
      && next.counts == Updated(v.counts, AddCounts(v.slots, p, buffersize))
  {
    hide Taken, Kind, Expired, Contiguous, Updated, Purged, Bump;
  }

  lemma StepParts(v: View, p: Packet, buffersize: int)
    requires ValidWindow(v)
    ensures var next, taken, gone := Step(v, p, buffersize), Taken(v.slots, p), Gone(v.slots, p, buffersize);
      && |next.log| == |v.log| + 1
      && |next.retired| == |v.retired| + |gone|
      && MissingRetired(next.retired) == MissingRetired(v.retired) + Missing(gone)
      && |next.slots| == |taken| - |gone|
      && Missing(next.slots) == Missing(taken) - Missing(gone)
  {
    var next := Step(v, p, buffersize);
    var taken, births, gone := Taken(v.slots, p), TakenBirths(v, p), Gone(v.slots, p, buffersize);
    StepFields(v, p, buffersize);
    hide *;
    MissingAppend(gone, next.slots);
    RetiredAppend(v.retired, gone, births, |v.log| + 1);
  }

  /** The counts after one call, key by key. */
  lemma StepCounts(v: View, p: Packet, buffersize: int)
    requires ValidWindow(v)
    ensures var before, after, kind, gone :=
        v.counts, Step(v, p, buffersize).counts, Kind(v.slots, p.seqnr), Gone(v.slots, p, buffersize);
      && Get(after, "received") == Get(before, "received") + 1
      && Get(after, "dequeued") == Get(before, "dequeued") + |gone|
      && Get(after, "lost") == Get(before, "lost") + Missing(gone)
      && Get(after, "ancient") == Get(before, "ancient") + Get(kind, "ancient")
      && Get(after, "dups") == Get(before, "dups") + Get(kind, "dups")
      && Get(after, "outoforder") >= Get(before, "outoforder")
      && Get(kind, "ancient") >= 0 && Get(kind, "dups") >= 0
  {
    var c := AddCounts(v.slots, p, buffersize);
    AddCountsByKey(v.slots, p, buffersize);
    assert Step(v, p, buffersize).counts == Updated(v.counts, c);
    hide *;
    UpdatedGet(v.counts, c, "received");
    UpdatedGet(v.counts, c, "dequeued");
    UpdatedGet(v.counts, c, "lost");
    UpdatedGet(v.counts, c, "ancient");
    UpdatedGet(v.counts, c, "dups");
    UpdatedGet(v.counts, c, "outoforder");
  }

  lemma StepKeepsBalance(v: View, p: Packet, buffersize: int)
    requires ValidWindow(v) && Balanced(v)
    ensures Balanced(Step(v, p, buffersize))
  {
    hide Step, Taken, Gone, Kind, Missing, MissingRetired, Get;
    TakenAccount(v.slots, p);
    StepParts(v, p, buffersize);
    StepCounts(v, p, buffersize);
  }

  // ---------- whole runs ----------

  function Run(packets: seq<Packet>, buffersize: int): (v: View)
    ensures ValidWindow(v) && v.log == packets
  {
    if packets == [] then EMPTY
    else
      var before := Run(packets[..|packets| - 1], buffersize);
      RunStep(before, packets, buffersize);
      Step(before, packets[|packets| - 1], buffersize)
  }

  lemma RunStep(before: View, packets: seq<Packet>, buffersize: int)
    requires packets != [] && ValidWindow(before) && before.log == packets[..|packets| - 1]
    ensures Contiguous(before.slots) && |before.births| == |before.slots|
    ensures var v := Step(before, packets[|packets| - 1], buffersize); ValidWindow(v) && v.log == packets
  {
    var p := packets[|packets| - 1];
    assert packets == before.log + [p];
    assert Contiguous(before.slots) && |before.births| == |before.slots|;
    hide *;
    StepKeepsWindow(before, p, buffersize);
    StepFields(before, p, buffersize);
  }

  /** The books of every run balance, and no more is lost than has left. */
  lemma {:induction false} RunBalances(packets: seq<Packet>, buffersize: int)
    ensures Balanced(Run(packets, buffersize))
    ensures 0 <= Get(Run(packets, buffersize).counts, "lost") <= Get(Run(packets, buffersize).counts, "dequeued")
  {
    if packets != [] {
      RunBalances(packets[..|packets| - 1], buffersize);
      StepKeepsBalance(Run(packets[..|packets| - 1], buffersize), packets[|packets| - 1], buffersize);
    }
    MissingRetiredBound(Run(packets, buffersize).retired);
  }

  lemma {:induction false} MissingRetiredBound(retired: seq<Retired>)
    ensures MissingRetired(retired) <= |retired|
  {
    if retired != [] { MissingRetiredBound(retired[..|retired| - 1]); }
  }

  // ---------- what a packet is counted as ----------

  /** Its number is below the window. */
  ghost predicate IsAncient(v: View, p: Packet) {
    v.slots != [] && p.seqnr < v.slots[0].seqnr
  }

  /** The window has a slot for its number, created by call `birth`. */
  ghost predicate SlotFor(v: View, p: Packet, birth: nat) {
    exists i :: 0 <= i < |v.slots| && i < |v.births| && v.slots[i].seqnr == p.seqnr && v.births[i] == birth
  }

  /** And the number has arrived since then. */
  ghost predicate IsDuplicate(v: View, p: Packet) {
    exists birth: nat :: SlotFor(v, p, birth) && Arrived(v.log, p.seqnr, birth, |v.log|)
  }

  /** Or has not. */
  ghost predicate IsLate(v: View, p: Packet) {
    exists birth: nat :: SlotFor(v, p, birth) && !Arrived(v.log, p.seqnr, birth, |v.log|)
  }

  /** Each packet is counted as what it is, from the packets that have arrived. */
  lemma CountedAsWhatItIs(v: View, p: Packet, buffersize: int)
    requires ValidWindow(v)
    ensures var c := AddCounts(v.slots, p, buffersize);
      && Get(c, "ancient") == (if IsAncient(v, p) then 1 else 0)
      && Get(c, "dups") == (if IsDuplicate(v, p) then 1 else 0)
      && Get(c, "outoforder") == (if IsLate(v, p) then 1 else 0)
  {
    AddCountsByKey(v.slots, p, buffersize);
    KindByArrivals(v, p);
    hide AddCounts, Kind, Get, IsAncient, IsDuplicate, IsLate, ValidWindow;
  }

  lemma KindByArrivals(v: View, p: Packet)
    requires ValidWindow(v)
    ensures var c := Kind(v.slots, p.seqnr);
      && Get(c, "ancient") == (if IsAncient(v, p) then 1 else 0)
      && Get(c, "dups") == (if IsDuplicate(v, p) then 1 else 0)
      && Get(c, "outoforder") == (if IsLate(v, p) then 1 else 0)
  {
    hide Arrived;
    var slots := v.slots;
    if slots != [] && slots[0].seqnr <= p.seqnr <= slots[|slots| - 1].seqnr {
      var i := p.seqnr - slots[0].seqnr;
      assert ValidSlot(v.log, slots[i], v.births[i], |v.log|);
      assert SlotFor(v, p, v.births[i]);
      forall birth: nat ensures SlotFor(v, p, birth) <==> birth == v.births[i] {
        if SlotFor(v, p, birth) {
          var j :| 0 <= j < |slots| && slots[j].seqnr == p.seqnr && v.births[j] == birth;
          assert slots[j].seqnr == slots[0].seqnr + j;
        }
      }
    } else {
      NoSlotFor(v, p);
    }
  }

  lemma NoSlotFor(v: View, p: Packet)
    requires ValidWindow(v)
    requires v.slots == [] || p.seqnr < v.slots[0].seqnr || v.slots[|v.slots| - 1].seqnr < p.seqnr
    ensures forall birth: nat :: !SlotFor(v, p, birth)
  {
    assert forall i :: 0 <= i < |v.slots| ==> v.slots[i].seqnr == v.slots[0].seqnr + i;
  }

  datatype Sort = Ancient | Duplicate | Late

  ghost predicate IsSort(v: View, p: Packet, sort: Sort) {
    match sort
    case Ancient => IsAncient(v, p)
    case Duplicate => IsDuplicate(v, p)
    case Late => IsLate(v, p)
  }

  /** How many packets of a run were of this sort when they arrived. */
  ghost function Tally(packets: seq<Packet>, buffersize: int, sort: Sort): nat {
    if packets == [] then 0
    else
      var init := packets[..|packets| - 1];
      Tally(init, buffersize, sort)
      + if IsSort(Run(init, buffersize), packets[|packets| - 1], sort) then 1 else 0
  }

  /** Over every run each total is the number of packets of its sort. */
  lemma {:induction false} RunTallies(packets: seq<Packet>, buffersize: int)
    ensures Get(Run(packets, buffersize).counts, "ancient") == Tally(packets, buffersize, Ancient)
    ensures Get(Run(packets, buffersize).counts, "dups") == Tally(packets, buffersize, Duplicate)
    ensures Get(Run(packets, buffersize).counts, "outoforder") == Tally(packets, buffersize, Late)
  {
    hide Run, Tally, Step, AddCounts, Get, IsAncient, IsDuplicate, IsLate, ValidWindow, Contiguous;
    if packets == [] {
      NothingCounted(buffersize);
    } else {
      var init, p := packets[..|packets| - 1], packets[|packets| - 1];
      var before := Run(init, buffersize);
      RunTallies(init, buffersize);
      TallyStep(packets, buffersize, Ancient);
      TallyStep(packets, buffersize, Duplicate);
      TallyStep(packets, buffersize, Late);
      CountedAsWhatItIs(before, p, buffersize);
      StepCountsOf(before, p, buffersize, "ancient");
      StepCountsOf(before, p, buffersize, "dups");
      StepCountsOf(before, p, buffersize, "outoforder");
    }
  }

  lemma NothingCounted(buffersize: int)
    ensures forall key :: Get(Run([], buffersize).counts, key) == 0
    ensures forall sort :: Tally([], buffersize, sort) == 0
  {}

  lemma TallyStep(packets: seq<Packet>, buffersize: int, sort: Sort)
    requires packets != []
    ensures var init, p := packets[..|packets| - 1], packets[|packets| - 1];
      && ValidWindow(Run(init, buffersize)) && Contiguous(Run(init, buffersize).slots)
      && |Run(init, buffersize).births| == |Run(init, buffersize).slots|
      && Run(packets, buffersize) == Step(Run(init, buffersize), p, buffersize)
      && Tally(packets, buffersize, sort)
         == Tally(init, buffersize, sort) + if IsSort(Run(init, buffersize), p, sort) then 1 else 0
  {
    hide Step, IsSort, ValidSlot, Balanced;
  }

  lemma StepCountsOf(v: View, p: Packet, buffersize: int, key: string)
    requires ValidWindow(v)
    ensures Get(Step(v, p, buffersize).counts, key) == Get(v.counts, key) + Get(AddCounts(v.slots, p, buffersize), key)
  {
    hide AddCounts, Get, Taken, Gone, Left, ValidSlot;
    StepFields(v, p, buffersize);
    UpdatedGet(v.counts, AddCounts(v.slots, p, buffersize), key);
  }

  // ---------- the class ----------

  class RingBuffer {
    const buffersize: int
    /** The address whose packets this buffer takes in. */
    ghost const source: string
    var slots: seq<Slot>
    var counts: Counts
    ghost var log: seq<Packet>
    ghost var births: seq<nat>
    ghost var retired: seq<Retired>

    ghost function AsView(): View
      reads this
    {
      View(slots, counts, log, births, retired)
    }

    /** The window holds what the calls so far account for, and the counts balance. */
    ghost predicate Valid()
      reads this
    {
      ValidWindow(AsView()) && Balanced(AsView())
    }

    constructor (buffersize: int, ghost source: string)
      ensures Valid() && AsView() == EMPTY && this.buffersize == buffersize && this.source == source
    {
      this.buffersize, this.source := buffersize, source;
      slots, counts, log, births, retired := [], map[], [], [], [];
    }

    /** Expects a sequence number and the clock reading, and returns what this call
        counted. The look-ups by position never fail. */
    method Add(seqnr: int, now: int) returns (result: Counts)
      requires Valid()
      modifies this
      ensures Valid()
      ensures AsView() == Step(old(AsView()), Packet(seqnr, now), buffersize)
      ensures result == AddCounts(old(slots), Packet(seqnr, now), buffersize)
    {
      ghost var v, p := AsView(), Packet(seqnr, now);
      assert Contiguous(v.slots) && |v.births| == |v.slots|;
      ghost var next := Step(v, p, buffersize);
      StepKeepsWindow(v, p, buffersize);
      StepKeepsBalance(v, p, buffersize);
      assert next.slots == Left(v.slots, p, buffersize) && next.log == v.log + [p]
        && next.counts == Updated(v.counts, AddCounts(v.slots, p, buffersize));
      hide Step, AddCounts, Left, ValidWindow, Balanced, Timely, Contiguous, Updated;
      result := Receive(seqnr, now);
      births, retired, log := next.births, next.retired, next.log;
    }

    method Receive(seqnr: int, now: int) returns (result: Counts)
      requires Contiguous(slots)
      modifies this`slots, this`counts
      ensures slots == Left(old(slots), Packet(seqnr, now), buffersize)
      ensures result == AddCounts(old(slots), Packet(seqnr, now), buffersize)
      ensures counts == Updated(old(counts), result)
    {
      hide Taken, Kind, Purged, Updated, Bump, Expired, Contiguous;
      result := TakeIn(seqnr, now);
      result := Bump(result, "received", 1);
      result := Deque(now, result);
    }

    /** The first half of `add`: the packet finds its place in the window. */
    method TakeIn(seqnr: int, now: int) returns (result: Counts)
      requires Contiguous(slots)
      modifies this`slots
      ensures slots == Taken(old(slots), Packet(seqnr, now))
      ensures result == Kind(old(slots), seqnr)
    {
      result := map[];
      var headseq, tailseq := seqnr - 1, seqnr - 1;
      if slots != [] {
        headseq, tailseq := slots[0].seqnr, slots[|slots| - 1].seqnr;
      }
      if seqnr == tailseq + 1 {
        slots := slots + [Slot(seqnr, now, true)];
      } else if seqnr > tailseq + 1 {
        for s := tailseq + 1 to seqnr
          invariant slots == old(slots) + Gap(tailseq + 1, s, now)
        {
          slots := slots + [Slot(s, now, false)];
        }
        slots := slots + [Slot(seqnr, now, true)];
      } else if seqnr < headseq {
        result := Bump(result, "ancient", 1);
      } else if seqnr <= tailseq {
        assert slots[seqnr - headseq].seqnr == seqnr;
        if slots[seqnr - headseq].received {
          result := Bump(result, "dups", 1);
        } else {
          slots := slots[seqnr - headseq := Slot(seqnr, slots[seqnr - headseq].ts, true)];
          result := Bump(result, "outoforder", 1);
        }
      }
    }

    /** Purges old packets and adds what the call counted to the buffer's counts. */
    method Deque(now: int, soFar: Counts) returns (result: Counts)
      modifies this`slots, this`counts
      ensures slots == old(slots)[Expired(old(slots), now - buffersize)..]
      ensures result == Purged(soFar, old(slots)[..Expired(old(slots), now - buffersize)])
      ensures counts == Updated(old(counts), result)
    {
      hide Purged, Bump, Updated, Expired, Missing, Get;
      ghost var was, cutoff, n := slots, now - buffersize, 0;
      NonePurged(soFar);
      assert was[..0] == [] && was[0..] == was;
      result := soFar;
      while slots != [] && slots[0].ts < now - buffersize
        invariant counts == old(counts)
        invariant n <= |was| && slots == was[n..]
        invariant n <= Expired(was, cutoff)
        invariant result == Purged(soFar, was[..n])
        decreases |slots|
      {
        var packet := slots[0];
        assert packet == was[n] && was[..n + 1] == was[..n] + [was[n]];
        PurgedOne(soFar, was[..n], packet);
        slots := slots[1..];
        n := n + 1;
        result := Bump(result, "dequeued", 1);
        if !packet.received { result := Bump(result, "lost", 1); }
      }
      assert n < |was| ==> slots[0] == was[n];
      counts := Update(counts, result);
    }
  }

  lemma NonePurged(c: Counts)
    ensures Purged(c, []) == c
  {}

  lemma PurgedOne(c: Counts, gone: seq<Slot>, s: Slot)
    ensures var once := Bump(Purged(c, gone), "dequeued", 1);
      Purged(c, gone + [s]) == if s.received then once else Bump(once, "lost", 1)
  {
    assert (gone + [s])[..|gone|] == gone;
  }
}
