/** The counters kept over all HTCP sources: totals, and a sliding sum over the
    most recent packets that is updated incrementally. */
module HtcpStatistics {
  import opened Counters
  import opened HtcpWindow
  import opened Wrappers

  /** The sources' windows, the totals, and the sliding sum with its deque. */
  datatype Stats = Stats(sources: map<string, View>, total: Counts, sliding: Counts, recent: seq<Counts>)

  datatype Event = Event(source: string, packet: Packet)

  datatype Config = Config(buffersize: int, maxlen: nat)

  const NOTHING := Stats(map[], map[], map[], [])

  function WindowOf(sources: map<string, View>, source: string): View {
    if source in sources then sources[source] else EMPTY
  }

  /** `update_sliding_counts`. */
  function SlidCounts(sliding: Counts, recent: seq<Counts>, c: Counts, maxlen: nat): Counts {
    if |recent| + 1 > maxlen then Minus(Plus(sliding, c), (recent + [c])[0]) else Plus(sliding, c)
  }

  function SlidDeque(recent: seq<Counts>, c: Counts, maxlen: nat): seq<Counts> {
    if |recent| + 1 > maxlen then (recent + [c])[1..] else recent + [c]
  }

  function Slide(st: Stats, c: Counts, maxlen: nat): Stats {
    st.(sliding := SlidCounts(st.sliding, st.recent, c, maxlen), recent := SlidDeque(st.recent, c, maxlen))
  }

  /** Before the sliding sum takes the counts in. */
  function Counted(st: Stats, e: Event, v: View, c: Counts, cfg: Config): Stats
    requires ValidWindow(v)
  {
    Stats(st.sources[e.source := Step(v, e.packet, cfg.buffersize)], Updated(st.total, c), st.sliding, st.recent)
  }

  /** The critical section of `checkhtcpseq`. */
  function Check(st: Stats, e: Event, cfg: Config): Stats
    requires ValidWindow(WindowOf(st.sources, e.source))
  {
    var v := WindowOf(st.sources, e.source);
    var c := AddCounts(v.slots, e.packet, cfg.buffersize);
    Slide(Counted(st, e, v, c, cfg), c, cfg.maxlen)
  }

  // ---------- simple sums ----------

  function RecentSum(recent: seq<Counts>, key: string): int {
    if recent == [] then 0 else Get(recent[0], key) + RecentSum(recent[1..], key)
  }

  ghost function SourceSum(sources: map<string, View>, key: string): int
    decreases |sources|
  {
    if sources == map[] then 0
    else
      var s :| s in sources;
      Get(sources[s].counts, key) + SourceSum(sources - {s}, key)
  }

  /** Only positive counts, and no more losses than removals. */
  ghost predicate SaneCounts(c: Counts) {
    (forall k :: k in c ==> c[k] > 0) && Get(c, "lost") <= Get(c, "dequeued")
  }

  ghost predicate GoodWindow(v: View) {
    ValidWindow(v) && Balanced(v)
  }

  ghost predicate ValidSources(st: Stats) {
    forall s :: s in st.sources ==> GoodWindow(st.sources[s])
  }

  ghost predicate ExactSliding(st: Stats, maxlen: nat) {
    && |st.recent| <= maxlen
    && (forall c :: c in st.recent ==> SaneCounts(c))
    && (forall k :: Get(st.sliding, k) == RecentSum(st.recent, k))
  }

  ghost predicate ExactTotals(st: Stats) {
    forall k :: Get(st.total, k) == SourceSum(st.sources, k)
  }

  // ---------- the sliding sum ----------

  lemma {:induction false} RecentSumAppend(recent: seq<Counts>, c: Counts, key: string)
    ensures RecentSum(recent + [c], key) == RecentSum(recent, key) + Get(c, key)
  {
    if recent == [] {
      assert [c][1..] == [];
    } else {
      assert (recent + [c])[1..] == recent[1..] + [c];
      RecentSumAppend(recent[1..], c, key);
    }
  }

  lemma {:induction false} RecentSumSane(recent: seq<Counts>, key: string)
    requires forall c :: c in recent ==> SaneCounts(c)
    ensures 0 <= RecentSum(recent, key)
    ensures RecentSum(recent, "lost") <= RecentSum(recent, "dequeued")
  {
    if recent != [] {
      assert SaneCounts(recent[0]);
      RecentSumSane(recent[1..], key);
    }
  }

  /** Adding the newest and subtracting the oldest keeps the plain sum: the
      truncation in the subtraction never cuts anything off. */
  lemma SlideIsExact(st: Stats, c: Counts, maxlen: nat)
    requires ExactSliding(st, maxlen) && SaneCounts(c)
    ensures ExactSliding(Slide(st, c, maxlen), maxlen)
  {
    var next, all := Slide(st, c, maxlen), st.recent + [c];
    assert forall x :: x in all ==> SaneCounts(x);
    forall k ensures Get(next.sliding, k) == RecentSum(next.recent, k) {
      RecentSumAppend(st.recent, c, k);
      RecentSumSane(st.recent, k);
      RecentSumSane(all[1..], k);
    }
  }

  // ---------- the totals ----------

  lemma {:induction false} SourceSumSplit(sources: map<string, View>, s: string, key: string)
    requires s in sources
    ensures SourceSum(sources, key) == Get(sources[s].counts, key) + SourceSum(sources - {s}, key)
    decreases |sources|
  {
    var first :| first in sources
      && SourceSum(sources, key) == Get(sources[first].counts, key) + SourceSum(sources - {first}, key);
    if first != s {
      SourceSumSplit(sources - {first}, s, key);
      SourceSumSplit(sources - {s}, first, key);
      assert sources - {first} - {s} == sources - {s} - {first};
    }
  }

  lemma SourceSumUpdate(sources: map<string, View>, s: string, v: View, key: string)
    ensures SourceSum(sources[s := v], key)
      == SourceSum(sources, key) + Get(v.counts, key) - (if s in sources then Get(sources[s].counts, key) else 0)
  {
    SourceSumSplit(sources[s := v], s, key);
    assert sources[s := v] - {s} == sources - {s};
    if s in sources {
      SourceSumSplit(sources, s, key);
    } else {
      assert sources - {s} == sources;
    }
  }

  lemma TotalsAreExact(st: Stats, e: Event, cfg: Config)
    requires ValidWindow(WindowOf(st.sources, e.source)) && ExactTotals(st)
    ensures ExactTotals(Check(st, e, cfg))
  {
    var v := WindowOf(st.sources, e.source);
    var c := AddCounts(v.slots, e.packet, cfg.buffersize);
    var w := Step(v, e.packet, cfg.buffersize);
    assert w.counts == Updated(v.counts, c);
    assert Check(st, e, cfg).total == Updated(st.total, c);
    assert Check(st, e, cfg).sources == st.sources[e.source := w];
    hide Step, AddCounts, ValidWindow, Updated, Check;
    forall k ensures Get(Check(st, e, cfg).total, k) == SourceSum(Check(st, e, cfg).sources, k) {
      UpdatedGet(v.counts, c, k);
      UpdatedGet(st.total, c, k);
      SourceSumUpdate(st.sources, e.source, w, k);
    }
  }

  // ---------- whole runs ----------

  lemma AddCountsAreSane(v: View, p: Packet, buffersize: int)
    requires ValidWindow(v)
    ensures SaneCounts(AddCounts(v.slots, p, buffersize))
  {
    AddCountsByKey(v.slots, p, buffersize);
    MissingBound(Gone(v.slots, p, buffersize));
  }

  ghost predicate ValidStats(st: Stats, maxlen: nat) {
    ValidSources(st) && ExactSliding(st, maxlen) && ExactTotals(st)
  }

  lemma StepKeepsGood(v: View, p: Packet, buffersize: int)
    requires GoodWindow(v)
    ensures ValidWindow(v) && GoodWindow(Step(v, p, buffersize))
  {
    StepKeepsWindow(v, p, buffersize);
    StepKeepsBalance(v, p, buffersize);
  }

  lemma WindowOfIsGood(st: Stats, source: string)
    requires ValidSources(st)
    ensures GoodWindow(WindowOf(st.sources, source)) && ValidWindow(WindowOf(st.sources, source))
  {}

  lemma CheckKeepsSources(st: Stats, e: Event, cfg: Config)
    requires ValidSources(st)
    ensures ValidWindow(WindowOf(st.sources, e.source))
    ensures ValidSources(Check(st, e, cfg))
  {
    WindowOfIsGood(st, e.source);
    var v := WindowOf(st.sources, e.source);
    var w := Step(v, e.packet, cfg.buffersize);
    assert Check(st, e, cfg).sources == st.sources[e.source := w];
    hide Check, Step, GoodWindow, ValidWindow;
    StepKeepsGood(v, e.packet, cfg.buffersize);
  }

  /** Every packet keeps the totals and the sliding sum equal to the plain sums. */
  lemma CheckKeepsStats(st: Stats, e: Event, cfg: Config)
    requires ValidStats(st, cfg.maxlen)
    ensures ValidWindow(WindowOf(st.sources, e.source))
    ensures ValidStats(Check(st, e, cfg), cfg.maxlen)
  {
    CheckKeepsSources(st, e, cfg);
    var v := WindowOf(st.sources, e.source);
    var c := AddCounts(v.slots, e.packet, cfg.buffersize);
    AddCountsAreSane(v, e.packet, cfg.buffersize);
    TotalsAreExact(st, e, cfg);
    SlideIsExact(Counted(st, e, v, c, cfg), c, cfg.maxlen);
    assert ExactSliding(Check(st, e, cfg), cfg.maxlen);
    hide ValidSources, ExactSliding, ExactTotals, Check;
  }

  ghost function RunAll(events: seq<Event>, cfg: Config): (st: Stats)
    ensures ValidStats(st, cfg.maxlen)
  {
    if events == [] then NOTHING
    else
      var before := RunAll(events[..|events| - 1], cfg);
      CheckKeepsStats(before, events[|events| - 1], cfg);
      Check(before, events[|events| - 1], cfg)
  }

  /** `metric_handler("htcp_losspct")`: a division by zero is reported as `None`. */
  function LossPercent(sliding: Counts): Option<real> {
    if Get(sliding, "dequeued") == 0 then None
    else Some(Get(sliding, "lost") as real / Get(sliding, "dequeued") as real * 100.0)
  }

  /** What is reported is the lost share of the removed slots, in percent. */
  lemma LossPercentExact(sliding: Counts)
    ensures LossPercent(sliding).None? <==> Get(sliding, "dequeued") == 0
    ensures LossPercent(sliding).Some? ==>
      LossPercent(sliding).value * Get(sliding, "dequeued") as real == 100.0 * Get(sliding, "lost") as real
  {
    var lost, dequeued := Get(sliding, "lost") as real, Get(sliding, "dequeued") as real;
    if dequeued != 0.0 {
      var q := lost / dequeued;
      assert q * dequeued == lost;
      assert q * 100.0 * dequeued == 100.0 * (q * dequeued);
    }
  }

  /** The counters that the packets of a run were given, in order. */
  ghost function CountersOf(events: seq<Event>, cfg: Config): (cs: seq<Counts>)
    ensures |cs| == |events|
  {
    if events == [] then []
    else
      var init, e := events[..|events| - 1], events[|events| - 1];
      WindowOfIsGood(RunAll(init, cfg), e.source);
      CountersOf(init, cfg) + [AddCounts(WindowOf(RunAll(init, cfg).sources, e.source).slots, e.packet, cfg.buffersize)]
  }

  function Lesser(a: nat, b: nat): nat {
    if a < b then a else b
  }

  lemma LastOnes(all: seq<Counts>, recent: seq<Counts>, c: Counts, maxlen: nat)
    requires recent == all[|all| - Lesser(|all|, maxlen)..]
    ensures var more := all + [c]; SlidDeque(recent, c, maxlen) == more[|more| - Lesser(|more|, maxlen)..]
  {
    var more := all + [c];
    assert recent + [c] == more[|all| - Lesser(|all|, maxlen)..];
  }

  lemma CountersNext(events: seq<Event>, cfg: Config)
    requires events != []
    ensures var before, e := RunAll(events[..|events| - 1], cfg), events[|events| - 1];
      && ValidWindow(WindowOf(before.sources, e.source))
      && CountersOf(events, cfg) == CountersOf(events[..|events| - 1], cfg)
           + [AddCounts(WindowOf(before.sources, e.source).slots, e.packet, cfg.buffersize)]
  {
    WindowOfIsGood(RunAll(events[..|events| - 1], cfg), events[|events| - 1].source);
    hide RunAll, AddCounts, WindowOf, ValidWindow;
  }

  /** The deque holds the counters of the last packets, as many as fit; so the sliding
      counts are the sum over exactly those. */
  lemma {:induction false} RecentIsLast(events: seq<Event>, cfg: Config)
    ensures var all := CountersOf(events, cfg);
      RunAll(events, cfg).recent == all[|all| - Lesser(|all|, cfg.maxlen)..]
    ensures forall k :: Get(RunAll(events, cfg).sliding, k) == RecentSum(RunAll(events, cfg).recent, k)
  {
    SlidingIsSum(events, cfg);
    hide RunAll, CountersOf, SlidDeque, AddCounts, WindowOf, Get, RecentSum, Lesser;
    if events == [] {
      NothingRun(cfg);
    } else {
      var init, e := events[..|events| - 1], events[|events| - 1];
      RecentIsLast(init, cfg);
      RunStepsOn(events, cfg);
      CountersNext(events, cfg);
      var before := RunAll(init, cfg);
      var c := AddCounts(WindowOf(before.sources, e.source).slots, e.packet, cfg.buffersize);
      LastOnes(CountersOf(init, cfg), before.recent, c, cfg.maxlen);
    }
  }

  lemma SlidingIsSum(events: seq<Event>, cfg: Config)
    ensures forall k :: Get(RunAll(events, cfg).sliding, k) == RecentSum(RunAll(events, cfg).recent, k)
  {
    var st := RunAll(events, cfg);
    assert ExactSliding(st, cfg.maxlen);
  }

  lemma NothingRun(cfg: Config)
    ensures RunAll([], cfg) == NOTHING && CountersOf([], cfg) == []
    ensures Lesser(0, cfg.maxlen) == 0
  {}

  lemma RunStepsOn(events: seq<Event>, cfg: Config)
    requires events != []
    ensures var before, e := RunAll(events[..|events| - 1], cfg), events[|events| - 1];
      && ValidWindow(WindowOf(before.sources, e.source))
      && var c := AddCounts(WindowOf(before.sources, e.source).slots, e.packet, cfg.buffersize);
         && RunAll(events, cfg).recent == SlidDeque(before.recent, c, cfg.maxlen)
         && RunAll(events, cfg).sources
            == before.sources[e.source := Step(WindowOf(before.sources, e.source), e.packet, cfg.buffersize)]
  {
    var before, e := RunAll(events[..|events| - 1], cfg), events[|events| - 1];
    WindowOfIsGood(before, e.source);
    hide ValidStats, ValidWindow, Step, AddCounts, SlidDeque, SlidCounts, WindowOf, Updated;
    assert RunAll(events, cfg) == Check(before, e, cfg);
  }

  /** The packets that one source sent. */
  function PacketsOf(events: seq<Event>, source: string): seq<Packet> {
    if events == [] then []
    else
      PacketsOf(events[..|events| - 1], source)
      + if events[|events| - 1].source == source then [events[|events| - 1].packet] else []
  }

  lemma RunNext(packets: seq<Packet>, p: Packet, buffersize: int)
    ensures ValidWindow(Run(packets, buffersize))
    ensures Run(packets + [p], buffersize) == Step(Run(packets, buffersize), p, buffersize)
  {
    assert (packets + [p])[..|packets|] == packets;
    hide Step, ValidWindow;
  }

  lemma NoPackets(source: string, cfg: Config)
    ensures WindowOf(RunAll([], cfg).sources, source) == EMPTY == Run(PacketsOf([], source), cfg.buffersize)
  {}

  /** Each source's window and counts are those of a run over its own packets. */
  lemma {:induction false} SourcesRunApart(events: seq<Event>, cfg: Config, source: string)
    ensures WindowOf(RunAll(events, cfg).sources, source) == Run(PacketsOf(events, source), cfg.buffersize)
  {
    hide RunAll, Run, Step, ValidWindow, AddCounts, SlidDeque;
    if events == [] {
      NoPackets(source, cfg);
    } else {
      var init, e := events[..|events| - 1], events[|events| - 1];
      SourcesRunApart(init, cfg, source);
      RunStepsOn(events, cfg);
      RunNext(PacketsOf(init, source), e.packet, cfg.buffersize);
      assert e.source != source ==> PacketsOf(events, source) == PacketsOf(init, source);
      assert e.source == source ==> PacketsOf(events, source) == PacketsOf(init, source) + [e.packet];
    }
  }

  lemma SlidingIsSane(st: Stats, maxlen: nat)
    requires ExactSliding(st, maxlen)
    ensures 0 <= Get(st.sliding, "lost") <= Get(st.sliding, "dequeued")
  {
    hide Get, SaneCounts;
    RecentSumSane(st.recent, "lost");
  }

  /** The reported percentage is one, in every reachable state. */
  lemma LossPercentInRange(events: seq<Event>, cfg: Config)
    ensures var loss := LossPercent(RunAll(events, cfg).sliding); loss.Some? ==> 0.0 <= loss.value <= 100.0
  {
    var st := RunAll(events, cfg);
    assert ExactSliding(st, cfg.maxlen);
    hide RunAll, ExactSliding, Get;
    SlidingIsSane(st, cfg.maxlen);
    Ratio(Get(st.sliding, "lost"), Get(st.sliding, "dequeued"));
  }

  lemma Ratio(lost: int, dequeued: int)
    requires 0 <= lost <= dequeued
    ensures dequeued != 0 ==> 0.0 <= lost as real / dequeued as real * 100.0 <= 100.0
  {
    if dequeued != 0 {
      var q := lost as real / dequeued as real;
      assert q * dequeued as real == lost as real;
      assert 0.0 <= q <= 1.0;
    }
  }

  lemma SlidingCoversNewest(st: Stats, c: Counts, maxlen: nat)
    requires ExactSliding(st, maxlen) && st.recent != [] && st.recent[|st.recent| - 1] == c
    ensures Get(st.sliding, "dequeued") >= Get(c, "dequeued")
  {
    hide Get, SaneCounts;
    var older := st.recent[..|st.recent| - 1];
    assert st.recent == older + [c];
    RecentSumAppend(older, c, "dequeued");
    RecentSumSane(older, "dequeued");
  }

  lemma SourceCoversNewest(v: View, p: Packet, buffersize: int)
    requires GoodWindow(v) && ValidWindow(v)
    ensures Get(Step(v, p, buffersize).counts, "dequeued") >= Get(AddCounts(v.slots, p, buffersize), "dequeued")
    ensures Get(AddCounts(v.slots, p, buffersize), "lost") <= Get(AddCounts(v.slots, p, buffersize), "dequeued")
  {
    assert Get(v.counts, "dequeued") >= 0;
    hide Step, AddCounts, Get, ValidWindow, GoodWindow, Gone, Kind;
    StepCounts(v, p, buffersize);
    AddCountsByKey(v.slots, p, buffersize);
    MissingBound(Gone(v.slots, p, buffersize));
  }

  /** The two divisions in the printed report are by positive numbers whenever the
      report is printed, that is, when this packet made a slot count as lost. */
  lemma ReportDividesByPositive(st: Stats, e: Event, cfg: Config)
    requires ValidStats(st, cfg.maxlen) && cfg.maxlen >= 1
    requires ValidWindow(WindowOf(st.sources, e.source))
    requires Get(AddCounts(WindowOf(st.sources, e.source).slots, e.packet, cfg.buffersize), "lost") > 0
    ensures Get(Check(st, e, cfg).sliding, "dequeued") > 0
    ensures Get(Check(st, e, cfg).sources[e.source].counts, "dequeued") > 0
  {
    var v, next := WindowOf(st.sources, e.source), Check(st, e, cfg);
    var c := AddCounts(v.slots, e.packet, cfg.buffersize);
    assert next.recent != [] && next.recent[|next.recent| - 1] == c;
    assert next.sources[e.source] == Step(v, e.packet, cfg.buffersize);
    hide *;
    WindowOfIsGoodIn(st, e.source, cfg.maxlen);
    NextIsExact(st, e, cfg);
    SourceCoversNewest(v, e.packet, cfg.buffersize);
    SlidingCoversNewest(next, c, cfg.maxlen);
  }

  lemma WindowOfIsGoodIn(st: Stats, source: string, maxlen: nat)
    requires ValidStats(st, maxlen)
    ensures GoodWindow(WindowOf(st.sources, source)) && ValidWindow(WindowOf(st.sources, source))
    ensures Balanced(WindowOf(st.sources, source))
  {
    WindowOfIsGood(st, source);
  }

  lemma NextIsExact(st: Stats, e: Event, cfg: Config)
    requires ValidStats(st, cfg.maxlen) && ValidWindow(WindowOf(st.sources, e.source))
    ensures ExactSliding(Check(st, e, cfg), cfg.maxlen)
  {
    CheckKeepsStats(st, e, cfg);
  }

  // ---------- the module's state ----------

  class HtcpCheck {
    const cfg: Config
    var sourcebuf: map<string, RingBuffer>
    var totalcounts: Counts
    var slidingcounts: Counts
    var slidingdeque: seq<Counts>
    ghost var windows: map<string, View>

    ghost function AsStats(): Stats
      reads this
    {
      Stats(windows, totalcounts, slidingcounts, slidingdeque)
    }

    ghost predicate Holds(sb: RingBuffer, source: string, v: View)
      reads sb
    {
      sb.source == source && sb.buffersize == cfg.buffersize && sb.AsView() == v
    }

    /** Each source has a ring buffer of its own, and `windows` is what they hold. */
    ghost predicate Separate()
      reads this`sourcebuf, this`windows, sourcebuf.Values
    {
      && sourcebuf.Keys == windows.Keys
      && forall s :: s in sourcebuf ==> Holds(sourcebuf[s], s, windows[s])
    }

    /** And all counters are the plain sums. */
    ghost predicate Valid()
      reads this, sourcebuf.Values
    {
      Separate() && ValidStats(AsStats(), cfg.maxlen)
    }

    constructor (cfg: Config)
      ensures Valid() && AsStats() == NOTHING && this.cfg == cfg
    {
      this.cfg, windows := cfg, map[];
      sourcebuf, totalcounts, slidingcounts, slidingdeque := map[], map[], map[], [];
    }

    method UpdateSlidingCounts(counts: Counts)
      modifies this`slidingcounts, this`slidingdeque
      ensures slidingcounts == SlidCounts(old(slidingcounts), old(slidingdeque), counts, cfg.maxlen)
      ensures slidingdeque == SlidDeque(old(slidingdeque), counts, cfg.maxlen)
    {
      slidingcounts := Counters.Add(slidingcounts, counts);
      slidingdeque := slidingdeque + [counts];
      if |slidingdeque| > cfg.maxlen {
        slidingcounts := Counters.Sub(slidingcounts, slidingdeque[0]);
        slidingdeque := slidingdeque[1..];
      }
    }

    /** The critical section: the source's window, the totals and the sliding sum
        take the packet in. */
    method CheckHtcpSeq(srcaddr: string, transid: int, now: int) returns (counts: Counts)
      requires Valid()
      modifies this, sourcebuf.Values
      ensures Valid()
      ensures ValidWindow(WindowOf(old(windows), srcaddr))
      ensures AsStats() == Check(old(AsStats()), Event(srcaddr, Packet(transid, now)), cfg)
      ensures counts == AddCounts(WindowOf(old(windows), srcaddr).slots, Packet(transid, now), cfg.buffersize)
    {
      ghost var st, e := AsStats(), Event(srcaddr, Packet(transid, now));
      hide Check, ValidStats, WindowOf, ValidWindow, Balanced, Step, AddCounts, Updated, SlidCounts, SlidDeque,
        Separate;
      CheckKeepsStats(st, e, cfg);
      WindowOfIsGoodIn(st, srcaddr, cfg.maxlen);
      CheckFields(st, e, cfg);
      counts := AddToSource(srcaddr, transid, now);
      totalcounts := Counters.Update(totalcounts, counts);
      UpdateSlidingCounts(counts);
    }

    /** `sourcebuf.setdefault(srcaddr, RingBuffer())` and `add` on the result. */
    method AddToSource(srcaddr: string, transid: int, now: int) returns (counts: Counts)
      requires Separate()
      requires ValidWindow(WindowOf(windows, srcaddr)) && Balanced(WindowOf(windows, srcaddr))
      modifies this`sourcebuf, this`windows, sourcebuf.Values
      ensures Separate()
      ensures ValidWindow(WindowOf(old(windows), srcaddr))
      ensures var next := Step(WindowOf(old(windows), srcaddr), Packet(transid, now), cfg.buffersize);
        windows == old(windows)[srcaddr := next]
      ensures counts == AddCounts(WindowOf(old(windows), srcaddr).slots, Packet(transid, now), cfg.buffersize)
    {
      hide WindowOf, ValidWindow, Balanced, Step, AddCounts, RingBuffer.Valid, RingBuffer.AsView;
      ghost var v, p := WindowOf(windows, srcaddr), Packet(transid, now);
      WindowShape(v);
      ghost var next := Step(v, p, cfg.buffersize);
      var sb := SetDefault(srcaddr);
      BufferShape(sb, v);
      counts := sb.Add(transid, now);
      windows := windows[srcaddr := next];
      forall s | s in sourcebuf ensures Holds(sourcebuf[s], s, windows[s]) {
        if s != srcaddr { assert sourcebuf[s] != sb; }
      }
    }

    /** `sourcebuf.setdefault(srcaddr, RingBuffer())`. */
    method SetDefault(srcaddr: string) returns (sb: RingBuffer)
      requires Separate()
      modifies this`sourcebuf
      ensures sourcebuf.Keys == windows.Keys + {srcaddr} && sourcebuf[srcaddr] == sb
      ensures srcaddr in old(sourcebuf) ==> sourcebuf == old(sourcebuf)
      ensures srcaddr !in old(sourcebuf) ==> fresh(sb)
      ensures Holds(sb, srcaddr, WindowOf(windows, srcaddr))
      ensures forall s :: s in windows ==> Holds(sourcebuf[s], s, windows[s])
    {
      if srcaddr in sourcebuf {
        return sourcebuf[srcaddr];
      }
      sb := new RingBuffer(cfg.buffersize, srcaddr);
      sourcebuf := sourcebuf[srcaddr := sb];
    }
  }

  lemma WindowShape(v: View)
    requires ValidWindow(v)
    ensures Contiguous(v.slots) && |v.births| == |v.slots|
  {}

  lemma BufferShape(sb: RingBuffer, v: View)
    requires sb.AsView() == v && ValidWindow(v) && Balanced(v)
    ensures sb.Valid() && sb.slots == v.slots && sb.log == v.log
  {}

  lemma CheckFields(st: Stats, e: Event, cfg: Config)
    requires ValidWindow(WindowOf(st.sources, e.source))
    ensures var v, next := WindowOf(st.sources, e.source), Check(st, e, cfg);
      var c := AddCounts(v.slots, e.packet, cfg.buffersize);
      && next.sources == st.sources[e.source := Step(v, e.packet, cfg.buffersize)]
      && next.total == Updated(st.total, c)
      && next.sliding == SlidCounts(st.sliding, st.recent, c, cfg.maxlen)
      && next.recent == SlidDeque(st.recent, c, cfg.maxlen)
  {}
}
