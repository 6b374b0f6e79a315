/**
 Two-stage metric combining. The first stage counts outcomes per origin, the second folds the
 per-origin summaries into one total. The runner may bundle the inputs and merge the partial
 accumulators in any way; a run of a combiner is therefore a tree. Conservation is proved for
 every tree in both stages: what was read is what was written plus the dead letters.
 */
module Metrics {
  import opened Basics
  import opened Records
  import Routing

  /** One run of a combiner: how its final accumulator came about. */
  datatype Tree<T> = Create | AddInput(tree: Tree<T>, input: T) | Merge(left: Tree<T>, right: Tree<T>)

  function Inputs<T>(t: Tree<T>): seq<T> {
    match t
    case Create => []
    case AddInput(s, x) => Inputs(s) + [x]
    case Merge(l, r) => Inputs(l) + Inputs(r)
  }

  // ---------------------------------------------------------------- first stage

  datatype OriginAccumulator = OriginAccumulator(totalRead: int, valid: int, dlq: int)

  function AddOutcome(a: OriginAccumulator, isDLQ: bool): OriginAccumulator {
    var b := a.(totalRead := a.totalRead + 1);
    if isDLQ then b.(dlq := b.dlq + 1) else b.(valid := b.valid + 1)
  }

  function MergeOrigins(a: OriginAccumulator, b: OriginAccumulator): OriginAccumulator {
    OriginAccumulator(a.totalRead + b.totalRead, a.valid + b.valid, a.dlq + b.dlq)
  }

  function CombineOrigin(t: Tree<bool>): OriginAccumulator {
    match t
    case Create => OriginAccumulator(0, 0, 0)
    case AddInput(s, x) => AddOutcome(CombineOrigin(s), x)
    case Merge(l, r) => MergeOrigins(CombineOrigin(l), CombineOrigin(r))
  }

  function Count(flags: seq<bool>, b: bool): nat {
    if flags == [] then 0 else (if flags[0] == b then 1 else 0) + Count(flags[1..], b)
  }

  lemma {:induction false} CountConcat(a: seq<bool>, c: seq<bool>, b: bool)
    ensures Count(a + c, b) == Count(a, b) + Count(c, b)
  {
    if a == [] {
      assert a + c == c;
    } else {
      assert (a + c)[1..] == a[1..] + c;
      CountConcat(a[1..], c, b);
    }
  }

  lemma {:induction false} BothKinds(flags: seq<bool>)
    ensures Count(flags, false) + Count(flags, true) == |flags|
  {
    if flags != [] {
      BothKinds(flags[1..]);
    }
  }

  /** The counters that a population of outcomes of one origin deserves. */
  function Tally(flags: seq<bool>): OriginAccumulator {
    OriginAccumulator(|flags|, Count(flags, false), Count(flags, true))
  }

  /** However the inputs of one origin were bundled and merged, they are counted. */
  lemma {:induction false} OriginCounts(t: Tree<bool>)
    ensures CombineOrigin(t) == Tally(Inputs(t))
    ensures CombineOrigin(t).totalRead == CombineOrigin(t).valid + CombineOrigin(t).dlq
  {
    BothKinds(Inputs(t));
    match t {
      case Create =>
      case AddInput(s, x) =>
        OriginCounts(s);
        CountConcat(Inputs(s), [x], true);
        CountConcat(Inputs(s), [x], false);
      case Merge(l, r) =>
        OriginCounts(l);
        OriginCounts(r);
        CountConcat(Inputs(l), Inputs(r), true);
        CountConcat(Inputs(l), Inputs(r), false);
    }
  }

  // ---------------------------------------------------------------- second stage

  datatype OriginSummary = OriginSummary(origin: bytes, metric: OriginAccumulator)

  datatype Totals = Totals(totalRecordsRead: int, rowsWritten: int, deadLetterCount: int,
                           originMetrics: map<bytes, OriginAccumulator>)

  function AddSummary(a: Totals, s: OriginSummary): Totals {
    Totals(a.totalRecordsRead + s.metric.totalRead, a.rowsWritten + s.metric.valid, a.deadLetterCount + s.metric.dlq,
           a.originMetrics[s.origin := s.metric])
  }

  /** On a common origin the right-hand accumulator's metric overwrites the left one's. */
  function MergeTotals(a: Totals, b: Totals): Totals {
    Totals(a.totalRecordsRead + b.totalRecordsRead, a.rowsWritten + b.rowsWritten,
           a.deadLetterCount + b.deadLetterCount, a.originMetrics + b.originMetrics)
  }

  function CombineTotals(t: Tree<OriginSummary>): Totals {
    match t
    case Create => Totals(0, 0, 0, map[])
    case AddInput(s, x) => AddSummary(CombineTotals(s), x)
    case Merge(l, r) => MergeTotals(CombineTotals(l), CombineTotals(r))
  }

  function Sum(ss: seq<OriginSummary>): OriginAccumulator {
    if ss == [] then OriginAccumulator(0, 0, 0) else MergeOrigins(ss[0].metric, Sum(ss[1..]))
  }

  lemma {:induction false} SumConcat(a: seq<OriginSummary>, b: seq<OriginSummary>)
    ensures Sum(a + b) == MergeOrigins(Sum(a), Sum(b))
  {
    if a == [] {
      assert a + b == b;
    } else {
      assert (a + b)[1..] == a[1..] + b;
      SumConcat(a[1..], b);
    }
  }

  lemma SumOfNone()
    ensures Sum([]) == OriginAccumulator(0, 0, 0)
  {
  }

  lemma SumOfOne(s: OriginSummary)
    ensures Sum([s]) == s.metric
  {
  }

  ghost predicate DistinctOrigins(ss: seq<OriginSummary>) {
    forall i, j :: 0 <= i < j < |ss| ==> ss[i].origin != ss[j].origin
  }

  /** The totals are sums over the inputs whatever the tree; the map keeps every input when origins are distinct. */
  lemma {:induction false} TotalsAreSums(t: Tree<OriginSummary>)
    ensures var c, s := CombineTotals(t), Sum(Inputs(t));
            c.totalRecordsRead == s.totalRead && c.rowsWritten == s.valid && c.deadLetterCount == s.dlq
  {
    hide Sum;
    match t {
      case Create =>
        SumOfNone();
      case AddInput(s, x) =>
        TotalsAreSums(s);
        SumConcat(Inputs(s), [x]);
        SumOfOne(x);
      case Merge(l, r) =>
        TotalsAreSums(l);
        TotalsAreSums(r);
        SumConcat(Inputs(l), Inputs(r));
    }
  }

  lemma DistinctParts(a: seq<OriginSummary>, b: seq<OriginSummary>)
    requires DistinctOrigins(a + b)
    ensures DistinctOrigins(a) && DistinctOrigins(b)
    ensures forall i, j :: 0 <= i < |a| && 0 <= j < |b| ==> a[i].origin != b[j].origin
  {
    var c := a + b;
    assert forall i :: 0 <= i < |a| ==> c[i] == a[i];
    assert forall j :: 0 <= j < |b| ==> c[|a| + j] == b[j];
    forall i, j | 0 <= i < j < |b| ensures b[i].origin != b[j].origin {
      assert c[|a| + i].origin != c[|a| + j].origin;
    }
  }

  ghost predicate Holds(ss: seq<OriginSummary>, o: bytes, m: OriginAccumulator) {
    exists i :: 0 <= i < |ss| && ss[i] == OriginSummary(o, m)
  }

  lemma HoldsParts(a: seq<OriginSummary>, b: seq<OriginSummary>, o: bytes, m: OriginAccumulator)
    ensures Holds(a + b, o, m) <==> Holds(a, o, m) || Holds(b, o, m)
  {
    if Holds(a, o, m) {
      var i :| 0 <= i < |a| && a[i] == OriginSummary(o, m);
      assert (a + b)[i] == a[i];
    }
    if Holds(b, o, m) {
      var i :| 0 <= i < |b| && b[i] == OriginSummary(o, m);
      assert (a + b)[|a| + i] == b[i];
    }
  }

  /** For distinct origins the map holds exactly the summaries that were put in. */
  lemma {:induction false} MapKeepsInputs(t: Tree<OriginSummary>, o: bytes, m: OriginAccumulator)
    requires DistinctOrigins(Inputs(t))
    ensures Holds(Inputs(t), o, m) <==>
            o in CombineTotals(t).originMetrics && CombineTotals(t).originMetrics[o] == m
  {
    match t {
      case Create =>
      case AddInput(u, x) =>
        DistinctParts(Inputs(u), [x]);
        HoldsParts(Inputs(u), [x], o, m);
        MapKeepsInputs(u, o, m);
        assert [x][0] == x;
        assert Holds([x], o, m) <==> x == OriginSummary(o, m);
        if Holds(Inputs(u), o, m) {
          var i :| 0 <= i < |Inputs(u)| && Inputs(u)[i] == OriginSummary(o, m);
          assert Inputs(u)[i].origin != [x][0].origin;
        }
      case Merge(l, r) =>
        DistinctParts(Inputs(l), Inputs(r));
        HoldsParts(Inputs(l), Inputs(r), o, m);
        MapKeepsInputs(l, o, m);
        MapKeepsInputs(r, o, m);
        if o in CombineTotals(r).originMetrics {
          MapKeepsInputs(r, o, CombineTotals(r).originMetrics[o]);
        }
    }
  }

  // ---------------------------------------------------------------- both stages over one population

  datatype MetricItem = MetricItem(origin: bytes, isDLQ: bool)

  /** The outcomes of one origin, as the grouping by key hands them to the first stage. */
  function OfOrigin(items: seq<MetricItem>, origin: bytes): seq<bool> {
    if items == [] then []
    else if items[0].origin == origin then [items[0].isDLQ] + OfOrigin(items[1..], origin)
    else OfOrigin(items[1..], origin)
  }

  function Without(items: seq<MetricItem>, origin: bytes): seq<MetricItem> {
    if items == [] then []
    else if items[0].origin == origin then Without(items[1..], origin)
    else [items[0]] + Without(items[1..], origin)
  }

  function Outcomes(items: seq<MetricItem>): (flags: seq<bool>)
    ensures |flags| == |items|
  {
    if items == [] then [] else [items[0].isDLQ] + Outcomes(items[1..])
  }

  lemma {:induction false} TakeOut(items: seq<MetricItem>, origin: bytes, b: bool)
    ensures Count(Outcomes(items), b) == Count(OfOrigin(items, origin), b) + Count(Outcomes(Without(items, origin)), b)
    ensures |items| == |OfOrigin(items, origin)| + |Without(items, origin)|
  {
    if items != [] {
      TakeOut(items[1..], origin, b);
      assert Outcomes(items)[1..] == Outcomes(items[1..]);
      if items[0].origin == origin {
        assert OfOrigin(items, origin)[1..] == OfOrigin(items[1..], origin);
      } else {
        assert Without(items, origin)[1..] == Without(items[1..], origin);
        assert Outcomes(Without(items, origin))[1..] == Outcomes(Without(items[1..], origin));
      }
    }
  }

  lemma {:induction false} OthersStay(items: seq<MetricItem>, origin: bytes, o: bytes)
    requires o != origin
    ensures OfOrigin(Without(items, origin), o) == OfOrigin(items, o)
  {
    if items != [] {
      OthersStay(items[1..], origin, o);
      if items[0].origin != origin {
        assert Without(items, origin)[1..] == Without(items[1..], origin);
      }
    }
  }

  lemma {:induction false} LeftOver(items: seq<MetricItem>, origin: bytes, x: MetricItem)
    requires x in Without(items, origin)
    ensures x in items && x.origin != origin
  {
    if !(items[0].origin != origin && x == items[0]) {
      LeftOver(items[1..], origin, x);
    }
  }

  ghost predicate Covered(items: seq<MetricItem>, ss: seq<OriginSummary>) {
    forall x :: x in items ==> exists i :: 0 <= i < |ss| && ss[i].origin == x.origin
  }

  ghost predicate Counted(items: seq<MetricItem>, ss: seq<OriginSummary>) {
    forall i :: 0 <= i < |ss| ==> ss[i].metric == Tally(OfOrigin(items, ss[i].origin))
  }

  /** Taking out one origin with its summary leaves the rest covered and counted. */
  lemma TakeOutSummary(items: seq<MetricItem>, ss: seq<OriginSummary>)
    requires ss != [] && DistinctOrigins(ss) && Covered(items, ss) && Counted(items, ss)
    ensures var rest := Without(items, ss[0].origin);
            DistinctOrigins(ss[1..]) && Covered(rest, ss[1..]) && Counted(rest, ss[1..])
  {
    var o, rest := ss[0].origin, Without(items, ss[0].origin);
    assert forall i :: 0 <= i < |ss[1..]| ==> ss[1..][i] == ss[i + 1];
    forall x | x in rest ensures exists i :: 0 <= i < |ss[1..]| && ss[1..][i].origin == x.origin {
      LeftOver(items, o, x);
      var i :| 0 <= i < |ss| && ss[i].origin == x.origin;
      assert ss[1..][i - 1] == ss[i];
    }
    forall i | 0 <= i < |ss[1..]| ensures ss[1..][i].metric == Tally(OfOrigin(rest, ss[1..][i].origin)) {
      OthersStay(items, o, ss[i + 1].origin);
    }
  }

  /** Summaries of distinct origins that cover all items, each counting its own, sum to the counts of all. */
  lemma {:induction false} SummariesSum(items: seq<MetricItem>, ss: seq<OriginSummary>)
    requires DistinctOrigins(ss) && Covered(items, ss) && Counted(items, ss)
    ensures Sum(ss) == Tally(Outcomes(items))
    decreases |ss|
  {
    assert items == [] || items[0] in items;
    if ss != [] {
      var rest := Without(items, ss[0].origin);
      TakeOut(items, ss[0].origin, true);
      TakeOut(items, ss[0].origin, false);
      TakeOutSummary(items, ss);
      SummariesSum(rest, ss[1..]);
    }
  }

  /**
   What the runner does between the stages: it groups the items by origin, runs some tree of
   the first combiner over each group, and some tree of the second over the summaries, one per
   origin.
   */
  ghost predicate Combines(items: seq<MetricItem>, perOrigin: map<bytes, Tree<bool>>, summary: Tree<OriginSummary>) {
    && (forall x :: x in items ==> x.origin in perOrigin)
    && (forall o :: o in perOrigin ==> multiset(Inputs(perOrigin[o])) == multiset(OfOrigin(items, o)))
    && DistinctOrigins(Inputs(summary))
    && (forall s :: s in Inputs(summary) ==> s.origin in perOrigin && s.metric == CombineOrigin(perOrigin[s.origin]))
    && (forall o :: o in perOrigin ==> exists i :: 0 <= i < |Inputs(summary)| && Inputs(summary)[i].origin == o)
  }

  lemma {:induction false} CountIsMultiplicity(flags: seq<bool>, b: bool)
    ensures Count(flags, b) == multiset(flags)[b]
  {
    if flags != [] {
      CountIsMultiplicity(flags[1..], b);
      assert flags == [flags[0]] + flags[1..];
    }
  }

  lemma SameTally(a: seq<bool>, b: seq<bool>)
    requires multiset(a) == multiset(b)
    ensures Tally(a) == Tally(b)
  {
    CountIsMultiplicity(a, true);
    CountIsMultiplicity(a, false);
    CountIsMultiplicity(b, true);
    CountIsMultiplicity(b, false);
    BothKinds(a);
    BothKinds(b);
  }

  lemma CombinedSummaries(items: seq<MetricItem>, perOrigin: map<bytes, Tree<bool>>, summary: Tree<OriginSummary>)
    requires Combines(items, perOrigin, summary)
    ensures Covered(items, Inputs(summary)) && Counted(items, Inputs(summary))
  {
    var ss := Inputs(summary);
    forall i | 0 <= i < |ss| ensures ss[i].metric == Tally(OfOrigin(items, ss[i].origin)) {
      assert ss[i] in ss;
      var o := ss[i].origin;
      OriginCounts(perOrigin[o]);
      SameTally(Inputs(perOrigin[o]), OfOrigin(items, o));
    }
  }

  /**
   Conservation. For every population of outcomes, every bundling and every merge tree in both
   stages: the total is the number of outcomes and splits into rows written and dead letters,
   and each origin's metric counts exactly that origin's outcomes.
   */
  lemma Conservation(items: seq<MetricItem>, perOrigin: map<bytes, Tree<bool>>, summary: Tree<OriginSummary>)
    requires Combines(items, perOrigin, summary)
    ensures var c, flags := CombineTotals(summary), Outcomes(items);
            && c.totalRecordsRead == |items|
            && c.totalRecordsRead == c.rowsWritten + c.deadLetterCount
            && c.rowsWritten == Count(flags, false) && c.deadLetterCount == Count(flags, true)
    ensures forall o :: o in CombineTotals(summary).originMetrics <==> o in perOrigin
    ensures forall o :: o in CombineTotals(summary).originMetrics ==>
              CombineTotals(summary).originMetrics[o] == Tally(OfOrigin(items, o))
  {
    var ss := Inputs(summary);
    CombinedSummaries(items, perOrigin, summary);
    SummariesSum(items, ss);
    TotalsAreSums(summary);
    BothKinds(Outcomes(items));
    forall o ensures o in CombineTotals(summary).originMetrics <==> o in perOrigin
             ensures o in perOrigin ==> Holds(ss, o, Tally(OfOrigin(items, o)))
    {
      PerOrigin(items, perOrigin, summary, o);
    }
    forall o | o in perOrigin ensures CombineTotals(summary).originMetrics[o] == Tally(OfOrigin(items, o)) {
      MapKeepsInputs(summary, o, Tally(OfOrigin(items, o)));
    }
  }

  lemma PerOrigin(items: seq<MetricItem>, perOrigin: map<bytes, Tree<bool>>, summary: Tree<OriginSummary>, o: bytes)
    requires Combines(items, perOrigin, summary)
    ensures o in CombineTotals(summary).originMetrics <==> o in perOrigin
    ensures o in perOrigin ==> Holds(Inputs(summary), o, Tally(OfOrigin(items, o)))
  {
    var ss, c := Inputs(summary), CombineTotals(summary).originMetrics;
    CombinedSummaries(items, perOrigin, summary);
    if o in perOrigin {
      var i :| 0 <= i < |ss| && ss[i].origin == o;
      assert ss[i] == OriginSummary(o, Tally(OfOrigin(items, o)));
      MapKeepsInputs(summary, o, Tally(OfOrigin(items, o)));
    }
    if o in c {
      MapKeepsInputs(summary, o, c[o]);
      var i :| 0 <= i < |ss| && ss[i] == OriginSummary(o, c[o]);
      assert ss[i] in ss;
    }
  }

  /** With a repeated origin the totals still add up but the per-origin map forgets one of the two. */
  lemma RepeatedOriginForgets(o: bytes, a: OriginAccumulator, b: OriginAccumulator)
    requires a != b
    ensures var t := AddInput(AddInput(Create, OriginSummary(o, a)), OriginSummary(o, b));
            CombineTotals(t).totalRecordsRead == a.totalRead + b.totalRead
            && CombineTotals(t).originMetrics == map[o := b]
  {
    var t := AddInput(AddInput(Create, OriginSummary(o, a)), OriginSummary(o, b));
    assert CombineTotals(t.tree) == AddSummary(CombineTotals(Create), OriginSummary(o, a));
  }

  // ---------------------------------------------------------------- from records to totals

  function NonNil(recs: seq<Option<GenericRecord>>): nat {
    if recs == [] then 0 else (if recs[0].Some? then 1 else 0) + NonNil(recs[1..])
  }

  const DEFAULT_ORIGIN: bytes := [100, 101, 102, 97, 117, 108, 116]
  const UNKNOWN_ORIGIN: bytes := [117, 110, 107, 110, 111, 119, 110]

  /** The origin of an outcome: a valid record falls back on its schema id, a dead letter on a fixed name. */
  function ItemOf(o: Routing.Outcome): MetricItem {
    match o
    case Valid(rec) =>
      var file := Routing.SourceOf(rec.audit);
      MetricItem(if file != [] then file else if rec.schemaID != [] then rec.schemaID else DEFAULT_ORIGIN, false)
    case Dead(d) => MetricItem(if d.sourceFile != [] then d.sourceFile else UNKNOWN_ORIGIN, true)
  }

  /** Whose account an outcome goes to: its source file's, or else one by schema or a fixed name. */
  lemma Accounts(o: Routing.Outcome)
    ensures var item := ItemOf(o);
            && (item.isDLQ <==> o.Dead?)
            && (o.Valid? && Routing.SourceOf(o.rec.audit) != [] ==> item.origin == o.rec.audit[Routing.SOURCE_FILE])
            && (o.Valid? && Routing.SourceOf(o.rec.audit) == [] && o.rec.schemaID != [] ==>
                  item.origin == o.rec.schemaID)
            && (o.Valid? && Routing.SourceOf(o.rec.audit) == [] && o.rec.schemaID == [] ==>
                  item.origin == Routing.Ascii("default"))
            && (o.Dead? && o.letter.sourceFile != [] ==> item.origin == o.letter.sourceFile)
            && (o.Dead? && o.letter.sourceFile == [] ==> item.origin == Routing.Ascii("unknown"))
  {
  }

  /** The outcomes of a collection of records; `nows[i]` is the clock at record i. */
  function Items(cfg: Routing.Config, recs: seq<Option<GenericRecord>>, nows: seq<bytes>): (items: seq<MetricItem>)
    requires |nows| == |recs|
    ensures |items| == NonNil(recs)
  {
    if recs == [] then []
    else (if recs[0].Some? then [ItemOf(Routing.Route(cfg, recs[0].value, nows[0]))] else [])
         + Items(cfg, recs[1..], nows[1..])
  }

  lemma {:induction false} ItemsAppend(cfg: Routing.Config, recs: seq<Option<GenericRecord>>, nows: seq<bytes>, i: nat)
    requires |nows| == |recs| && i < |recs|
    ensures var before := Items(cfg, recs[..i], nows[..i]);
            Items(cfg, recs[..i + 1], nows[..i + 1]) ==
            if recs[i].Some? then before + [ItemOf(Routing.Route(cfg, recs[i].value, nows[i]))] else before
    decreases i
  {
    hide Items, ItemOf;
    ItemsBegin(cfg, recs[..i + 1], nows[..i + 1]);
    if i > 0 {
      ItemsBegin(cfg, recs[..i], nows[..i]);
      assert recs[1..][..i] == recs[..i + 1][1..] && nows[1..][..i] == nows[..i + 1][1..];
      assert recs[1..][..i - 1] == recs[..i][1..] && nows[1..][..i - 1] == nows[..i][1..];
      ItemsAppend(cfg, recs[1..], nows[1..], i - 1);
    } else {
      NoItems(cfg, recs[..1][1..], nows[..1][1..]);
      NoItems(cfg, recs[..0], nows[..0]);
    }
  }

  lemma NoItems(cfg: Routing.Config, recs: seq<Option<GenericRecord>>, nows: seq<bytes>)
    requires recs == [] && nows == []
    ensures Items(cfg, recs, nows) == []
  {
  }

  lemma ItemsBegin(cfg: Routing.Config, recs: seq<Option<GenericRecord>>, nows: seq<bytes>)
    requires |nows| == |recs| && recs != []
    ensures Items(cfg, recs, nows)
         == (if recs[0].Some? then [ItemOf(Routing.Route(cfg, recs[0].value, nows[0]))] else [])
            + Items(cfg, recs[1..], nows[1..])
  {
  }

  lemma {:induction false} OutcomesAppend(items: seq<MetricItem>, x: MetricItem)
    ensures Outcomes(items + [x]) == Outcomes(items) + [x.isDLQ]
  {
    if items != [] {
      assert (items + [x])[1..] == items[1..] + [x];
      OutcomesAppend(items[1..], x);
    }
  }

  /** Running a collection through the fused function puts on its outputs what the metrics are computed from. */
  method ProcessAll(cfg: Routing.Config, recs: seq<Option<GenericRecord>>, nows: seq<bytes>)
    returns (out: Routing.Outputs)
    requires |nows| == |recs|
    ensures var flags := Outcomes(Items(cfg, recs, nows));
            |out.valid| == Count(flags, false) && |out.dlq| == Count(flags, true)
    ensures |out.valid| + |out.dlq| == NonNil(recs)
  {
    out := new Routing.Outputs();
    for i := 0 to |recs|
      invariant fresh(out)
      invariant |out.valid| == Count(Outcomes(Items(cfg, recs[..i], nows[..i])), false)
      invariant |out.dlq| == Count(Outcomes(Items(cfg, recs[..i], nows[..i])), true)
    {
      ItemsAppend(cfg, recs, nows, i);
      if recs[i].Some? {
        var x := ItemOf(Routing.Route(cfg, recs[i].value, nows[i]));
        OutcomesAppend(Items(cfg, recs[..i], nows[..i]), x);
        assert [x.isDLQ][1..] == [];
        CountConcat(Outcomes(Items(cfg, recs[..i], nows[..i])), [x.isDLQ], true);
        CountConcat(Outcomes(Items(cfg, recs[..i], nows[..i])), [x.isDLQ], false);
      }
      Routing.ProcessElement(cfg, recs[i], nows[i], out);
    }
    assert recs[..|recs|] == recs && nows[..|nows|] == nows;
    BothKinds(Outcomes(Items(cfg, recs, nows)));
  }

  /**
   From records to totals. Every record that is not nil is counted once, as a row written if it
   went to the valid output and as a dead letter otherwise, through any combining.
   */
  lemma NoRecordUncounted(cfg: Routing.Config, recs: seq<Option<GenericRecord>>, nows: seq<bytes>,
                          perOrigin: map<bytes, Tree<bool>>, summary: Tree<OriginSummary>)
    requires |nows| == |recs| && Combines(Items(cfg, recs, nows), perOrigin, summary)
    ensures var c, flags := CombineTotals(summary), Outcomes(Items(cfg, recs, nows));
            && c.totalRecordsRead == NonNil(recs) == c.rowsWritten + c.deadLetterCount
            && c.rowsWritten == Count(flags, false) && c.deadLetterCount == Count(flags, true)
  {
    Conservation(Items(cfg, recs, nows), perOrigin, summary);
  }
}
