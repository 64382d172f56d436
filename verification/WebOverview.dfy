/**
 The web overview's fast path: bucket bit masks per distinct id, OR-ed per person
 and counted by mask, against the plain distinct counts of the general query.
 */
module WebOverview {
  import opened Wrappers

  // ---------------------------------------------------------------------- buckets

  /** Uniform intervals; months take the general path. */
  datatype Interval = Hour | Day | Week

  const HOUR := 3_600_000_000
  const DAY := 86_400_000_000
  const WEEK := 7 * DAY
  const MAX_BUCKETS := 1_000

  function Unit(interval: Interval): int {
    match interval case Hour => HOUR case Day => DAY case Week => WEEK
  }

  /** Days since Monday; day 0, 1970-01-01, was a Thursday. */
  function Weekday(day: int): int { (day + 3) % 7 }

  /** Start of the bucket holding `ts`, in microseconds. */
  function Truncate(ts: int, interval: Interval): int {
    match interval
    case Hour => ts / HOUR * HOUR
    case Day => ts / DAY * DAY
    case Week => (ts / DAY - Weekday(ts / DAY)) * DAY
  }

  /**
   What truncating means on the calendar: the start of the hour, of the UTC day, or of
   the week's Monday (1970-01-05, day 4, was one) at or before the time, and less than a unit before.
   */
  lemma TruncateMeans(ts: int, interval: Interval)
    ensures var start := Truncate(ts, interval);
            match interval
            case Hour => start % 3_600_000_000 == 0 && start <= ts < start + 3_600_000_000
            case Day => start % 86_400_000_000 == 0 && start <= ts < start + 86_400_000_000
            case Week => start % 86_400_000_000 == 0 && (start / 86_400_000_000 - 4) % 7 == 0 && start <= ts < start + 604_800_000_000
  {
    if interval.Week? {
      var first := ts / DAY - Weekday(ts / DAY);
      WholeDays(first);
      assert first * DAY % DAY == 0;
    }
  }

  /** A bucket start is a whole number of units from every other one. */
  lemma TruncateIsAligned(ts: int, base: int, interval: Interval)
    requires Truncate(base, interval) == base
    ensures Truncate(ts, interval) == base + (ts - base) / Unit(interval) * Unit(interval)
    ensures Truncate(ts, interval) <= ts < Truncate(ts, interval) + Unit(interval)
  {
    match interval
    case Hour => HoursAlign(ts, base / HOUR);
    case Day => DaysAlign(ts, base / DAY);
    case Week =>
      var first := base / DAY - Weekday(base / DAY);
      WholeDays(first);
      WeekStarts(base / DAY);
      assert base == first * DAY && base / DAY == first;
      WeeksAlign(ts, first);
  }

  lemma HoursAlign(ts: int, first: int)
    ensures ts / HOUR * HOUR == first * HOUR + (ts - first * HOUR) / HOUR * HOUR
  {
    assert (ts - first * HOUR) / HOUR == ts / HOUR - first;
  }

  lemma DaysAlign(ts: int, first: int)
    ensures ts / DAY * DAY == first * DAY + (ts - first * DAY) / DAY * DAY
  {
    assert (ts - first * DAY) / DAY == ts / DAY - first;
  }

  lemma WeeksAlign(ts: int, first: int)
    requires Weekday(first) == 0
    ensures (ts / DAY - Weekday(ts / DAY)) * DAY == first * DAY + (ts - first * DAY) / WEEK * WEEK
  {
    var day := ts / DAY;
    assert (ts - first * DAY) / DAY == day - first;
    assert (ts - first * DAY) / WEEK == (day - first) / 7;
    assert day - Weekday(day) == first + 7 * ((day - first) / 7);
  }

  function CountFrom(at: int, to: int, interval: Interval): nat {
    if to <= at then 0 else (to - at + Unit(interval) - 1) / Unit(interval)
  }

  function Starts(base: int, n: nat, interval: Interval): seq<int> {
    seq(n, k => base + k * Unit(interval))
  }

  /** `buckets`: the starts covering `[from, to)`, or nothing past the limit. */
  method Buckets(from: int, to: int, interval: Interval) returns (r: Option<seq<int>>)
    ensures var base := Truncate(from, interval);
            var n := CountFrom(base, to, interval);
            r == if n <= 1_000 then Some(Starts(base, n, interval)) else None
  {
    var base := Truncate(from, interval);
    hide Unit, Starts, CountFrom;
    var out: seq<int> := [];
    var at := base;
    StartsGrow(base, 0, interval);
    while at < to
      invariant |out| <= MAX_BUCKETS
      invariant at == base + |out| * Unit(interval)
      invariant out == Starts(base, |out|, interval)
      invariant CountFrom(base, to, interval) == |out| + CountFrom(at, to, interval)
    {
      OneLess(at, to, interval);
      StartsGrow(base, |out|, interval);
      if |out| == MAX_BUCKETS {
        return None;
      }
      out := out + [at];
      at := at + Unit(interval);
    }
    NoneLess(at, to, interval);
    return Some(out);
  }

  lemma StartsGrow(base: int, n: nat, interval: Interval)
    ensures Starts(base, n + 1, interval) == Starts(base, n, interval) + [base + n * Unit(interval)]
    ensures base + (n + 1) * Unit(interval) == base + n * Unit(interval) + Unit(interval)
    ensures Starts(base, 0, interval) == [] && 0 < Unit(interval) && base + 0 * Unit(interval) == base
  {
  }

  lemma NoneLess(at: int, to: int, interval: Interval)
    requires to <= at
    ensures CountFrom(at, to, interval) == 0
  {
  }

  lemma OneLess(at: int, to: int, interval: Interval)
    requires at < to
    ensures CountFrom(at, to, interval) == 1 + CountFrom(at + Unit(interval), to, interval)
  {
  }

  /** The fast path's bucket number names the bucket the general path truncates to. */
  lemma IndexIsBucket(ts: int, from: int, to: int, interval: Interval)
    requires from <= ts < to
    ensures var base, unit := Truncate(from, interval), Unit(interval);
            var n := CountFrom(base, to, interval);
            && 0 <= (ts - base) / unit < n && Starts(base, n, interval)[(ts - base) / unit] == Truncate(ts, interval)
            && forall k | 0 <= k < n && Starts(base, n, interval)[k] == Truncate(ts, interval) :: k == (ts - base) / unit
  {
    var base, unit := Truncate(from, interval), Unit(interval);
    TruncatedStays(from, interval);
    TruncateIsAligned(ts, base, interval);
    TruncateIsAligned(from, base, interval);
    match interval { case Hour => case Day => case Week => }
  }

  lemma TruncatedStays(ts: int, interval: Interval)
    ensures Truncate(Truncate(ts, interval), interval) == Truncate(ts, interval)
  {
    hide Weekday;
    match interval
    case Hour => WholeHours(ts / HOUR);
    case Day => WholeDays(ts / DAY);
    case Week =>
      var first := ts / DAY - Weekday(ts / DAY);
      WholeDays(first);
      WeekStarts(ts / DAY);
  }

  lemma WholeHours(q: int)
    ensures q * HOUR / HOUR == q
  {
  }

  lemma WholeDays(q: int)
    ensures q * DAY / DAY == q
  {
  }

  lemma WeekStarts(day: int)
    ensures Weekday(day - Weekday(day)) == 0
  {
  }

  // -------------------------------------------------------------------- grouped sums

  /** `GROUP BY` rows: for every key that occurs, how many of the subjects have it. */
  ghost predicate Grouping<K(!new), P(!new)>(rows: seq<(K, nat)>, keyOf: map<P, K>) {
    && (forall i | 0 <= i < |rows| :: rows[i].1 == |Having(keyOf, rows[i].0)|)
    && (forall i, j | 0 <= i < j < |rows| :: rows[i].0 != rows[j].0)
    && (forall p <- keyOf :: exists i :: 0 <= i < |rows| && rows[i].0 == keyOf[p])
  }

  ghost function Having<K, P(!new)>(keyOf: map<P, K>, k: K): set<P> {
    set p | p in keyOf && keyOf[p] == k
  }

  ghost function Selected<K(!new), P(!new)>(rows: seq<(K, nat)>, keyOf: map<P, K>, q: K -> bool): set<P> {
    set p | p in keyOf && q(keyOf[p]) && exists i :: 0 <= i < |rows| && rows[i].0 == keyOf[p]
  }

  /** Sum of the counts of the rows whose key satisfies `q`. */
  function Total<K>(rows: seq<(K, nat)>, q: K -> bool): nat {
    if rows == [] then 0
    else Total(rows[..|rows| - 1], q) + if q(rows[|rows| - 1].0) then rows[|rows| - 1].1 else 0
  }

  lemma {:induction false} TotalSelects<K(!new), P(!new)>(rows: seq<(K, nat)>, keyOf: map<P, K>, q: K -> bool)
    requires forall i | 0 <= i < |rows| :: rows[i].1 == |Having(keyOf, rows[i].0)|
    requires forall i, j | 0 <= i < j < |rows| :: rows[i].0 != rows[j].0
    ensures Total(rows, q) == |Selected(rows, keyOf, q)|
  {
    if rows == [] {
      assert Selected(rows, keyOf, q) == {};
    } else {
      var front, last := rows[..|rows| - 1], rows[|rows| - 1];
      TotalSelects(front, keyOf, q);
      SelectedGrows(rows, keyOf, q);
    }
  }

  lemma SelectedGrows<K(!new), P(!new)>(rows: seq<(K, nat)>, keyOf: map<P, K>, q: K -> bool)
    requires rows != []
    requires forall i, j | 0 <= i < j < |rows| :: rows[i].0 != rows[j].0
    ensures var front, last := rows[..|rows| - 1], rows[|rows| - 1];
            |Selected(rows, keyOf, q)| == |Selected(front, keyOf, q)| + if q(last.0) then |Having(keyOf, last.0)| else 0
  {
    var front, last := rows[..|rows| - 1], rows[|rows| - 1];
    var one := if q(last.0) then Having(keyOf, last.0) else {};
    forall p | p in keyOf ensures p in Selected(rows, keyOf, q) <==> p in Selected(front, keyOf, q) || p in one {
      if p in Selected(front, keyOf, q) {
        var i :| 0 <= i < |front| && front[i].0 == keyOf[p];
        assert rows[i].0 == keyOf[p];
      } else if p in one {
        assert rows[|rows| - 1].0 == keyOf[p];
      }
    }
    assert Selected(rows, keyOf, q) == Selected(front, keyOf, q) + one;
    assert Selected(front, keyOf, q) !! one;
  }

  /** Summing the counts of the groups that satisfy `q` counts every subject whose key does, once. */
  lemma TotalCounts<K(!new), P(!new)>(rows: seq<(K, nat)>, keyOf: map<P, K>, q: K -> bool)
    requires Grouping(rows, keyOf)
    ensures Total(rows, q) == |Where(keyOf, q)|
  {
    TotalSelects(rows, keyOf, q);
    assert Selected(rows, keyOf, q) == Where(keyOf, q);
  }

  ghost function Where<K, P(!new)>(keyOf: map<P, K>, q: K -> bool): set<P> {
    set p | p in keyOf && q(keyOf[p])
  }

  // ------------------------------------------------------------------------ masks

  /** A pageview in the requested range that passed the filters. */
  datatype View = View(ts: int, distinctId: string)

  /** A 64-bit word, as the set of its one bits. */
  type Word = set<nat>

  /** One visitor's columns: seen in the previous period, and the words of the current one. */
  datatype Visitor = Visitor(prev: bool, masks: seq<Word>)

  datatype Plan = Plan(from: int, base: int, interval: Interval, buckets: nat)
  {
    /** Whole words for the buckets, at least one. */
    function Words(): (r: nat)
      ensures 1 <= r && buckets <= 64 * r
    {
      if buckets == 0 then 1 else (buckets + 63) / 64
    }

    /** Bucket number in the current period, -1 in the previous one. */
    function Index(ts: int): int {
      if from <= ts then (ts - base) / Unit(interval) else -1
    }
  }

  /** Every view of the current period falls into a bucket. */
  predicate InBuckets(plan: Plan, views: seq<View>) {
    plan.base <= plan.from && forall v <- views :: plan.from <= v.ts ==> plan.Index(v.ts) < plan.buckets
  }

  function PersonOf(overrides: map<string, string>, distinctId: string): string {
    if distinctId in overrides then overrides[distinctId] else distinctId
  }

  function DistinctIds(views: seq<View>): set<string> {
    set v | v in views :: v.distinctId
  }

  function Persons(views: seq<View>, overrides: map<string, string>): set<string> {
    set id | id in DistinctIds(views) :: PersonOf(overrides, id)
  }

  /** `bit_or` of one distinct id's bucket bits that fall into word `w`. */
  function IdWord(plan: Plan, views: seq<View>, id: string, w: nat): Word {
    set v | v in views && v.distinctId == id && 64 * w <= plan.Index(v.ts) < 64 * w + 64 :: plan.Index(v.ts) - 64 * w
  }

  /** `bit_or` over the distinct ids of one person. */
  function PersonWord(plan: Plan, views: seq<View>, overrides: map<string, string>, person: string, w: nat): Word {
    set id, b | id in DistinctIds(views) && PersonOf(overrides, id) == person && b in IdWord(plan, views, id, w) :: b
  }

  function VisitorOf(plan: Plan, views: seq<View>, overrides: map<string, string>, person: string): Visitor {
    Visitor(exists v :: v in views && PersonOf(overrides, v.distinctId) == person && v.ts < plan.from,
            seq(plan.Words(), w requires 0 <= w => PersonWord(plan, views, overrides, person, w)))
  }

  predicate Bit(masks: seq<Word>, k: nat) {
    k / 64 < |masks| && k % 64 in masks[k / 64]
  }

  predicate AnyBit(masks: seq<Word>) {
    exists w :: 0 <= w < |masks| && masks[w] != {}
  }

  /** A person was seen in bucket `k` exactly when bit `k` of the merged mask is set. */
  lemma BitMeansSeen(plan: Plan, views: seq<View>, overrides: map<string, string>, person: string, k: nat)
    requires k < plan.buckets
    ensures (Bit(VisitorOf(plan, views, overrides, person).masks, k)
             <==> exists v :: v in views && PersonOf(overrides, v.distinctId) == person && plan.Index(v.ts) == k)
  {
    var w, b := k / 64, k % 64;
    var word := PersonWord(plan, views, overrides, person, w);
    assert VisitorOf(plan, views, overrides, person).masks[w] == word;
    if b in word {
      var id :| id in DistinctIds(views) && PersonOf(overrides, id) == person && b in IdWord(plan, views, id, w);
      var v :| v in views && v.distinctId == id && 64 * w <= plan.Index(v.ts) < 64 * w + 64 && plan.Index(v.ts) - 64 * w == b;
      assert plan.Index(v.ts) == k;
    }
    if exists v :: v in views && PersonOf(overrides, v.distinctId) == person && plan.Index(v.ts) == k {
      var v :| v in views && PersonOf(overrides, v.distinctId) == person && plan.Index(v.ts) == k;
      assert plan.Index(v.ts) - 64 * w == b;
      assert b in IdWord(plan, views, v.distinctId, w);
    }
  }

  /** A person was seen in the current period exactly when some bit is set. */
  lemma AnyBitMeansSeen(plan: Plan, views: seq<View>, overrides: map<string, string>, person: string)
    requires InBuckets(plan, views)
    ensures (AnyBit(VisitorOf(plan, views, overrides, person).masks)
             <==> exists v :: v in views && PersonOf(overrides, v.distinctId) == person && plan.from <= v.ts)
  {
    var masks := VisitorOf(plan, views, overrides, person).masks;
    if AnyBit(masks) {
      AnyBitIsAView(plan, views, overrides, person);
    }
    if exists v :: v in views && PersonOf(overrides, v.distinctId) == person && plan.from <= v.ts {
      var v :| v in views && PersonOf(overrides, v.distinctId) == person && plan.from <= v.ts;
      IndexNonNegative(plan, v.ts);
      var k := plan.Index(v.ts);
      BitMeansSeen(plan, views, overrides, person, k);
      assert masks[k / 64] != {};
    }
  }

  lemma AnyBitIsAView(plan: Plan, views: seq<View>, overrides: map<string, string>, person: string)
    requires AnyBit(VisitorOf(plan, views, overrides, person).masks)
    ensures exists v :: v in views && PersonOf(overrides, v.distinctId) == person && plan.from <= v.ts
  {
    var masks := VisitorOf(plan, views, overrides, person).masks;
    var w :| 0 <= w < |masks| && masks[w] != {};
    var b :| b in masks[w];
    var id :| id in DistinctIds(views) && PersonOf(overrides, id) == person && b in IdWord(plan, views, id, w);
    var v :| v in views && v.distinctId == id && 64 * w <= plan.Index(v.ts) < 64 * w + 64 && plan.Index(v.ts) - 64 * w == b;
    assert plan.from <= v.ts;
  }

  lemma IndexNonNegative(plan: Plan, ts: int)
    requires plan.base <= plan.from <= ts
    ensures 0 <= plan.Index(ts)
  {
  }

  // ------------------------------------------------------------ reading the query's rows

  /** The fast query's answer: how many persons share a mask, and how many pageviews a bucket has. */
  datatype Row = PersonRow(visitor: Visitor, count: nat) | BucketRow(index: int, count: nat)

  datatype Period = Period(visitors: nat, pageviews: nat)

  datatype Overview = Overview(previous: Period, current: Period, visitors: seq<nat>, pageviews: seq<nat>)

  function People(rows: seq<Row>): seq<(Visitor, nat)> {
    if rows == [] then []
    else People(rows[..|rows| - 1]) + (var r := rows[|rows| - 1]; if r.PersonRow? then [(r.visitor, r.count)] else [])
  }

  function Counts(rows: seq<Row>): seq<(int, nat)> {
    if rows == [] then []
    else Counts(rows[..|rows| - 1]) + (var r := rows[|rows| - 1]; if r.BucketRow? then [(r.index, r.count)] else [])
  }

  const WasBefore: Visitor -> bool := (v: Visitor) => v.prev
  const WasNow: Visitor -> bool := (v: Visitor) => AnyBit(v.masks)
  const Previous: int -> bool := i => i < 0
  const Now: int -> bool := i => i >= 0

  function InBucket(k: nat): Visitor -> bool { (v: Visitor) => Bit(v.masks, k) }

  function IsBucket(k: nat): int -> bool { i => i == k }

  /** Each bucket has one row, and the previous period is bucket -1. */
  ghost predicate OneRowEach(rows: seq<Row>) {
    && (forall i | 0 <= i < |rows| && rows[i].BucketRow? :: -1 <= rows[i].index)
    && (forall i, j | 0 <= i < j < |rows| && rows[i].BucketRow? && rows[j].BucketRow? :: rows[i].index != rows[j].index)
  }

  ghost predicate Wide(rows: seq<Row>, n: nat) {
    forall i | 0 <= i < |rows| && rows[i].PersonRow? :: n <= 64 * |rows[i].visitor.masks|
  }

  lemma TotalAppend<K>(rows: seq<(K, nat)>, row: (K, nat), q: K -> bool)
    ensures Total(rows + [row], q) == Total(rows, q) + if q(row.0) then row.1 else 0
  {
    assert (rows + [row])[..|rows|] == rows;
  }

  lemma {:induction false} NoSuchBucket(rows: seq<Row>, q: int -> bool)
    requires forall i | 0 <= i < |rows| && rows[i].BucketRow? :: !q(rows[i].index)
    ensures Total(Counts(rows), q) == 0
  {
    if rows != [] {
      var front, last := rows[..|rows| - 1], rows[|rows| - 1];
      assert forall i | 0 <= i < |front| :: front[i] == rows[i];
      NoSuchBucket(front, q);
      if last.BucketRow? {
        assert !q(last.index);
        TotalAppend(Counts(front), (last.index, last.count), q);
      } else {
        assert Counts(rows) == Counts(front) + [] == Counts(front);
      }
    }
  }

  /** The loop over the rows of the fast query. */
  method Accumulate(n: nat, rows: seq<Row>) returns (o: Overview)
    requires OneRowEach(rows) && Wide(rows, n)
    ensures o.previous == Period(Total(People(rows), WasBefore), Total(Counts(rows), Previous))
    ensures o.current == Period(Total(People(rows), WasNow), Total(Counts(rows), Now))
    ensures |o.visitors| == n && forall k | 0 <= k < n :: o.visitors[k] == Total(People(rows), InBucket(k))
    ensures |o.pageviews| == n && forall k | 0 <= k < n :: o.pageviews[k] == Total(Counts(rows), IsBucket(k))
  {
    hide Bit, AnyBit, Total, Counts, People;
    o := Overview(Period(0, 0), Period(0, 0), seq(n, _ => 0), seq(n, _ => 0));
    var r := 0;
    EmptyTotals();
    while r < |rows|
      invariant 0 <= r <= |rows|
      invariant Read(n, rows[..r], o)
    {
      var row := rows[r];
      assert rows[..r + 1][..r] == rows[..r] && rows[..r + 1][r] == row;
      if row.BucketRow? {
        BucketStep(n, rows, r, o);
        if row.index < 0 {
          o := o.(previous := o.previous.(pageviews := row.count));
        } else {
          o := o.(current := o.current.(pageviews := o.current.pageviews + row.count));
          if row.index < n {
            o := o.(pageviews := o.pageviews[row.index := row.count]);
          }
        }
      } else {
        var visitors, k := o.visitors, 0;
        while k < n
          invariant 0 <= k <= n && |visitors| == n
          invariant forall j | 0 <= j < n :: visitors[j] == o.visitors[j] + if j < k && Bit(row.visitor.masks, j) then row.count else 0
        {
          if Bit(row.visitor.masks, k) {
            visitors := visitors[k := visitors[k] + row.count];
          }
          k := k + 1;
        }
        PersonStep(n, rows, r, o);
        o := Overview(o.previous.(visitors := o.previous.visitors + if row.visitor.prev then row.count else 0),
                      o.current.(visitors := o.current.visitors + if AnyBit(row.visitor.masks) then row.count else 0),
                      visitors, o.pageviews);
      }
      r := r + 1;
    }
    assert rows[..r] == rows;
  }

  ghost predicate Read(n: nat, rows: seq<Row>, o: Overview) {
    && o.previous == Period(Total(People(rows), WasBefore), Total(Counts(rows), Previous))
    && o.current == Period(Total(People(rows), WasNow), Total(Counts(rows), Now))
    && |o.visitors| == n && (forall k | 0 <= k < n :: o.visitors[k] == Total(People(rows), InBucket(k)))
    && |o.pageviews| == n && (forall k | 0 <= k < n :: o.pageviews[k] == Total(Counts(rows), IsBucket(k)))
  }

  lemma EmptyTotals()
    ensures forall q: Visitor -> bool :: Total(People([]), q) == 0
    ensures forall q: int -> bool :: Total(Counts([]), q) == 0
  {
  }

  lemma BucketStep(n: nat, rows: seq<Row>, r: nat, o: Overview)
    requires OneRowEach(rows) && r < |rows| && rows[r].BucketRow? && Read(n, rows[..r], o)
    ensures People(rows[..r + 1]) == People(rows[..r])
    ensures var row, before, after := rows[r], Counts(rows[..r]), Counts(rows[..r + 1]);
            && Total(after, Previous) == (if row.index < 0 then row.count else Total(before, Previous))
            && Total(after, Now) == Total(before, Now) + (if row.index < 0 then 0 else row.count)
            && forall k | 0 <= k < n :: Total(after, IsBucket(k)) == if row.index == k then row.count else Total(before, IsBucket(k))
  {
    hide Total;
    var row, front := rows[r], rows[..r];
    assert rows[..r + 1][..r] == front && rows[..r + 1][r] == row;
    TotalAppend(Counts(front), (row.index, row.count), Previous);
    TotalAppend(Counts(front), (row.index, row.count), Now);
    if row.index < 0 {
      NoSuchBucket(front, Previous);
    }
    forall k | 0 <= k < n ensures Total(Counts(rows[..r + 1]), IsBucket(k)) == if row.index == k then row.count else Total(Counts(front), IsBucket(k)) {
      TotalAppend(Counts(front), (row.index, row.count), IsBucket(k));
      if row.index == k {
        NoSuchBucket(front, IsBucket(k));
      }
    }
  }

  lemma PersonStep(n: nat, rows: seq<Row>, r: nat, o: Overview)
    requires r < |rows| && rows[r].PersonRow? && Read(n, rows[..r], o)
    ensures Counts(rows[..r + 1]) == Counts(rows[..r])
    ensures var v, count, before, after := rows[r].visitor, rows[r].count, People(rows[..r]), People(rows[..r + 1]);
            && Total(after, WasBefore) == Total(before, WasBefore) + (if v.prev then count else 0)
            && Total(after, WasNow) == Total(before, WasNow) + (if AnyBit(v.masks) then count else 0)
            && forall k | 0 <= k < n :: Total(after, InBucket(k)) == Total(before, InBucket(k)) + if Bit(v.masks, k) then count else 0
  {
    hide Total, Bit, AnyBit;
    var row, front := rows[r], rows[..r];
    assert rows[..r + 1][..r] == front && rows[..r + 1][r] == row;
    TotalAppend(People(front), (row.visitor, row.count), WasBefore);
    TotalAppend(People(front), (row.visitor, row.count), WasNow);
    forall k | 0 <= k < n ensures Total(People(rows[..r + 1]), InBucket(k)) == Total(People(front), InBucket(k)) + if Bit(row.visitor.masks, k) then row.count else 0 {
      TotalAppend(People(front), (row.visitor, row.count), InBucket(k));
    }
  }

  // --------------------------------------------------------------- the general answer

  /** What the fast query returns: persons grouped by mask, and pageviews grouped by bucket. */
  ghost predicate Answers(plan: Plan, views: seq<View>, overrides: map<string, string>, rows: seq<Row>) {
    && OneRowEach(rows) && Wide(rows, plan.buckets)
    && Grouping(People(rows), VisitorMap(plan, views, overrides))
    && Grouping(Counts(rows), IndexMap(plan, views))
  }

  function VisitorMap(plan: Plan, views: seq<View>, overrides: map<string, string>): map<string, Visitor> {
    map p | p in Persons(views, overrides) :: VisitorOf(plan, views, overrides, p)
  }

  function IndexMap(plan: Plan, views: seq<View>): map<nat, int> {
    map j: nat | j < |views| :: plan.Index(views[j].ts)
  }

  /** `count(DISTINCT person)` over the views that satisfy `q`. */
  function DistinctPersons(views: seq<View>, overrides: map<string, string>, q: View -> bool): nat {
    |PersonsOf(views, overrides, q)|
  }

  function PersonsOf(views: seq<View>, overrides: map<string, string>, q: View -> bool): set<string> {
    set v | v in views && q(v) :: PersonOf(overrides, v.distinctId)
  }

  /** `count(*)` over the views that satisfy `q`. */
  function CountViews(views: seq<View>, q: View -> bool): nat {
    |Positions(views, q)|
  }

  function Positions(views: seq<View>, q: View -> bool): set<nat> {
    set j: nat | j < |views| && q(views[j])
  }

  function Earlier(plan: Plan): View -> bool { (v: View) => v.ts < plan.from }

  function Later(plan: Plan): View -> bool { (v: View) => plan.from <= v.ts }

  /** The general query's bucket: the truncated time of a current-period view. */
  function TruncatedTo(plan: Plan, start: int): View -> bool {
    (v: View) => plan.from <= v.ts && Truncate(v.ts, plan.interval) == start
  }

  function General(plan: Plan, views: seq<View>, overrides: map<string, string>): Overview {
    var starts := Starts(plan.base, plan.buckets, plan.interval);
    Overview(Period(DistinctPersons(views, overrides, Earlier(plan)), CountViews(views, Earlier(plan))),
             Period(DistinctPersons(views, overrides, Later(plan)), CountViews(views, Later(plan))),
             seq(plan.buckets, k requires 0 <= k < plan.buckets => DistinctPersons(views, overrides, TruncatedTo(plan, plan.base + k * Unit(plan.interval)))),
             seq(plan.buckets, k requires 0 <= k < plan.buckets => CountViews(views, TruncatedTo(plan, plan.base + k * Unit(plan.interval)))))
  }

  /** The plan `overview` makes for a range: buckets of the interval from the start of the range's first one. */
  ghost predicate PlanFor(plan: Plan, to: int, views: seq<View>) {
    && plan.from < to && plan.base == Truncate(plan.from, plan.interval)
    && plan.buckets == CountFrom(plan.base, to, plan.interval)
    && forall v <- views :: v.ts < to
  }

  /** A visitor is a person: ids overridden to one person count once, an id without an override counts for itself. */
  lemma VisitorsMean(plan: Plan, views: seq<View>, overrides: map<string, string>)
    ensures var o := General(plan, views, overrides);
            && o.previous.visitors == |set v | v in views && v.ts < plan.from :: (if v.distinctId in overrides then overrides[v.distinctId] else v.distinctId)|
            && o.current.visitors == |set v | v in views && plan.from <= v.ts :: (if v.distinctId in overrides then overrides[v.distinctId] else v.distinctId)|
  {
    assert PersonsOf(views, overrides, Earlier(plan))
        == set v | v in views && v.ts < plan.from :: (if v.distinctId in overrides then overrides[v.distinctId] else v.distinctId);
    assert PersonsOf(views, overrides, Later(plan))
        == set v | v in views && plan.from <= v.ts :: (if v.distinctId in overrides then overrides[v.distinctId] else v.distinctId);
  }

  lemma PersonsWith(plan: Plan, views: seq<View>, overrides: map<string, string>, q: View -> bool, b: Visitor -> bool)
    requires forall p: string :: b(VisitorOf(plan, views, overrides, p)) <==> exists v :: v in views && PersonOf(overrides, v.distinctId) == p && q(v)
    ensures |Where(VisitorMap(plan, views, overrides), b)| == DistinctPersons(views, overrides, q)
  {
    hide VisitorOf;
    var a := Where(VisitorMap(plan, views, overrides), b);
    var d := PersonsOf(views, overrides, q);
    forall p ensures p in a <==> p in d {
      if p in d {
        var v :| v in views && q(v) && PersonOf(overrides, v.distinctId) == p;
        assert v.distinctId in DistinctIds(views);
        assert p in Persons(views, overrides);
      }
    }
    assert a == d;
  }

  lemma ViewsWith(plan: Plan, views: seq<View>, q: View -> bool, b: int -> bool)
    requires forall v <- views :: b(plan.Index(v.ts)) <==> q(v)
    ensures |Where(IndexMap(plan, views), b)| == CountViews(views, q)
  {
    assert Where(IndexMap(plan, views), b) == Positions(views, q);
  }

  /** A current-period view is in bucket `k` exactly when its truncated time is that bucket's start. */
  lemma BucketIsTruncation(plan: Plan, to: int, views: seq<View>, v: View, k: nat)
    requires PlanFor(plan, to, views) && v in views && k < plan.buckets
    ensures plan.Index(v.ts) == k <==> TruncatedTo(plan, plan.base + k * Unit(plan.interval))(v)
  {
    if plan.from <= v.ts {
      IndexIsBucket(v.ts, plan.from, to, plan.interval);
    }
  }

  lemma ViewsFallInBuckets(plan: Plan, to: int, views: seq<View>)
    requires PlanFor(plan, to, views)
    ensures InBuckets(plan, views)
  {
    TruncatedStays(plan.from, plan.interval);
    TruncateIsAligned(plan.from, plan.base, plan.interval);
    forall v | v in views && plan.from <= v.ts ensures plan.Index(v.ts) < plan.buckets {
      IndexIsBucket(v.ts, plan.from, to, plan.interval);
    }
  }

  /** Whatever order the grouped rows come in, the fast overview is the general one: visitors, pageviews and both series. */
  lemma FastIsGeneral(plan: Plan, to: int, views: seq<View>, overrides: map<string, string>, rows: seq<Row>, o: Overview)
    requires PlanFor(plan, to, views) && Answers(plan, views, overrides, rows) && Read(plan.buckets, rows, o)
    ensures o == General(plan, views, overrides)
  {
    hide Persons, VisitorOf, Truncate, Total, Counts, People, Bit, AnyBit, Grouping;
    ViewsFallInBuckets(plan, to, views);
    PeriodsAgree(plan, views, overrides, rows);
    var g := General(plan, views, overrides);
    forall k | 0 <= k < plan.buckets ensures o.visitors[k] == g.visitors[k] && o.pageviews[k] == g.pageviews[k] {
      SeriesAgree(plan, to, views, overrides, rows, k);
    }
  }

  lemma PeriodsAgree(plan: Plan, views: seq<View>, overrides: map<string, string>, rows: seq<Row>)
    requires InBuckets(plan, views) && Answers(plan, views, overrides, rows)
    ensures Total(People(rows), WasBefore) == DistinctPersons(views, overrides, Earlier(plan))
    ensures Total(People(rows), WasNow) == DistinctPersons(views, overrides, Later(plan))
    ensures Total(Counts(rows), Previous) == CountViews(views, Earlier(plan))
    ensures Total(Counts(rows), Now) == CountViews(views, Later(plan))
  {
    hide Persons, Total, Counts, People, Grouping, AnyBit, Bit, VisitorMap, IndexMap, Where, Wide, OneRowEach;
    var people, indexes := VisitorMap(plan, views, overrides), IndexMap(plan, views);
    TotalCounts(People(rows), people, WasBefore);
    TotalCounts(People(rows), people, WasNow);
    TotalCounts(Counts(rows), indexes, Previous);
    TotalCounts(Counts(rows), indexes, Now);
    PersonsWith(plan, views, overrides, Earlier(plan), WasBefore);
    forall p: string ensures WasNow(VisitorOf(plan, views, overrides, p)) <==> exists v :: v in views && PersonOf(overrides, v.distinctId) == p && Later(plan)(v) {
      AnyBitMeansSeen(plan, views, overrides, p);
    }
    PersonsWith(plan, views, overrides, Later(plan), WasNow);
    forall v | v in views ensures Now(plan.Index(v.ts)) <==> Later(plan)(v) {
      if plan.from <= v.ts { IndexNonNegative(plan, v.ts); }
    }
    ViewsWith(plan, views, Earlier(plan), Previous);
    ViewsWith(plan, views, Later(plan), Now);
  }

  lemma SeriesAgree(plan: Plan, to: int, views: seq<View>, overrides: map<string, string>, rows: seq<Row>, k: nat)
    requires PlanFor(plan, to, views) && Answers(plan, views, overrides, rows) && k < plan.buckets
    ensures Total(People(rows), InBucket(k)) == DistinctPersons(views, overrides, TruncatedTo(plan, plan.base + k * Unit(plan.interval)))
    ensures Total(Counts(rows), IsBucket(k)) == CountViews(views, TruncatedTo(plan, plan.base + k * Unit(plan.interval)))
  {
    hide Persons, Total, Counts, People, Grouping, Bit, VisitorOf, Truncate, VisitorMap, IndexMap, Where, Wide, OneRowEach;
    var q := TruncatedTo(plan, plan.base + k * Unit(plan.interval));
    var people, indexes := VisitorMap(plan, views, overrides), IndexMap(plan, views);
    TotalCounts(People(rows), people, InBucket(k));
    TotalCounts(Counts(rows), indexes, IsBucket(k));
    forall v | v in views ensures IsBucket(k)(plan.Index(v.ts)) <==> q(v) {
      BucketIsTruncation(plan, to, views, v, k);
    }
    forall p: string ensures InBucket(k)(VisitorOf(plan, views, overrides, p)) <==> exists v :: v in views && PersonOf(overrides, v.distinctId) == p && q(v) {
      BitMeansSeen(plan, views, overrides, p, k);
    }
    PersonsWith(plan, views, overrides, q, InBucket(k));
    ViewsWith(plan, views, q, IsBucket(k));
  }
}
