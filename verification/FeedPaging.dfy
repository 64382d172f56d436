/**
 The event feed: day windows that double in length, one page cut from what they
 hold, and what a client sees that follows the cursor to the end.
 */
module FeedPaging {
  import opened Wrappers
  import opened Powers

  const MAX_WINDOWS := 24
  const MICROS_PER_DAY := 86_400_000_000
  /** First and last representable day, counted from 1970-01-01. */
  const MIN_DAY := -96_465_293
  const MAX_DAY := 95_026_236

  /** A matching event; `tag` stands for everything but its time. */
  datatype Ev = Ev(micros: int, tag: nat)

  function Day(micros: int): int { micros / MICROS_PER_DAY }

  /** Newest first; ties stay in one fixed order. */
  predicate Sorted(rows: seq<Ev>) {
    forall i, j | 0 <= i < j < |rows| :: rows[j].micros <= rows[i].micros
  }

  predicate IsBefore(micros: int, before: Option<int>) {
    before.None? || micros < before.value
  }

  /** What one window's query matches: rows before the cursor on days `lo` up to `hi`. */
  function Matching(rows: seq<Ev>, before: Option<int>, lo: int, hi: int): seq<Ev> {
    if rows == [] then []
    else
      Matching(rows[..|rows| - 1], before, lo, hi)
      + (var r := rows[|rows| - 1]; if IsBefore(r.micros, before) && lo <= Day(r.micros) < hi then [r] else [])
  }

  function Take(rows: seq<Ev>, n: nat): seq<Ev> {
    if n <= |rows| then rows[..n] else rows
  }

  // ---------------------------------------------------------------------- windows

  function FirstHi(before: Option<int>, today: int): int {
    match before
    case Some(b) => if Day(b - 1) == MAX_DAY then MAX_DAY else Day(b - 1) + 1
    case None => if today + 2 <= MAX_DAY then today + 2 else today
  }

  function FirstSpan(before: Option<int>): nat {
    if before.Some? then 1 else 2
  }

  /** The oldest day the first `n` windows reach. */
  function Floor(hi: int, span: nat, n: nat): int {
    var lo := hi - span * (Pow2(n) - 1);
    if lo < MIN_DAY then MIN_DAY else lo
  }

  /** Day windows, newest first, each twice as long as the one before. */
  class Windows {
    var hi: int
    var span: nat
    var issued: nat
    const start: int
    const unit: nat

    ghost predicate Valid()
      reads this
    {
      && issued <= MAX_WINDOWS && MIN_DAY <= start && 1 <= unit
      && span == unit * Pow2(issued) && hi == Floor(start, unit, issued)
    }

    constructor (before: Option<int>, today: int)
      requires MIN_DAY <= FirstHi(before, today)
      ensures Valid() && fresh(this) && issued == 0 && hi == start == FirstHi(before, today) && unit == FirstSpan(before)
    {
      hi, span, issued := FirstHi(before, today), FirstSpan(before), 0;
      start, unit := FirstHi(before, today), FirstSpan(before);
    }

    method Next() returns (window: Option<(int, int)>)
      requires Valid()
      modifies this
      ensures Valid()
      ensures window.None? ==> (old(issued) == MAX_WINDOWS || old(hi) == MIN_DAY) && issued == old(issued) && hi == old(hi)
      ensures window.Some? ==>
                window.value == (hi, old(hi)) && hi < old(hi) && issued == old(issued) + 1
    {
      if issued == MAX_WINDOWS || hi == MIN_DAY {
        return None;
      }
      NextFloor(start, unit, issued);
      var lo := if hi - span < MIN_DAY then MIN_DAY else hi - span;
      window := Some((lo, hi));
      hi, span, issued := lo, span * 2, issued + 1;
    }
  }

  lemma NextFloor(hi: int, unit: nat, n: nat)
    requires MIN_DAY <= hi && 1 <= unit
    ensures var reached, span := Floor(hi, unit, n), unit * Pow2(n);
            && Floor(hi, unit, n + 1) == (if reached - span < MIN_DAY then MIN_DAY else reached - span)
            && span * 2 == unit * Pow2(n + 1) && 1 <= span
    ensures MIN_DAY <= Floor(hi, unit, n)
  {
    Doubled(unit, n);
  }

  lemma Doubled(unit: nat, n: nat)
    requires 1 <= unit
    ensures unit * Pow2(n + 1) == 2 * (unit * Pow2(n)) && 1 <= unit * Pow2(n)
    ensures unit * (Pow2(n + 1) - 1) == unit * (Pow2(n) - 1) + unit * Pow2(n)
  {
    assert Pow2(n + 1) == 2 * Pow2(n);
  }

  // ---------------------------------------------------------------- reading windows

  lemma {:induction false} MatchingMembers(rows: seq<Ev>, before: Option<int>, lo: int, hi: int, r: Ev)
    ensures r in Matching(rows, before, lo, hi) <==> r in rows && IsBefore(r.micros, before) && lo <= Day(r.micros) < hi
  {
    if rows != [] {
      var front := rows[..|rows| - 1];
      MatchingMembers(front, before, lo, hi, r);
      assert rows == front + [rows[|rows| - 1]];
    }
  }

  /** Consecutive windows of sorted rows follow each other. */
  lemma {:induction false} WindowsJoin(rows: seq<Ev>, before: Option<int>, lo: int, mid: int, hi: int)
    requires Sorted(rows) && lo <= mid <= hi
    ensures Matching(rows, before, lo, hi) == Matching(rows, before, mid, hi) + Matching(rows, before, lo, mid)
  {
    hide Day;
    if rows != [] {
      var front, last := rows[..|rows| - 1], rows[|rows| - 1];
      WindowsJoin(front, before, lo, mid, hi);
      if mid <= Day(last.micros) {
        forall r | r in front ensures mid <= Day(r.micros) {
          DayGrows(last.micros, r.micros);
        }
        NothingMatches(front, before, lo, mid);
      }
    }
  }

  lemma DayGrows(a: int, b: int)
    requires a <= b
    ensures Day(a) <= Day(b)
  {
  }

  lemma NothingMatches(rows: seq<Ev>, before: Option<int>, lo: int, hi: int)
    requires forall r <- rows :: !(lo <= Day(r.micros) < hi)
    ensures Matching(rows, before, lo, hi) == []
  {
    forall r | r in Matching(rows, before, lo, hi) ensures false {
      MatchingMembers(rows, before, lo, hi, r);
    }
  }

  /** Days that hold event files cover every event. */
  predicate Filed(rows: seq<Ev>, fileDays: set<int>) {
    forall r <- rows :: Day(r.micros) in fileDays
  }

  /** How far back a request reads: every window it may take, or everything if no older file is left. */
  function Reached(before: Option<int>, today: int): int {
    Floor(FirstHi(before, today), FirstSpan(before), MAX_WINDOWS)
  }

  predicate Older(fileDays: set<int>, lo: int) {
    exists d :: d in fileDays && d < lo
  }

  predicate InWindow(fileDays: set<int>, lo: int, hi: int) {
    exists d :: d in fileDays && lo <= d < hi
  }

  /** The window loop of `feed`: rows are read newest first until there is one more than a page, or nothing older. */
  method Collect(rows: seq<Ev>, fileDays: set<int>, before: Option<int>, today: int, limit: nat) returns (collected: seq<Ev>)
    requires Sorted(rows) && Filed(rows, fileDays) && MIN_DAY <= FirstHi(before, today)
    ensures collected == Take(Matching(rows, before, Reached(before, today), FirstHi(before, today)), limit + 1)
  {
    hide Matching, Floor;
    var windows := new Windows(before, today);
    ghost var top := windows.start;
    collected := [];
    EmptyWindow(rows, before, top);
    while true
      invariant windows.Valid() && fresh(windows) && windows.hi <= top && windows.start == top && windows.unit == FirstSpan(before)
      invariant |collected| <= limit && collected == Matching(rows, before, windows.hi, top)
      decreases MAX_WINDOWS - windows.issued
    {
      var window := windows.Next();
      if window.None? {
        ReachedEarly(windows.start, windows.unit, windows.issued);
        break;
      }
      var (lo, hi) := window.value;
      ghost var older := collected;
      WindowsJoin(rows, before, lo, hi, top);
      if InWindow(fileDays, lo, hi) {
        var wanted := limit + 1 - |collected|;
        collected := collected + Take(Matching(rows, before, lo, hi), wanted);
      } else {
        NothingMatches(rows, before, lo, hi);
      }
      ReachedBelow(windows.start, windows.unit, windows.issued);
      WindowsJoin(rows, before, Reached(before, today), lo, top);
      if |collected| > limit {
        return;
      }
      if !Older(fileDays, lo) {
        NothingMatches(rows, before, Reached(before, today), lo);
        return;
      }
    }
  }

  lemma EmptyWindow(rows: seq<Ev>, before: Option<int>, hi: int)
    ensures Matching(rows, before, hi, hi) == []
  {
    NothingMatches(rows, before, hi, hi);
  }

  lemma ReachedBelow(hi: int, unit: nat, n: nat)
    requires MIN_DAY <= hi && 1 <= unit && n <= MAX_WINDOWS
    ensures Floor(hi, unit, MAX_WINDOWS) <= Floor(hi, unit, n)
    decreases MAX_WINDOWS - n
  {
    if n < MAX_WINDOWS {
      NextFloor(hi, unit, n);
      ReachedBelow(hi, unit, n + 1);
    }
  }

  lemma ReachedEarly(hi: int, unit: nat, n: nat)
    requires MIN_DAY <= hi && 1 <= unit && n <= MAX_WINDOWS && (n == MAX_WINDOWS || Floor(hi, unit, n) == MIN_DAY)
    ensures Floor(hi, unit, MAX_WINDOWS) == Floor(hi, unit, n)
  {
    ReachedBelow(hi, unit, n);
  }

  // ----------------------------------------------------------------------- one page

  /** Rows before the first one of time `micros`. */
  function LeadingOther(rows: seq<Ev>, micros: int): nat {
    if rows == [] || rows[0].micros == micros then 0 else 1 + LeadingOther(rows[1..], micros)
  }

  /** A page and the exclusive cursor of the next one. */
  function CutAt(rows: seq<Ev>, limit: nat): (seq<Ev>, Option<int>)
    requires 1 <= limit
  {
    if |rows| <= limit then (rows, None)
    else
      var boundary, last := rows[limit].micros, rows[limit - 1].micros;
      if last != boundary then (rows[..limit], Some(last))
      else
        var keep := LeadingOther(rows[..limit], boundary);
        if keep == 0 then (rows[..limit], Some(boundary)) else (Take(rows[..limit], keep), Some(boundary + 1))
  }

  /** `cut_page`, which shortens the rows in place. */
  method CutPage(collected: seq<Ev>, limit: nat) returns (page: seq<Ev>, next: Option<int>)
    requires 1 <= limit
    ensures (page, next) == CutAt(collected, limit)
  {
    if |collected| <= limit {
      return collected, None;
    }
    var boundary := collected[limit].micros;
    page := collected[..limit];
    var last := page[limit - 1].micros;
    if last != boundary {
      return page, Some(last);
    }
    var keep := 0;
    while keep < |page| && page[keep].micros != boundary
      invariant 0 <= keep <= |page|
      invariant LeadingOther(page, boundary) == keep + LeadingOther(page[keep..], boundary)
    {
      assert page[keep..][1..] == page[keep + 1..];
      keep := keep + 1;
    }
    if keep == 0 {
      return page, Some(boundary);
    }
    return page[..keep], Some(boundary + 1);
  }

  /** One request: the rows read, cut to a page. */
  method Feed(rows: seq<Ev>, fileDays: set<int>, before: Option<int>, today: int, limit: nat) returns (page: seq<Ev>, next: Option<int>)
    requires Sorted(rows) && Filed(rows, fileDays) && MIN_DAY <= FirstHi(before, today) && 1 <= limit
    ensures (page, next) == Page(rows, before, today, limit)
  {
    var collected := Collect(rows, fileDays, before, today, limit);
    page, next := CutPage(collected, limit);
  }

  function Page(rows: seq<Ev>, before: Option<int>, today: int, limit: nat): (seq<Ev>, Option<int>)
    requires 1 <= limit
  {
    CutAt(Take(Matching(rows, before, Reached(before, today), FirstHi(before, today)), limit + 1), limit)
  }

  // --------------------------------------------------------------- following the cursor

  /** The rows a cursor leaves. */
  function Rest(rows: seq<Ev>, before: Option<int>): seq<Ev> {
    if rows == [] || IsBefore(rows[0].micros, before) then rows else Rest(rows[1..], before)
  }

  lemma {:induction false} RestIsSuffix(rows: seq<Ev>, before: Option<int>)
    requires Sorted(rows)
    ensures |Rest(rows, before)| <= |rows| && Rest(rows, before) == rows[|rows| - |Rest(rows, before)|..]
    ensures forall i | 0 <= i < |rows| :: IsBefore(rows[i].micros, before) <==> |rows| - |Rest(rows, before)| <= i
  {
    if rows != [] && !IsBefore(rows[0].micros, before) {
      RestIsSuffix(rows[1..], before);
    }
  }

  function Count(rows: seq<Ev>, micros: int): nat {
    if rows == [] then 0 else Count(rows[..|rows| - 1], micros) + if rows[|rows| - 1].micros == micros then 1 else 0
  }

  /** The first `limit` rows of every microsecond, in order. */
  function Capped(rows: seq<Ev>, limit: nat): seq<Ev> {
    if rows == [] then []
    else
      var front, last := rows[..|rows| - 1], rows[|rows| - 1];
      Capped(front, limit) + if Count(front, last.micros) < limit then [last] else []
  }

  lemma {:induction false} CountAbsent(rows: seq<Ev>, micros: int)
    requires forall r <- rows :: r.micros != micros
    ensures Count(rows, micros) == 0
  {
    if rows != [] {
      assert rows[|rows| - 1] in rows;
      assert forall r <- rows[..|rows| - 1] :: r in rows;
      CountAbsent(rows[..|rows| - 1], micros);
    }
  }

  lemma {:induction false} CountConcat(a: seq<Ev>, b: seq<Ev>, micros: int)
    ensures Count(a + b, micros) == Count(a, micros) + Count(b, micros)
  {
    if b == [] {
      assert a + b == a;
    } else {
      assert (a + b)[..|a + b| - 1] == a + b[..|b| - 1];
      CountConcat(a, b[..|b| - 1], micros);
    }
  }

  /** Parts that share no microsecond are capped apart. */
  lemma {:induction false} CappedConcat(a: seq<Ev>, b: seq<Ev>, limit: nat)
    requires forall x <- a, y <- b :: x.micros != y.micros
    ensures Capped(a + b, limit) == Capped(a, limit) + Capped(b, limit)
  {
    if b == [] {
      assert a + b == a;
    } else {
      var front, last := b[..|b| - 1], b[|b| - 1];
      assert (a + b)[..|a + b| - 1] == a + front;
      assert last in b && forall y <- front :: y in b;
      CappedConcat(a, front, limit);
      CountConcat(a, front, last.micros);
      CountAbsent(a, last.micros);
    }
  }

  lemma {:induction false} CountBounded(rows: seq<Ev>, micros: int)
    ensures Count(rows, micros) <= |rows|
    ensures (forall r <- rows :: r.micros == micros) ==> Count(rows, micros) == |rows|
  {
    if rows != [] {
      CountBounded(rows[..|rows| - 1], micros);
      assert rows[|rows| - 1] in rows && forall r <- rows[..|rows| - 1] :: r in rows;
    }
  }

  lemma {:induction false} CappedShort(rows: seq<Ev>, limit: nat)
    requires |rows| <= limit
    ensures Capped(rows, limit) == rows
  {
    if rows != [] {
      CappedShort(rows[..|rows| - 1], limit);
      CountBounded(rows[..|rows| - 1], rows[|rows| - 1].micros);
    }
  }

  lemma CappedUnfolds(rows: seq<Ev>, limit: nat)
    ensures rows == [] ==> Capped(rows, limit) == []
    ensures (rows != [] ==>
               var front, last := rows[..|rows| - 1], rows[|rows| - 1];
               Capped(rows, limit) == Capped(front, limit) + if Count(front, last.micros) < limit then [last] else [])
  {
  }

  lemma TakeOneMore(front: seq<Ev>, last: Ev, limit: nat)
    ensures Take(front + [last], limit) == Take(front, limit) + if |front| < limit then [last] else []
  {
  }

  predicate AllAt(rows: seq<Ev>, micros: int) {
    forall i | 0 <= i < |rows| :: rows[i].micros == micros
  }

  lemma {:induction false} CountAll(rows: seq<Ev>, micros: int)
    requires AllAt(rows, micros)
    ensures Count(rows, micros) == |rows|
  {
    if rows != [] {
      CountAll(rows[..|rows| - 1], micros);
    }
  }

  lemma {:induction false} CappedGroup(rows: seq<Ev>, micros: int, limit: nat)
    requires AllAt(rows, micros)
    ensures Capped(rows, limit) == Take(rows, limit)
  {
    assert rows == [] ==> Take(rows, limit) == [];
    hide Count, Take, Capped;
    CappedUnfolds(rows, limit);
    if rows != [] {
      var front, last := rows[..|rows| - 1], rows[|rows| - 1];
      assert AllAt(front, micros) && last.micros == micros;
      hide AllAt;
      CappedGroup(front, micros, limit);
      CountAll(front, micros);
      TakeOneMore(front, last, limit);
      assert front + [last] == rows;
    }
  }

  lemma {:induction false} LeadingIs(rows: seq<Ev>, micros: int)
    ensures LeadingOther(rows, micros) <= |rows|
    ensures forall i | 0 <= i < LeadingOther(rows, micros) :: rows[i].micros != micros
    ensures LeadingOther(rows, micros) < |rows| ==> rows[LeadingOther(rows, micros)].micros == micros
  {
    if rows != [] && rows[0].micros != micros {
      LeadingIs(rows[1..], micros);
    }
  }

  /** A page is the capped form of exactly the rows its cursor leaves behind. */
  lemma PageIsCapped(rows: seq<Ev>, limit: nat)
    requires Sorted(rows) && 1 <= limit < |rows|
    ensures var (page, next) := CutAt(rows, limit);
            var n := |rows| - |Rest(rows, next)|;
            && next.Some? && 1 <= n && page == Capped(rows[..n], limit)
            && forall i, j | 0 <= i < n <= j < |rows| :: rows[i].micros != rows[j].micros
  {
    hide Capped, Rest;
    var (page, next) := CutAt(rows, limit);
    var boundary, last := rows[limit].micros, rows[limit - 1].micros;
    LeadingIs(rows[..limit], boundary);
    if last != boundary {
      RestStarts(rows, next, limit);
      CappedShort(rows[..limit], limit);
    } else {
      var keep := LeadingOther(rows[..limit], boundary);
      assert keep < limit by { assert rows[..limit][limit - 1].micros == boundary; }
      assert rows[keep].micros == boundary by { assert rows[..limit][keep].micros == boundary; }
      if keep == 0 {
        GroupIsCapped(rows, limit);
      } else {
        assert rows[..limit][keep - 1].micros != boundary;
        RestStarts(rows, next, keep);
        CappedShort(rows[..keep], limit);
      }
    }
    RestIsSuffix(rows, next);
  }

  /** The rows a cursor leaves start where the first one lies before it. */
  lemma RestStarts(rows: seq<Ev>, next: Option<int>, k: nat)
    requires Sorted(rows) && 1 <= k < |rows| && !IsBefore(rows[k - 1].micros, next) && IsBefore(rows[k].micros, next)
    ensures |rows| - |Rest(rows, next)| == k
  {
    hide Rest;
    RestIsSuffix(rows, next);
  }

  /** A page filled by one microsecond shows the first rows of it and leaves it behind. */
  lemma GroupIsCapped(rows: seq<Ev>, limit: nat)
    requires Sorted(rows) && 1 <= limit < |rows| && rows[0].micros == rows[limit].micros
    ensures var n := |rows| - |Rest(rows, Some(rows[limit].micros))|;
            1 <= n && rows[..limit] == Capped(rows[..n], limit)
  {
    hide Capped, Rest;
    var micros := rows[limit].micros;
    RestIsSuffix(rows, Some(micros));
    var n := |rows| - |Rest(rows, Some(micros))|;
    assert limit < n;
    forall i | 0 <= i < n ensures rows[..n][i].micros == micros {
      assert !IsBefore(rows[i].micros, Some(micros));
    }
    CappedGroup(rows[..n], micros, limit);
    assert rows[..n][..limit] == rows[..limit];
  }

  /** All pages, one after the other. */
  function Visited(rows: seq<Ev>, limit: nat): seq<Ev>
    requires Sorted(rows) && 1 <= limit
    decreases |rows|
  {
    if |rows| <= limit then rows
    else
      PageIsCapped(rows, limit);
      RestIsSuffix(rows, CutAt(rows, limit).1);
      CutAt(rows, limit).0 + Visited(Rest(rows, CutAt(rows, limit).1), limit)
  }

  /** Following the cursor to the end visits, newest first, exactly the first `limit` events of every microsecond. */
  lemma {:induction false} VisitedIsCapped(rows: seq<Ev>, limit: nat)
    requires Sorted(rows) && 1 <= limit
    ensures Visited(rows, limit) == Capped(rows, limit)
    decreases |rows|
  {
    hide CutAt, Capped, Rest;
    if |rows| <= limit {
      CappedShort(rows, limit);
    } else {
      PageIsCapped(rows, limit);
      var rest := Rest(rows, CutAt(rows, limit).1);
      RestIsSuffix(rows, CutAt(rows, limit).1);
      var n := |rows| - |rest|;
      VisitedIsCapped(rest, limit);
      CappedConcat(rows[..n], rest, limit);
      assert rows == rows[..n] + rest;
    }
  }

  /** No microsecond holds more than a page of events. */
  ghost predicate FitsPages(rows: seq<Ev>, limit: nat) {
    forall m {:trigger Count(rows, m)} :: Count(rows, m) <= limit
  }

  lemma {:induction false} CappedKeepsAll(rows: seq<Ev>, limit: nat)
    requires FitsPages(rows, limit)
    ensures Capped(rows, limit) == rows
  {
    if rows != [] {
      var front, last := rows[..|rows| - 1], rows[|rows| - 1];
      assert Count(rows, last.micros) == Count(front, last.micros) + 1;
      forall m ensures Count(front, m) <= limit {
        assert Count(front, m) <= Count(rows, m);
      }
      CappedKeepsAll(front, limit);
    }
  }

  lemma {:induction false} CappedLoses(rows: seq<Ev>, limit: nat, micros: int)
    ensures |Capped(rows, limit)| <= |rows|
    ensures limit < Count(rows, micros) ==> |Capped(rows, limit)| < |rows|
  {
    if rows != [] {
      CappedLoses(rows[..|rows| - 1], limit, micros);
    }
  }

  /** Nothing is skipped exactly when no microsecond holds more than a page of events; nothing is ever repeated. */
  lemma VisitsAllIff(rows: seq<Ev>, limit: nat)
    requires Sorted(rows) && 1 <= limit
    ensures Visited(rows, limit) == rows <==> FitsPages(rows, limit)
  {
    VisitedIsCapped(rows, limit);
    if FitsPages(rows, limit) {
      CappedKeepsAll(rows, limit);
    } else {
      var m :| limit < Count(rows, m);
      CappedLoses(rows, limit, m);
      assert |Visited(rows, limit)| < |rows|;
    }
  }

  // ---------------------------------------------------------------- request after request

  /** No event past tomorrow, and none beyond what one-day-first windows reach. */
  predicate InReach(rows: seq<Ev>, today: int) {
    && today + 2 < MAX_DAY && MIN_DAY <= today + 2 - 16_777_215
    && forall r <- rows :: today + 2 - 16_777_215 <= Day(r.micros) < today + 2
  }

  /** A cursor the feed itself handed out, or none. */
  predicate UsableCursor(before: Option<int>, today: int) {
    before.Some? ==> Day(before.value - 1) + 1 <= today + 2 && MIN_DAY <= Day(before.value - 1) + 1
  }

  lemma {:induction false} MatchingConcat(a: seq<Ev>, b: seq<Ev>, before: Option<int>, lo: int, hi: int)
    ensures Matching(a + b, before, lo, hi) == Matching(a, before, lo, hi) + Matching(b, before, lo, hi)
  {
    if b == [] {
      assert a + b == a;
    } else {
      assert (a + b)[..|a + b| - 1] == a + b[..|b| - 1];
      MatchingConcat(a, b[..|b| - 1], before, lo, hi);
    }
  }

  lemma {:induction false} MatchesEvery(rows: seq<Ev>, before: Option<int>, lo: int, hi: int)
    requires forall r <- rows :: IsBefore(r.micros, before) && lo <= Day(r.micros) < hi
    ensures Matching(rows, before, lo, hi) == rows
  {
    hide Day;
    if rows != [] {
      var front, last := rows[..|rows| - 1], rows[|rows| - 1];
      assert last in rows && forall r <- front :: r in rows;
      MatchesEvery(front, before, lo, hi);
    }
  }

  lemma MatchesNone(rows: seq<Ev>, before: Option<int>, lo: int, hi: int)
    requires forall r <- rows :: !IsBefore(r.micros, before)
    ensures Matching(rows, before, lo, hi) == []
  {
    forall r | r in Matching(rows, before, lo, hi) ensures false {
      MatchingMembers(rows, before, lo, hi, r);
    }
  }

  lemma AllMatch(rows: seq<Ev>, before: Option<int>, lo: int, hi: int)
    requires Sorted(rows) && forall r <- rows :: IsBefore(r.micros, before) ==> lo <= Day(r.micros) < hi
    ensures Matching(rows, before, lo, hi) == Rest(rows, before)
  {
    hide Matching, Sorted;
    RestIsSuffix(rows, before);
    var rest := Rest(rows, before);
    var gone := rows[..|rows| - |rest|];
    assert rows == gone + rest;
    MatchingConcat(gone, rest, before, lo, hi);
    MatchesNone(gone, before, lo, hi);
    MatchesEvery(rest, before, lo, hi);
  }

  /** Within reach a request sees every event its cursor leaves. */
  lemma RequestSeesRest(rows: seq<Ev>, before: Option<int>, today: int)
    requires Sorted(rows) && InReach(rows, today) && UsableCursor(before, today)
    ensures Matching(rows, before, Reached(before, today), FirstHi(before, today)) == Rest(rows, before)
    ensures MIN_DAY <= FirstHi(before, today)
  {
    hide Pow2;
    FurthestReach();
    forall r | r in rows && IsBefore(r.micros, before) ensures Reached(before, today) <= Day(r.micros) < FirstHi(before, today) {
      if before.Some? {
        DayGrows(r.micros, before.value - 1);
      }
    }
    AllMatch(rows, before, Reached(before, today), FirstHi(before, today));
  }

  lemma NextIsUsable(rows: seq<Ev>, today: int, limit: nat, before: Option<int>)
    requires Sorted(rows) && InReach(rows, today) && 1 <= limit < |Rest(rows, before)|
    ensures UsableCursor(CutAt(Rest(rows, before), limit).1, today)
  {
    hide Pow2, Rest, LeadingOther, Sorted;
    RestIsSuffix(rows, before);
    var rest := Rest(rows, before);
    assert rest[limit] in rows && rest[limit - 1] in rows;
    var next := CutAt(rest, limit).1.value;
    assert next == rest[limit - 1].micros || next == rest[limit].micros || next == rest[limit].micros + 1;
    Neighbours(rest[limit].micros);
    Neighbours(rest[limit - 1].micros);
    assert 1 <= Pow2(MAX_WINDOWS) - 1 by { TwoOrMore(MAX_WINDOWS); }
  }

  /** What 24 doubling windows cover, in days of the first. */
  lemma FurthestReach()
    ensures Pow2(MAX_WINDOWS) - 1 == 16_777_215
  {
    assert Pow2(8) == 0x100;
    assert Pow2(16) == 0x1_0000;
    assert Pow2(24) == 0x100_0000;
  }

  lemma TwoOrMore(n: nat)
    requires 1 <= n
    ensures 2 <= Pow2(n)
  {
    assert Pow2(n) == 2 * Pow2(n - 1);
  }

  lemma Neighbours(micros: int)
    ensures Day(micros) - 1 <= Day(micros - 1) <= Day(micros)
  {
  }

  lemma {:induction false} RestOfRest(rows: seq<Ev>, before: Option<int>, next: Option<int>)
    requires forall m :: IsBefore(m, next) ==> IsBefore(m, before)
    ensures Rest(Rest(rows, before), next) == Rest(rows, next)
  {
    if rows != [] && !IsBefore(rows[0].micros, before) {
      RestOfRest(rows[1..], before, next);
    }
  }

  /** A request within reach cuts its page from everything its cursor leaves. */
  lemma RequestPage(rows: seq<Ev>, before: Option<int>, today: int, limit: nat)
    requires Sorted(rows) && InReach(rows, today) && UsableCursor(before, today) && 1 <= limit
    ensures Sorted(Rest(rows, before)) && Page(rows, before, today, limit) == CutAt(Rest(rows, before), limit)
  {
    hide Matching, Floor, Pow2, InReach, UsableCursor, Rest, LeadingOther;
    RequestSeesRest(rows, before, today);
    RestIsSuffix(rows, before);
    var rest := Rest(rows, before);
    if limit < |rest| {
      var seen := Take(rest, limit + 1);
      assert seen[..limit] == rest[..limit];
    }
  }

  /** Where a request leaves the client: the page it got, and fewer rows for the next cursor. */
  lemma RequestStep(rows: seq<Ev>, before: Option<int>, today: int, limit: nat)
    requires Sorted(rows) && InReach(rows, today) && UsableCursor(before, today) && 1 <= limit
    ensures Sorted(Rest(rows, before)) && Page(rows, before, today, limit) == CutAt(Rest(rows, before), limit)
    ensures (|Rest(rows, before)| > limit ==>
               var next := Page(rows, before, today, limit).1;
               && UsableCursor(next, today) && Rest(rows, next) == Rest(Rest(rows, before), next)
               && |Rest(rows, next)| < |Rest(rows, before)|)
  {
    hide Sorted, InReach, UsableCursor, Rest, Page, CutAt;
    RequestPage(rows, before, today, limit);
    var rest := Rest(rows, before);
    RestIsSuffix(rows, before);
    if limit < |rest| {
      NextIsUsable(rows, today, limit, before);
      PageIsCapped(rest, limit);
      CursorDescends(rest, before, limit);
      RestOfRest(rows, before, CutAt(rest, limit).1);
    }
  }

  lemma CursorDescends(rest: seq<Ev>, before: Option<int>, limit: nat)
    requires Sorted(rest) && 1 <= limit < |rest| && forall r <- rest :: IsBefore(r.micros, before)
    ensures forall m :: IsBefore(m, CutAt(rest, limit).1) ==> IsBefore(m, before)
  {
    assert rest[limit] in rest && rest[limit - 1] in rest;
    LeadingIs(rest[..limit], rest[limit].micros);
    if rest[limit - 1].micros == rest[limit].micros && LeadingOther(rest[..limit], rest[limit].micros) != 0 {
      assert rest[0] in rest && rest[..limit][0] == rest[0];
    }
  }

  /** A client that asks again with each `next_before` until there is none. */
  function Follow(rows: seq<Ev>, before: Option<int>, today: int, limit: nat): seq<Ev>
    requires Sorted(rows) && InReach(rows, today) && UsableCursor(before, today) && 1 <= limit
    decreases |Rest(rows, before)|
  {
    RequestStep(rows, before, today, limit);
    var (page, next) := Page(rows, before, today, limit);
    if next.None? then page else page + Follow(rows, next, today, limit)
  }

  /** From the newest page on, the client sees every event of the lake exactly once, newest first, iff no microsecond has more than a page of them. */
  lemma FollowVisitsAllIff(rows: seq<Ev>, today: int, limit: nat)
    requires Sorted(rows) && InReach(rows, today) && 1 <= limit
    ensures Follow(rows, None, today, limit) == Capped(rows, limit)
    ensures Follow(rows, None, today, limit) == rows <==> FitsPages(rows, limit)
  {
    FollowIsVisited(rows, None, today, limit);
    RestIsSuffix(rows, None);
    assert Rest(rows, None) == rows;
    VisitedIsCapped(rows, limit);
    VisitsAllIff(rows, limit);
  }

  lemma {:induction false} FollowIsVisited(rows: seq<Ev>, before: Option<int>, today: int, limit: nat)
    requires Sorted(rows) && InReach(rows, today) && UsableCursor(before, today) && 1 <= limit
    ensures Sorted(Rest(rows, before)) && Follow(rows, before, today, limit) == Visited(Rest(rows, before), limit)
    decreases |Rest(rows, before)|
  {
    hide Rest, InReach, UsableCursor, Page, Sorted;
    RequestStep(rows, before, today, limit);
    if limit < |Rest(rows, before)| {
      FollowIsVisited(rows, Page(rows, before, today, limit).1, today, limit);
    }
  }
}
