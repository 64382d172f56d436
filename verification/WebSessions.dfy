/**
 Sessions of the web overview: the general query groups by a session id text it
 builds for every event; the fast path groups in two passes and builds none.
 */
module WebSessions {
  import opened Wrappers

  const SESSION_GAP_MICROS := 1_800_000_000
  const BOUNCE_MICROS := 10_000_000
  const UNIT_SEPARATOR: char := 31 as char

  /** An event in the requested range, with the person it resolves to. */
  datatype Ev = Ev(ts: int, event: string, session: Option<string>, person: string)

  /** Current period or the previous one. */
  function InPeriod(e: Ev, from: int, current: bool): bool {
    current <==> from <= e.ts
  }

  /** Events without a session id of one person and period, up to position `j` of the shared order. */
  function GapNumber(events: seq<Ev>, from: int, j: nat): nat
    requires j < |events|
  {
    Numbered(events[..j + 1], from, events[j].person, from <= events[j].ts).0
  }

  /** The running sum of new-session flags, and the time of the last such event. */
  function Numbered(events: seq<Ev>, from: int, person: string, current: bool): (nat, Option<int>) {
    if events == [] then (0, None)
    else
      var before := Numbered(events[..|events| - 1], from, person, current);
      var e := events[|events| - 1];
      if e.session.Some? || e.person != person || !InPeriod(e, from, current) then before
      else (before.0 + (if before.1.Some? && e.ts - before.1.value <= SESSION_GAP_MICROS then 0 else 1), Some(e.ts))
  }

  /** What tells sessions of one period apart. */
  datatype Tag = Given(id: string) | Gap(person: string, number: nat)

  function TagOf(events: seq<Ev>, from: int, j: nat): Tag
    requires j < |events|
  {
    match events[j].session
    case Some(id) => Given(id)
    case None => Gap(events[j].person, GapNumber(events, from, j))
  }

  function Digit(n: nat): char
    requires n < 10
  {
    '0' + n as char
  }

  function Decimal(n: nat): (r: string)
    ensures |r| >= 1 && UNIT_SEPARATOR !in r
  {
    if n < 10 then [Digit(n)] else Decimal(n / 10) + [Digit(n % 10)]
  }

  /** The session id text of the general query. */
  function Sid(tag: Tag): string {
    match tag
    case Given(id) => "s" + id
    case Gap(person, number) => "a" + person + [UNIT_SEPARATOR] + Decimal(number)
  }

  lemma {:induction false} DecimalInjective(a: nat, b: nat)
    requires Decimal(a) == Decimal(b)
    ensures a == b
  {
    if a < 10 && b < 10 {
      assert Decimal(a)[0] == Digit(a) && Decimal(b)[0] == Digit(b);
    } else if a >= 10 && b >= 10 {
      var x, y := Decimal(a), Decimal(b);
      assert x[..|x| - 1] == Decimal(a / 10) && y[..|y| - 1] == Decimal(b / 10);
      assert x[|x| - 1] == Digit(a % 10) && y[|y| - 1] == Digit(b % 10);
      DecimalInjective(a / 10, b / 10);
    }
  }

  /** The last separator splits the text, whatever the person id contains. */
  lemma {:induction false} SplitsAtLast(p: string, a: string, q: string, b: string)
    requires p + [UNIT_SEPARATOR] + a == q + [UNIT_SEPARATOR] + b
    requires UNIT_SEPARATOR !in a && UNIT_SEPARATOR !in b
    ensures p == q && a == b
  {
    var text := p + [UNIT_SEPARATOR] + a;
    assert text == q + [UNIT_SEPARATOR] + b;
    assert text[|p|] == UNIT_SEPARATOR && text[|q|] == UNIT_SEPARATOR;
    assert forall k :: |p| < k < |text| ==> text[k] == a[k - |p| - 1];
    assert forall k :: |q| < k < |text| ==> text[k] == b[k - |q| - 1];
    assert text[..|p|] == p && text[..|q|] == q;
    assert text[|p| + 1..] == a && text[|q| + 1..] == b;
  }

  /** Different sessions never share a session id text. */
  lemma SidInjective(a: Tag, b: Tag)
    requires Sid(a) == Sid(b)
    ensures a == b
  {
    assert Sid(a)[0] == (if a.Given? then 's' else 'a') && Sid(b)[0] == (if b.Given? then 's' else 'a');
    match (a, b) {
      case (Given(x), Given(y)) =>
        assert Sid(a)[1..] == x && Sid(b)[1..] == y;
      case (Gap(p, m), Gap(q, n)) =>
        assert Sid(a)[1..] == p + [UNIT_SEPARATOR] + Decimal(m);
        assert Sid(b)[1..] == q + [UNIT_SEPARATOR] + Decimal(n);
        SplitsAtLast(p, Decimal(m), q, Decimal(n));
        DecimalInjective(m, n);
      case _ =>
    }
  }

  // ------------------------------------------------------------------------- sums

  /** Sum of `f` over a finite set of keys. */
  ghost function SumOver<K(!new)>(keys: set<K>, f: K -> int): int
    decreases |keys|
  {
    if keys == {} then 0 else var k :| k in keys; f(k) + SumOver(keys - {k}, f)
  }

  lemma {:induction false} SumRemove<K(!new)>(keys: set<K>, f: K -> int, k: K)
    requires k in keys
    ensures SumOver(keys, f) == f(k) + SumOver(keys - {k}, f)
    decreases |keys|
  {
    var first :| first in keys && SumOver(keys, f) == f(first) + SumOver(keys - {first}, f);
    if first != k {
      SumRemove(keys - {first}, f, k);
      SumRemove(keys - {k}, f, first);
      assert keys - {first} - {k} == keys - {k} - {first};
    }
  }

  lemma {:induction false} SumUnion<K(!new)>(a: set<K>, b: set<K>, f: K -> int)
    requires a !! b
    ensures SumOver(a + b, f) == SumOver(a, f) + SumOver(b, f)
    decreases |a|
  {
    if a == {} {
      assert a + b == b;
    } else {
      var k :| k in a;
      SumRemove(a, f, k);
      SumRemove(a + b, f, k);
      assert a + b - {k} == (a - {k}) + b;
      SumUnion(a - {k}, b, f);
    }
  }

  ghost function Image<K(!new), L(!new)>(keys: set<K>, name: K -> L): set<L> {
    set k | k in keys :: name(k)
  }

  /** Renaming the keys one to one does not change the sum. */
  lemma {:induction false} SumRenamed<K(!new), L(!new)>(keys: set<K>, name: K -> L, f: K -> int, g: L -> int)
    requires forall a, b | a in keys && b in keys && name(a) == name(b) :: a == b
    requires forall k <- keys :: g(name(k)) == f(k)
    ensures SumOver(Image(keys, name), g) == SumOver(keys, f)
    decreases |keys|
  {
    if keys == {} {
      assert Image(keys, name) == {};
    } else {
      var k :| k in keys;
      SumRemove(keys, f, k);
      assert name(k) in Image(keys, name);
      SumRemove(Image(keys, name), g, name(k));
      assert Image(keys, name) - {name(k)} == Image(keys - {k}, name);
      SumRenamed(keys - {k}, name, f, g);
    }
  }

  lemma {:induction false} SumZero<K(!new)>(keys: set<K>, f: K -> int)
    requires forall k <- keys :: f(k) == 0
    ensures SumOver(keys, f) == 0
    decreases |keys|
  {
    if keys != {} {
      var k :| k in keys;
      SumRemove(keys, f, k);
      SumZero(keys - {k}, f);
    }
  }

  lemma {:induction false} SumSame<K(!new)>(keys: set<K>, f: K -> int, g: K -> int)
    requires forall k <- keys :: f(k) == g(k)
    ensures SumOver(keys, f) == SumOver(keys, g)
    decreases |keys|
  {
    if keys != {} {
      var k :| k in keys;
      SumRemove(keys, f, k);
      SumRemove(keys, g, k);
      SumSame(keys - {k}, f, g);
    }
  }

  // ------------------------------------------------------------------------ groups

  /** The events at the positions kept, with their multiplicity. */
  function Pick(events: seq<Ev>, keep: nat -> bool): multiset<Ev> {
    if events == [] then multiset{}
    else
      var n := |events| - 1;
      Pick(events[..n], keep) + if keep(n) then multiset{events[n]} else multiset{}
  }

  lemma {:induction false} PickSame(events: seq<Ev>, a: nat -> bool, b: nat -> bool)
    requires forall j: nat | j < |events| :: a(j) == b(j)
    ensures Pick(events, a) == Pick(events, b)
  {
    if events != [] {
      PickSame(events[..|events| - 1], a, b);
    }
  }

  lemma {:induction false} PickedAre(events: seq<Ev>, keep: nat -> bool, e: Ev)
    requires e in Pick(events, keep)
    ensures exists j: nat | j < |events| :: keep(j) && events[j] == e
  {
    var n := |events| - 1;
    if !(keep(n) && events[n] == e) {
      PickedAre(events[..n], keep, e);
      var j: nat :| j < n && keep(j) && events[..n][j] == e;
      assert events[j] == e;
    }
  }

  /** The period's events whose position satisfies `q`. */
  function Group(events: seq<Ev>, from: int, current: bool, q: nat -> bool): multiset<Ev> {
    Pick(events, Kept(events, from, current, q))
  }

  function Kept(events: seq<Ev>, from: int, current: bool, q: nat -> bool): nat -> bool {
    (j: nat) => j < |events| && InPeriod(events[j], from, current) && q(j)
  }

  lemma SameGroup(events: seq<Ev>, from: int, current: bool, p: nat -> bool, q: nat -> bool)
    requires forall j: nat | j < |events| :: p(j) == q(j)
    ensures Group(events, from, current, p) == Group(events, from, current, q)
  {
    hide Pick;
    PickSame(events, Kept(events, from, current, p), Kept(events, from, current, q));
  }

  function HasTag(events: seq<Ev>, from: int, tag: Tag): nat -> bool {
    (j: nat) => j < |events| && TagOf(events, from, j) == tag
  }

  function HasSid(events: seq<Ev>, from: int, sid: string): nat -> bool {
    (j: nat) => j < |events| && Sid(TagOf(events, from, j)) == sid
  }

  function HasSession(events: seq<Ev>, session: Option<string>): nat -> bool {
    (j: nat) => j < |events| && events[j].session == session
  }

  function Tags(events: seq<Ev>, from: int, current: bool): set<Tag> {
    set j: nat | j < |events| && InPeriod(events[j], from, current) :: TagOf(events, from, j)
  }

  /** What one session adds to a total, read off its events. */
  type Weight = multiset<Ev> -> int

  /** `HAVING count(*) FILTER (WHERE event = '$pageview') > 0`: sessions without a pageview add nothing. */
  ghost predicate NeedsPageview(w: Weight) {
    forall g: multiset<Ev> :: (forall e <- g :: e.event != "$pageview") ==> w(g) == 0
  }

  /** The general query: one session per session id text. */
  ghost function GeneralTotal(events: seq<Ev>, from: int, current: bool, w: Weight): int {
    SumOver(Image(Tags(events, from, current), (t: Tag) => Sid(t)),
            (sid: string) => w(Group(events, from, current, HasSid(events, from, sid))))
  }

  function SessionIds(events: seq<Ev>, from: int, current: bool): set<string> {
    set j: nat | j < |events| && InPeriod(events[j], from, current) && events[j].session.Some? :: events[j].session.value
  }

  function GapTags(events: seq<Ev>, from: int, current: bool): set<Tag> {
    set j: nat | j < |events| && InPeriod(events[j], from, current) && events[j].session.None? :: TagOf(events, from, j)
  }

  /** Some event without a session id is a pageview: the third pass runs. */
  predicate Sessionless(events: seq<Ev>) {
    exists j :: 0 <= j < |events| && events[j].session.None? && events[j].event == "$pageview"
  }

  ghost function ById(events: seq<Ev>, from: int, current: bool, w: Weight): string -> int {
    (id: string) => w(Group(events, from, current, HasSession(events, Some(id))))
  }

  ghost function ByTag(events: seq<Ev>, from: int, current: bool, w: Weight): Tag -> int {
    (t: Tag) => w(Group(events, from, current, HasTag(events, from, t)))
  }

  /** The fast path: sessions by their own id, then, if needed, gaps in a person's activity. */
  ghost function FastTotal(events: seq<Ev>, from: int, current: bool, w: Weight): int {
    SumOver(SessionIds(events, from, current), ById(events, from, current, w))
    + if Sessionless(events) then SumOver(GapTags(events, from, current), ByTag(events, from, current, w)) else 0
  }

  /** Whatever a session adds to a total, both paths add up the same, in either period. */
  lemma TotalsAgree(events: seq<Ev>, from: int, current: bool, w: Weight)
    requires NeedsPageview(w)
    ensures FastTotal(events, from, current, w) == GeneralTotal(events, from, current, w)
  {
    hide Sid, GapNumber, Pick, Group;
    var tags := Tags(events, from, current);
    var byTag, byId := ByTag(events, from, current, w), ById(events, from, current, w);
    var bySid := (sid: string) => w(Group(events, from, current, HasSid(events, from, sid)));
    forall t: Tag ensures Group(events, from, current, HasSid(events, from, Sid(t))) == Group(events, from, current, HasTag(events, from, t)) {
      SameSidSameTag(events, from, current, t);
    }
    forall a: Tag, b: Tag | Sid(a) == Sid(b) ensures a == b { SidInjective(a, b); }
    SumRenamed(tags, (t: Tag) => Sid(t), byTag, bySid);
    var ids, gaps := SessionIds(events, from, current), GapTags(events, from, current);
    var given := Image(ids, (id: string) => Given(id));
    SplitTags(events, from, current);
    SumUnion(given, gaps, byTag);
    forall id ensures Group(events, from, current, HasSession(events, Some(id))) == Group(events, from, current, HasTag(events, from, Given(id))) {
      SameGroup(events, from, current, HasSession(events, Some(id)), HasTag(events, from, Given(id)));
    }
    SumRenamed(ids, (id: string) => Given(id), byId, byTag);
    if !Sessionless(events) {
      GapsAddNothing(events, from, current, w);
    }
  }

  lemma SameSidSameTag(events: seq<Ev>, from: int, current: bool, t: Tag)
    ensures Group(events, from, current, HasSid(events, from, Sid(t))) == Group(events, from, current, HasTag(events, from, t))
  {
    hide Sid, GapNumber, Group;
    forall j: nat | j < |events| ensures Sid(TagOf(events, from, j)) == Sid(t) <==> TagOf(events, from, j) == t {
      if Sid(TagOf(events, from, j)) == Sid(t) {
        SidInjective(TagOf(events, from, j), t);
      }
    }
    SameGroup(events, from, current, HasSid(events, from, Sid(t)), HasTag(events, from, t));
  }

  lemma SplitTags(events: seq<Ev>, from: int, current: bool)
    ensures var given, gaps := Image(SessionIds(events, from, current), (id: string) => Given(id)), GapTags(events, from, current);
            given !! gaps && Tags(events, from, current) == given + gaps
  {
    hide GapNumber;
    var given, gaps := Image(SessionIds(events, from, current), (id: string) => Given(id)), GapTags(events, from, current);
    forall j: nat | j < |events| && InPeriod(events[j], from, current) ensures TagOf(events, from, j) in given + gaps {
      if events[j].session.Some? {
        assert events[j].session.value in SessionIds(events, from, current);
      }
    }
    forall t | t in given ensures t in Tags(events, from, current) {
      var j: nat :| j < |events| && InPeriod(events[j], from, current) && events[j].session.Some? && t == Given(events[j].session.value);
      assert TagOf(events, from, j) == t;
    }
  }

  lemma GapsAddNothing(events: seq<Ev>, from: int, current: bool, w: Weight)
    requires NeedsPageview(w) && !Sessionless(events)
    ensures SumOver(GapTags(events, from, current), ByTag(events, from, current, w)) == 0
  {
    hide GapNumber, Pick;
    forall t | t in GapTags(events, from, current) ensures ByTag(events, from, current, w)(t) == 0 {
      var g := Group(events, from, current, HasTag(events, from, t));
      forall e | e in g ensures e.event != "$pageview" {
        PickedAre(events, Kept(events, from, current, HasTag(events, from, t)), e);
        var j: nat :| j < |events| && HasTag(events, from, t)(j) && events[j] == e;
        assert e.session.None?;
      }
    }
    SumZero(GapTags(events, from, current), ByTag(events, from, current, w));
  }

  // -------------------------------------------------------- the order of equal times

  predicate Sorted(events: seq<Ev>) {
    forall i, j | 0 <= i < j < |events| :: events[i].ts <= events[j].ts
  }

  predicate Mine(e: Ev, from: int, person: string, current: bool) {
    e.session.None? && e.person == person && InPeriod(e, from, current)
  }

  /** Times of a person's events without a session id, in order. */
  function Times(events: seq<Ev>, from: int, person: string, current: bool): seq<int> {
    if events == [] then []
    else
      var n := |events| - 1;
      var before := Times(events[..n], from, person, current);
      if Mine(events[n], from, person, current) then before + [events[n].ts] else before
  }

  /** How many sessions the gaps between those times make. */
  function Sessions(times: seq<int>): nat {
    if times == [] then 0
    else
      var n := |times| - 1;
      Sessions(times[..n]) + if n > 0 && times[n] - times[n - 1] <= SESSION_GAP_MICROS then 0 else 1
  }

  function UpTo(times: seq<int>, t: int): seq<int> {
    if times == [] || times[|times| - 1] <= t then times else UpTo(times[..|times| - 1], t)
  }

  function Last(times: seq<int>): Option<int> {
    if times == [] then None else Some(times[|times| - 1])
  }

  lemma SessionsAppend(times: seq<int>, t: int)
    ensures Sessions(times + [t]) == Sessions(times) + if Last(times).Some? && t - Last(times).value <= SESSION_GAP_MICROS then 0 else 1
  {
    assert (times + [t])[..|times|] == times;
  }

  lemma {:induction false} NumberedCounts(events: seq<Ev>, from: int, person: string, current: bool)
    ensures var times := Times(events, from, person, current);
            Numbered(events, from, person, current) == (Sessions(times), Last(times))
  {
    hide Sessions;
    if events == [] {
      assert Sessions([]) == 0 by { NoSessions(); }
    } else {
      var n := |events| - 1;
      NumberedCounts(events[..n], from, person, current);
      SessionsAppend(Times(events[..n], from, person, current), events[n].ts);
    }
  }

  lemma NoSessions()
    ensures Sessions([]) == 0
  {
  }

  lemma {:induction false} TimesSorted(events: seq<Ev>, from: int, person: string, current: bool)
    requires Sorted(events)
    ensures var times := Times(events, from, person, current);
            && (forall i, j | 0 <= i < j < |times| :: times[i] <= times[j])
            && (times != [] ==> times[|times| - 1] <= events[|events| - 1].ts)
  {
    if events != [] {
      TimesSorted(events[..|events| - 1], from, person, current);
    }
  }

  /** Later events of the same time stay in the same session, so its number depends on the time alone. */
  lemma {:induction false} NumberStays(events: seq<Ev>, from: int, j: nat, n: nat)
    requires Sorted(events) && j < n <= |events| && events[j].session.None?
    ensures var person, current := events[j].person, from <= events[j].ts;
            var times := Times(events[..n], from, person, current);
            && times != [] && times[|times| - 1] >= events[j].ts
            && Sessions(UpTo(times, events[j].ts)) == GapNumber(events, from, j)
    decreases n
  {
    hide Sessions, UpTo, Numbered;
    var person, current := events[j].person, from <= events[j].ts;
    if n == j + 1 {
      NumberedCounts(events[..n], from, person, current);
      assert events[..n][..j] == events[..j];
      WholeUpTo(Times(events[..n], from, person, current), events[j].ts);
    } else {
      NumberStays(events, from, j, n - 1);
      var before := Times(events[..n - 1], from, person, current);
      assert events[..n][..n - 1] == events[..n - 1];
      TimesSorted(events[..n - 1], from, person, current);
      OneMore(before, events[j].ts, events[n - 1].ts);
    }
  }

  lemma WholeUpTo(times: seq<int>, t: int)
    requires times != [] && times[|times| - 1] <= t
    ensures UpTo(times, t) == times
  {
  }

  lemma OneMore(before: seq<int>, t: int, next: int)
    requires before != [] && t <= before[|before| - 1] <= next
    ensures Sessions(UpTo(before + [next], t)) == Sessions(UpTo(before, t))
  {
    SessionsAppend(before, next);
    assert (before + [next])[..|before|] == before;
  }

  lemma GapNumberByTime(events: seq<Ev>, from: int, j: nat)
    requires Sorted(events) && j < |events| && events[j].session.None?
    ensures GapNumber(events, from, j)
         == Sessions(UpTo(Times(events, from, events[j].person, from <= events[j].ts), events[j].ts))
  {
    hide GapNumber, Times, UpTo, Sessions;
    NumberStays(events, from, j, |events|);
    assert events[..|events|] == events;
  }

  lemma {:induction false} TimesConcat(a: seq<Ev>, b: seq<Ev>, from: int, person: string, current: bool)
    ensures Times(a + b, from, person, current) == Times(a, from, person, current) + Times(b, from, person, current)
    decreases |b|
  {
    if b == [] {
      assert a + b == a;
    } else {
      var n := |b| - 1;
      assert (a + b)[..|a + b| - 1] == a + b[..n];
      TimesConcat(a, b[..n], from, person, current);
    }
  }

  /** Taking one event out takes out its time, if it has one. */
  lemma WithoutOne(b: seq<Ev>, i: nat, from: int, person: string, current: bool)
    requires i < |b|
    ensures multiset(b[..i] + b[i + 1..]) == multiset(b) - multiset{b[i]}
    ensures multiset(Times(b, from, person, current))
         == multiset(Times(b[..i] + b[i + 1..], from, person, current)) + multiset(Times([b[i]], from, person, current))
  {
    hide Times;
    assert b == b[..i] + ([b[i]] + b[i + 1..]);
    TimesConcat(b[..i], b[i + 1..], from, person, current);
    TimesConcat(b[..i], [b[i]] + b[i + 1..], from, person, current);
    TimesConcat([b[i]], b[i + 1..], from, person, current);
  }

  lemma {:induction false} SameTimes(a: seq<Ev>, b: seq<Ev>, from: int, person: string, current: bool)
    requires multiset(a) == multiset(b)
    ensures multiset(Times(a, from, person, current)) == multiset(Times(b, from, person, current))
    decreases |a|
  {
    hide Times;
    if a == [] {
      assert |multiset(b)| == 0;
    } else {
      var n := |a| - 1;
      assert a[n] in multiset(b);
      var i :| 0 <= i < |b| && b[i] == a[n];
      WithoutOne(b, i, from, person, current);
      WithoutOne(a, n, from, person, current);
      SameTimes(a[..n] + a[n + 1..], b[..i] + b[i + 1..], from, person, current);
    }
  }

  lemma {:induction false} SortedUnique(a: seq<int>, b: seq<int>)
    requires multiset(a) == multiset(b)
    requires forall i, j | 0 <= i < j < |a| :: a[i] <= a[j]
    requires forall i, j | 0 <= i < j < |b| :: b[i] <= b[j]
    ensures a == b
  {
    assert |a| == |multiset(a)| == |multiset(b)| == |b|;
    if a != [] {
      var n := |a| - 1;
      LastIsMost(a, b);
      LastIsMost(b, a);
      DropsLast(a);
      DropsLast(b);
      SortedUnique(a[..n], b[..n]);
      assert a == a[..n] + [a[n]] && b == b[..n] + [b[n]];
    }
  }

  lemma DropsLast(a: seq<int>)
    requires a != []
    ensures multiset(a[..|a| - 1]) == multiset(a) - multiset{a[|a| - 1]}
  {
    assert a == a[..|a| - 1] + [a[|a| - 1]];
  }

  lemma LastIsMost(a: seq<int>, b: seq<int>)
    requires multiset(a) == multiset(b) && a != [] && |a| == |b|
    requires forall i, j | 0 <= i < j < |b| :: b[i] <= b[j]
    ensures a[|a| - 1] <= b[|b| - 1]
  {
    assert a[|a| - 1] in multiset(b);
  }

  /** The session an event belongs to, whatever its position. */
  function TagBy(events: seq<Ev>, from: int, e: Ev): Tag {
    match e.session
    case Some(id) => Given(id)
    case None => Gap(e.person, Sessions(UpTo(Times(events, from, e.person, from <= e.ts), e.ts)))
  }

  lemma TagsByTime(a: seq<Ev>, b: seq<Ev>, from: int, j: nat)
    requires Sorted(a) && Sorted(b) && multiset(a) == multiset(b) && j < |a|
    ensures TagOf(a, from, j) == TagBy(b, from, a[j])
  {
    hide GapNumber, Times, UpTo, Sessions;
    if a[j].session.None? {
      var person, current := a[j].person, from <= a[j].ts;
      GapNumberByTime(a, from, j);
      SameTimes(a, b, from, person, current);
      TimesSorted(a, from, person, current);
      TimesSorted(b, from, person, current);
      SortedUnique(Times(a, from, person, current), Times(b, from, person, current));
    }
  }

  /** Choosing events by what they are keeps all copies of each. */
  lemma {:induction false} PickIsFilter(events: seq<Ev>, keep: nat -> bool, p: Ev -> bool, e: Ev)
    requires forall j: nat | j < |events| :: keep(j) == p(events[j])
    ensures Pick(events, keep)[e] == if p(e) then multiset(events)[e] else 0
  {
    if events != [] {
      var n := |events| - 1;
      PickIsFilter(events[..n], keep, p, e);
      assert events == events[..n] + [events[n]];
    }
  }

  lemma SameGroups(a: seq<Ev>, b: seq<Ev>, from: int, current: bool, x: nat -> bool, y: nat -> bool, p: Ev -> bool)
    requires multiset(a) == multiset(b)
    requires forall j: nat | j < |a| :: x(j) == p(a[j])
    requires forall j: nat | j < |b| :: y(j) == p(b[j])
    ensures Group(a, from, current, x) == Group(b, from, current, y)
  {
    hide Pick;
    var q := (e: Ev) => InPeriod(e, from, current) && p(e);
    forall e ensures Group(a, from, current, x)[e] == Group(b, from, current, y)[e] {
      PickIsFilter(a, Kept(a, from, current, x), q, e);
      PickIsFilter(b, Kept(b, from, current, y), q, e);
    }
  }

  lemma SameMembers(a: seq<Ev>, b: seq<Ev>, e: Ev)
    requires multiset(a) == multiset(b) && e in a
    ensures e in b
  {
    assert e in multiset(b);
  }

  lemma SameSessionIds(a: seq<Ev>, b: seq<Ev>, from: int, current: bool)
    requires multiset(a) == multiset(b)
    ensures SessionIds(a, from, current) <= SessionIds(b, from, current) && (Sessionless(a) ==> Sessionless(b))
  {
    forall j | 0 <= j < |a| ensures exists i | 0 <= i < |b| :: b[i] == a[j] {
      SameMembers(a, b, a[j]);
    }
  }

  lemma SameById(a: seq<Ev>, b: seq<Ev>, from: int, current: bool, w: Weight, id: string)
    requires multiset(a) == multiset(b)
    ensures ById(a, from, current, w)(id) == ById(b, from, current, w)(id)
  {
    hide Group;
    SameGroups(a, b, from, current, HasSession(a, Some(id)), HasSession(b, Some(id)), (e: Ev) => e.session == Some(id));
  }

  lemma SameByTag(a: seq<Ev>, b: seq<Ev>, from: int, current: bool, w: Weight, t: Tag)
    requires Sorted(a) && Sorted(b) && multiset(a) == multiset(b)
    ensures ByTag(a, from, current, w)(t) == ByTag(b, from, current, w)(t)
  {
    hide Group, TagOf, TagBy;
    forall j: nat | j < |a| ensures TagOf(a, from, j) == TagBy(b, from, a[j]) { TagsByTime(a, b, from, j); }
    forall j: nat | j < |b| ensures TagOf(b, from, j) == TagBy(b, from, b[j]) { TagsByTime(b, b, from, j); }
    SameGroups(a, b, from, current, HasTag(a, from, t), HasTag(b, from, t), (e: Ev) => TagBy(b, from, e) == t);
  }

  lemma SameGapTags(a: seq<Ev>, b: seq<Ev>, from: int, current: bool)
    requires Sorted(a) && Sorted(b) && multiset(a) == multiset(b)
    ensures GapTags(a, from, current) <= GapTags(b, from, current)
  {
    hide TagOf, TagBy;
    forall j: nat | j < |a| && InPeriod(a[j], from, current) && a[j].session.None?
      ensures TagOf(a, from, j) in GapTags(b, from, current)
    {
      SameMembers(a, b, a[j]);
      var i :| 0 <= i < |b| && b[i] == a[j];
      TagsByTime(a, b, from, j);
      TagsByTime(b, b, from, i);
    }
  }

  /** Equal times may come in any order: the total does not depend on it. */
  lemma TieOrderIrrelevant(a: seq<Ev>, b: seq<Ev>, from: int, current: bool, w: Weight)
    requires Sorted(a) && Sorted(b) && multiset(a) == multiset(b)
    ensures FastTotal(a, from, current, w) == FastTotal(b, from, current, w)
  {
    hide ById, ByTag;
    SameSessionIds(a, b, from, current);
    SameSessionIds(b, a, from, current);
    forall id ensures ById(a, from, current, w)(id) == ById(b, from, current, w)(id) { SameById(a, b, from, current, w, id); }
    assert SessionIds(a, from, current) == SessionIds(b, from, current);
    SumSame(SessionIds(a, from, current), ById(a, from, current, w), ById(b, from, current, w));
    SameGapTags(a, b, from, current);
    SameGapTags(b, a, from, current);
    forall t ensures ByTag(a, from, current, w)(t) == ByTag(b, from, current, w)(t) { SameByTag(a, b, from, current, w, t); }
    assert GapTags(a, from, current) == GapTags(b, from, current);
    SumSame(GapTags(a, from, current), ByTag(a, from, current, w), ByTag(b, from, current, w));
  }

  // ------------------------------------------------------------------- the gap rule

  /** Nothing of the person's lies between two positions. */
  lemma {:induction false} NumberedSkips(events: seq<Ev>, from: int, person: string, current: bool, j: nat, k: nat)
    requires j <= k <= |events| && forall i | j <= i < k :: !Mine(events[i], from, person, current)
    ensures Numbered(events[..k], from, person, current) == Numbered(events[..j], from, person, current)
    decreases k
  {
    if j < k {
      NumberedSkips(events, from, person, current, j, k - 1);
      assert events[..k][..k - 1] == events[..k - 1];
    }
  }

  /**
   The rule itself: a person's first event without a session id starts session 1, and
   each next one stays in the session exactly if at most half an hour has passed.
   */
  lemma GapRule(events: seq<Ev>, from: int, j: nat, k: nat)
    requires j < k < |events| && events[k].session.None?
    requires var person, current := events[k].person, from <= events[k].ts;
             && Mine(events[j], from, person, current)
             && forall i | j < i < k :: !Mine(events[i], from, person, current)
    ensures GapNumber(events, from, k) == GapNumber(events, from, j) + if events[k].ts - events[j].ts <= 1_800_000_000 then 0 else 1
  {
    var person, current := events[k].person, from <= events[k].ts;
    NumberedSkips(events, from, person, current, j + 1, k);
    assert events[..k + 1][..k] == events[..k] && events[..j + 1][..j] == events[..j];
  }

  lemma FirstGap(events: seq<Ev>, from: int, k: nat)
    requires k < |events| && events[k].session.None?
    requires forall i | 0 <= i < k :: !Mine(events[i], from, events[k].person, from <= events[k].ts)
    ensures GapNumber(events, from, k) == 1
  {
    NumberedSkips(events, from, events[k].person, from <= events[k].ts, 0, k);
    assert events[..k + 1][..k] == events[..k] && events[..0] == [];
  }

  // ------------------------------------------------------------------ the three totals

  ghost function Count(g: multiset<Ev>, event: string): int {
    SumOver(set e | e in g && e.event == event, (e: Ev) => g[e])
  }

  /** `max(ts) - min(ts)`. */
  ghost function Duration(g: multiset<Ev>): int {
    if d :| Spans(g, d) then d else 0
  }

  ghost predicate Spans(g: multiset<Ev>, d: int) {
    exists a, b :: a in g && b in g && d == b.ts - a.ts && forall e <- g :: a.ts <= e.ts <= b.ts
  }

  ghost function SessionWeight(): Weight {
    (g: multiset<Ev>) => if Count(g, "$pageview") > 0 then 1 else 0
  }

  /** The fast path's count of bounces, among sessions with a pageview. */
  ghost function FastBounce(): Weight {
    (g: multiset<Ev>) =>
      if Count(g, "$pageview") > 0 && Count(g, "$pageview") == 1 && Count(g, "$autocapture") == 0 && Duration(g) < BOUNCE_MICROS then 1 else 0
  }

  /** The general query's, with the limit written out in its text. */
  ghost function GeneralBounce(): Weight {
    (g: multiset<Ev>) => if Count(g, "$pageview") == 1 && Count(g, "$autocapture") == 0 && Duration(g) < 10_000_000 then 1 else 0
  }

  ghost function DurationWeight(): Weight {
    (g: multiset<Ev>) => if Count(g, "$pageview") > 0 then Duration(g) else 0
  }

  lemma WeightsNeedPageviews()
    ensures NeedsPageview(SessionWeight()) && NeedsPageview(GeneralBounce()) && NeedsPageview(DurationWeight())
  {
    hide Duration, SumOver;
    forall g: multiset<Ev> | forall e <- g :: e.event != "$pageview" ensures Count(g, "$pageview") == 0 {
      assert (set e | e in g && e.event == "$pageview") == {};
      NoSum((e: Ev) => g[e]);
    }
  }

  /** One bounce rule in two wordings. */
  lemma SameBounces(events: seq<Ev>, from: int, current: bool)
    ensures FastTotal(events, from, current, FastBounce()) == FastTotal(events, from, current, GeneralBounce())
  {
    hide Count, Duration, Group, GapTags, SessionIds, Sessionless, SumOver;
    forall g: multiset<Ev> ensures FastBounce()(g) == GeneralBounce()(g) {}
    SumSame(SessionIds(events, from, current), ById(events, from, current, FastBounce()), ById(events, from, current, GeneralBounce()));
    SumSame(GapTags(events, from, current), ByTag(events, from, current, FastBounce()), ByTag(events, from, current, GeneralBounce()));
  }

  /** A session of one pageview and nothing captured, under ten seconds, is a bounce; at ten seconds it is not. */
  lemma BounceEdge(first: Ev, second: Ev)
    requires first.event == "$pageview" && second.event != "$pageview" && second.event != "$autocapture" && first.ts <= second.ts
    ensures FastBounce()(multiset{first, second}) == if second.ts - first.ts < 10_000_000 then 1 else 0
  {
    hide Count, Duration;
    var g := multiset{first, second};
    CountOne(g, "$pageview", first);
    CountNone(g, "$autocapture");
    DurationOfTwo(first, second);
  }

  lemma DurationOfTwo(first: Ev, second: Ev)
    requires first.ts <= second.ts
    ensures Duration(multiset{first, second}) == second.ts - first.ts
  {
    var g := multiset{first, second};
    assert Spans(g, second.ts - first.ts) by {
      assert first in g && second in g;
    }
    hide Spans;
    forall d | Spans(g, d) ensures d == second.ts - first.ts {
      OneSpan(g, d, second.ts - first.ts);
    }
  }

  lemma OneSpan(g: multiset<Ev>, d: int, e: int)
    requires Spans(g, d) && Spans(g, e)
    ensures d == e
  {
    var a, b :| a in g && b in g && d == b.ts - a.ts && forall x <- g :: a.ts <= x.ts <= b.ts;
    var m, n :| m in g && n in g && e == n.ts - m.ts && forall x <- g :: m.ts <= x.ts <= n.ts;
  }

  lemma CountNone(g: multiset<Ev>, event: string)
    requires forall x <- g :: x.event != event
    ensures Count(g, event) == 0
  {
    hide SumOver;
    assert (set e | e in g && e.event == event) == {};
    NoSum((e: Ev) => g[e]);
  }

  lemma CountOne(g: multiset<Ev>, event: string, e: Ev)
    requires e in g && e.event == event && g[e] == 1 && forall x <- g :: x.event == event ==> x == e
    ensures Count(g, event) == 1
  {
    hide SumOver;
    var keys := set x | x in g && x.event == event;
    var f := (x: Ev) => g[x];
    assert keys == {e} && keys - {e} == {};
    SumRemove(keys, f, e);
    NoSum(f);
  }

  lemma NoSum(f: Ev -> int)
    ensures SumOver({}, f) == 0
  {
  }

  /**
   Session counts, bounces and summed durations of the fast path, which orders a
   person's events by time only, are those of the general query, which breaks ties by uuid.
   */
  lemma SessionsAgree(fast: seq<Ev>, general: seq<Ev>, from: int, current: bool)
    requires Sorted(fast) && Sorted(general) && multiset(fast) == multiset(general)
    ensures FastTotal(fast, from, current, SessionWeight()) == GeneralTotal(general, from, current, SessionWeight())
    ensures FastTotal(fast, from, current, FastBounce()) == GeneralTotal(general, from, current, GeneralBounce())
    ensures FastTotal(fast, from, current, DurationWeight()) == GeneralTotal(general, from, current, DurationWeight())
  {
    hide FastTotal, GeneralTotal, NeedsPageview, SessionWeight, FastBounce, GeneralBounce, DurationWeight, Sorted;
    WeightsNeedPageviews();
    TotalsAgree(general, from, current, SessionWeight());
    TotalsAgree(general, from, current, GeneralBounce());
    TotalsAgree(general, from, current, DurationWeight());
    TieOrderIrrelevant(fast, general, from, current, SessionWeight());
    TieOrderIrrelevant(fast, general, from, current, GeneralBounce());
    SameBounces(fast, from, current);
    TieOrderIrrelevant(fast, general, from, current, DurationWeight());
  }
}
