/** The timed task list (jiutai/jf_attask.c) and its runs under a clock that never goes back. */
module Scheduler {

  const U32: nat := 0x1_0000_0000
  /** JF_ATTASK_DEF_BLOCK_TIME, in milliseconds */
  const DEFAULT_BLOCK: nat := 10000

  /** An item of the list; pos is the number of the call that added it. */
  datatype Entry = Entry(expire: nat, data: int, pos: nat)

  // ----- the operations on the list

  /** jf_attask_addItem: in front of the first item that expires no earlier. */
  function Insert(q: seq<Entry>, e: Entry): seq<Entry> {
    if q == [] then [e] else if e.expire <= q[0].expire then [e] + q else [q[0]] + Insert(q[1..], e)
  }

  /** The number of items at the front that have expired. */
  function DueCount(q: seq<Entry>, now: nat): (n: nat)
    ensures n <= |q| && (forall i :: 0 <= i < n ==> q[i].expire <= now) && (n < |q| ==> q[n].expire > now)
  {
    if q == [] || q[0].expire > now then 0 else 1 + DueCount(q[1..], now)
  }

  /** The block time jf_attask_check returns, with its conversion to 32 bits. */
  function BlockTime(q: seq<Entry>, now: nat): nat {
    var rest := q[DueCount(q, now)..];
    if rest == [] then DEFAULT_BLOCK else (rest[0].expire - now) % U32
  }

  /** The first item with the given data, or the length of the list. */
  function FirstWith(q: seq<Entry>, data: int): (n: nat)
    ensures n <= |q| && (n < |q| ==> q[n].data == data) && forall i :: 0 <= i < n ==> q[i].data != data
  {
    if q == [] || q[0].data == data then 0 else 1 + FirstWith(q[1..], data)
  }

  /** jf_attask_removeItem: the first match leaves the list. */
  function RemoveFirst(q: seq<Entry>, data: int): seq<Entry> {
    var n := FirstWith(q, data);
    if n < |q| then q[..n] + q[n + 1..] else q
  }

  // ----- sorted lists

  ghost predicate Sorted(q: seq<Entry>) {
    forall i, j :: 0 <= i < j < |q| ==> q[i].expire <= q[j].expire
  }

  lemma {:induction false} InsertHolds(q: seq<Entry>, e: Entry)
    ensures multiset(Insert(q, e)) == multiset(q) + multiset{e}
  {
    if q != [] {
      ConsHolds(q[0], q[1..], q[1..]);
      assert q == [q[0]] + q[1..];
      if e.expire > q[0].expire {
        InsertHolds(q[1..], e);
        ConsHolds(q[0], Insert(q[1..], e), q[1..]);
      }
    }
  }

  lemma ConsHolds(x: Entry, a: seq<Entry>, b: seq<Entry>)
    ensures multiset([x] + a) == multiset{x} + multiset(a) && multiset([x] + b) == multiset{x} + multiset(b)
  {
  }

  lemma InsertMembers(q: seq<Entry>, e: Entry)
    ensures forall x :: x in Insert(q, e) <==> x == e || x in q
  {
    hide Insert;
    InsertHolds(q, e);
    assert forall x :: x in Insert(q, e) <==> x in multiset(Insert(q, e));
  }

  lemma {:induction false} InsertSorted(q: seq<Entry>, e: Entry)
    requires Sorted(q)
    ensures Sorted(Insert(q, e))
  {
    if q != [] && e.expire > q[0].expire {
      InsertSorted(q[1..], e);
      InsertMembers(q[1..], e);
      var r := Insert(q[1..], e);
      forall i | 0 <= i < |r| ensures q[0].expire <= r[i].expire { assert r[i] in r; }
    }
  }

  // ----- what the documentation says of removal, and what the code does

  /** Every item with the given data leaves the list. */
  function RemoveAll(q: seq<Entry>, data: int): seq<Entry> {
    if q == [] then [] else if q[0].data == data then RemoveAll(q[1..], data) else [q[0]] + RemoveAll(q[1..], data)
  }

  function Matches(q: seq<Entry>, data: int): nat {
    if q == [] then 0 else Matches(q[1..], data) + if q[0].data == data then 1 else 0
  }

  lemma FirstWithStep(q: seq<Entry>, data: int)
    requires q != []
    ensures FirstWith(q, data) == if q[0].data == data then 0 else 1 + FirstWith(q[1..], data)
  {
  }

  /** Cutting an element behind the first one out is cutting it out of the tail. */
  lemma CutInTail(q: seq<Entry>, n: nat)
    requires 0 < n < |q|
    ensures q[..n] + q[n + 1..] == [q[0]] + (q[1..][..n - 1] + q[1..][n..])
  {
  }

  lemma RemoveFirstStep(q: seq<Entry>, data: int)
    requires q != []
    ensures RemoveFirst(q, data) == if q[0].data == data then q[1..] else [q[0]] + RemoveFirst(q[1..], data)
  {
    hide FirstWith;
    FirstWithStep(q, data);
    var n := FirstWith(q, data);
    if 0 < n < |q| { CutInTail(q, n); }
  }

  lemma {:induction false} RemoveAllSize(q: seq<Entry>, data: int)
    ensures |RemoveAll(q, data)| == |q| - Matches(q, data)
    ensures Matches(q, data) == 0 ==> RemoveAll(q, data) == q
  {
    if q != [] { RemoveAllSize(q[1..], data); }
  }

  /** Removing the first match removes every match exactly when there is at most one. */
  lemma {:induction false} RemovesAllIff(q: seq<Entry>, data: int)
    ensures RemoveFirst(q, data) == RemoveAll(q, data) <==> Matches(q, data) <= 1
  {
    if q != [] {
      var t := q[1..];
      RemoveFirstStep(q, data);
      RemoveAllSize(t, data);
      RemovesAllIff(t, data);
      if q[0].data != data {
        assert ([q[0]] + RemoveFirst(t, data))[1..] == RemoveFirst(t, data);
        assert ([q[0]] + RemoveAll(t, data))[1..] == RemoveAll(t, data);
      }
    }
  }

  lemma SecondMatchStays()
    ensures RemoveFirst([Entry(1, 7, 0), Entry(2, 7, 1)], 7) == [Entry(2, 7, 1)] != RemoveAll([Entry(1, 7, 0), Entry(2, 7, 1)], 7)
  {
    var q := [Entry(1, 7, 0), Entry(2, 7, 1)];
    RemovesAllIff(q, 7);
    assert q[1..] == [q[1]];
  }

  // ----- runs

  datatype Op = Add(data: int, milliseconds: nat) | Remove(data: int) | Check

  /** An item fired by the check that was call number pos, at the given time. */
  datatype Firing = Firing(entry: Entry, pos: nat, time: nat)

  datatype CheckCall = CheckCall(pos: nat, time: nat)

  /** The list, and the history of what happened to every item. */
  datatype Sched = Sched(clock: nat, pos: nat, q: seq<Entry>, added: seq<Entry>, fired: seq<Firing>, removed: seq<Entry>, checks: seq<CheckCall>)

  function Fired(due: seq<Entry>, pos: nat, now: nat): (r: seq<Firing>)
    ensures |r| == |due| && forall i :: 0 <= i < |r| ==> r[i] == Firing(due[i], pos, now)
  {
    seq(|due|, i requires 0 <= i < |due| => Firing(due[i], pos, now))
  }

  /** One call made when the clock shows now. */
  function Step(s: Sched, op: Op, now: nat): Sched {
    match op
    case Add(data, ms) =>
      var e := Entry(now + ms, data, s.pos);
      s.(clock := now, pos := s.pos + 1, q := Insert(s.q, e), added := s.added + [e])
    case Remove(data) =>
      var n := FirstWith(s.q, data);
      s.(clock := now, pos := s.pos + 1, q := RemoveFirst(s.q, data), removed := s.removed + if n < |s.q| then [s.q[n]] else [])
    case Check =>
      var n := DueCount(s.q, now);
      s.(clock := now, pos := s.pos + 1, q := s.q[n..], fired := s.fired + Fired(s.q[..n], s.pos, now), checks := s.checks + [CheckCall(s.pos, now)])
  }

  function Entries(f: seq<Firing>): (r: seq<Entry>)
    ensures |r| == |f| && forall i :: 0 <= i < |r| ==> r[i] == f[i].entry
  {
    seq(|f|, i requires 0 <= i < |f| => f[i].entry)
  }

  /** The items are numbered by the calls that added them. */
  ghost predicate Numbered(added: seq<Entry>, pos: nat) {
    && (forall i, j :: 0 <= i < j < |added| ==> added[i].pos < added[j].pos)
    && (forall i :: 0 <= i < |added| ==> added[i].pos < pos)
  }

  /** Every item ever added is pending, fired or removed, and just once. */
  ghost predicate Accounted(s: Sched) {
    multiset(s.q) + multiset(Entries(s.fired)) + multiset(s.removed) == multiset(s.added) && Numbered(s.added, s.pos)
  }

  /** Pending items have not been due at any check since they were added. */
  ghost predicate NotYetDue(s: Sched) {
    forall e, c :: e in s.q && c in s.checks && c.pos > e.pos ==> e.expire > c.time
  }

  /** Fired items were due at the check that fired them and at no earlier check since they were added. */
  ghost predicate FiredOnTime(s: Sched) {
    && (forall f :: f in s.fired ==> f.entry.expire <= f.time && CheckCall(f.pos, f.time) in s.checks && f.entry.pos < f.pos)
    && (forall f, c :: f in s.fired && c in s.checks && f.entry.pos < c.pos < f.pos ==> f.entry.expire > c.time)
  }

  ghost predicate Ordered(f: seq<Firing>) {
    forall i, j :: 0 <= i < j < |f| ==> f[i].entry.expire <= f[j].entry.expire
  }

  ghost predicate AllBy(f: seq<Firing>, time: nat) {
    forall i :: 0 <= i < |f| ==> f[i].entry.expire <= time
  }

  ghost predicate Before(f: seq<Firing>, q: seq<Entry>) {
    forall i, j :: 0 <= i < |f| && 0 <= j < |q| ==> f[i].entry.expire <= q[j].expire
  }

  /** Items fire in the order of their expiry, over all checks. */
  ghost predicate FiredInOrder(s: Sched) {
    Ordered(s.fired) && Before(s.fired, s.q) && AllBy(s.fired, s.clock)
  }

  /** Every pending item expires within 2^32 milliseconds from now. */
  ghost predicate Near(s: Sched) {
    forall e :: e in s.q ==> e.expire < s.clock + U32 && e.pos < s.pos
  }

  ghost predicate SchedOk(s: Sched) {
    && Sorted(s.q) && Accounted(s) && NotYetDue(s) && FiredOnTime(s) && FiredInOrder(s) && Near(s)
    && forall c :: c in s.checks ==> c.pos < s.pos && c.time <= s.clock
  }

  lemma AddAccounted(s: Sched, data: int, ms: nat, now: nat)
    requires Accounted(s)
    ensures Accounted(Step(s, Add(data, ms), now))
  {
    hide Insert;
    var e := Entry(now + ms, data, s.pos);
    InsertHolds(s.q, e);
  }

  lemma AddKeeps(s: Sched, data: int, ms: nat, now: nat)
    requires SchedOk(s) && now >= s.clock && ms < U32
    ensures SchedOk(Step(s, Add(data, ms), now))
  {
    hide Insert, Accounted, Sorted;
    var e := Entry(now + ms, data, s.pos);
    InsertSorted(s.q, e);
    InsertMembers(s.q, e);
    AddAccounted(s, data, ms, now);
    var q' := Insert(s.q, e);
    forall i, j | 0 <= i < |s.fired| && 0 <= j < |q'| ensures s.fired[i].entry.expire <= q'[j].expire {
      assert q'[j] in q';
    }
  }

  lemma CutHolds(q: seq<Entry>, n: nat)
    requires n < |q|
    ensures multiset(q) == multiset(q[..n] + q[n + 1..]) + multiset{q[n]}
  {
    assert q == q[..n] + ([q[n]] + q[n + 1..]);
  }

  lemma CutSorted(q: seq<Entry>, n: nat)
    requires n < |q|
    ensures Sorted(q) ==> Sorted(q[..n] + q[n + 1..])
    ensures forall x :: x in q[..n] + q[n + 1..] ==> x in q
  {
    var r := q[..n] + q[n + 1..];
    assert forall i :: 0 <= i < |r| ==> r[i] == q[if i < n then i else i + 1];
  }

  lemma RemoveShape(q: seq<Entry>, data: int)
    ensures var n := FirstWith(q, data);
            && (Sorted(q) ==> Sorted(RemoveFirst(q, data))) && (forall x :: x in RemoveFirst(q, data) ==> x in q)
            && multiset(q) == multiset(RemoveFirst(q, data)) + multiset(if n < |q| then [q[n]] else [])
  {
    hide FirstWith, Sorted;
    var n := FirstWith(q, data);
    if n < |q| {
      CutHolds(q, n);
      CutSorted(q, n);
    }
  }

  lemma RemoveAccounted(s: Sched, data: int, now: nat)
    requires Accounted(s)
    ensures Accounted(Step(s, Remove(data), now))
  {
    hide RemoveFirst, FirstWith, Sorted;
    RemoveShape(s.q, data);
    var n := FirstWith(s.q, data);
    var out := if n < |s.q| then [s.q[n]] else [];
    assert multiset(s.removed + out) == multiset(s.removed) + multiset(out);
  }

  lemma RemoveKeeps(s: Sched, data: int, now: nat)
    requires SchedOk(s) && now >= s.clock
    ensures SchedOk(Step(s, Remove(data), now))
  {
    hide RemoveFirst, FirstWith, Accounted, Sorted;
    RemoveShape(s.q, data);
    RemoveAccounted(s, data, now);
    var q' := RemoveFirst(s.q, data);
    assert forall j :: 0 <= j < |q'| ==> q'[j] in q';
  }

  lemma CheckAccounted(s: Sched, now: nat)
    requires Accounted(s)
    ensures Accounted(Step(s, Check, now))
  {
    hide DueCount;
    var n := DueCount(s.q, now);
    var due, rest := s.q[..n], s.q[n..];
    assert s.q == due + rest;
    var f := s.fired + Fired(due, s.pos, now);
    assert Entries(f) == Entries(s.fired) + due;
  }

  lemma CheckOnTime(s: Sched, now: nat)
    requires SchedOk(s) && now >= s.clock
    ensures var s' := Step(s, Check, now); NotYetDue(s') && FiredOnTime(s') && Near(s')
  {
    hide DueCount, Accounted, FiredInOrder;
    var n := DueCount(s.q, now);
    var s' := Step(s, Check, now);
    var c := CheckCall(s.pos, now);
    assert s'.checks[|s.checks|] == c;
    forall e | e in s'.q ensures e in s.q && e.expire > now {
      var i :| n <= i < |s.q| && s.q[i] == e;
      assert s.q[n].expire <= s.q[i].expire || i == n;
    }
    forall f | f in s'.fired && f !in s.fired ensures f.entry in s.q && f.entry.expire <= now && f.pos == s.pos && f.time == now {
      var i :| 0 <= i < n && f == Firing(s.q[i], s.pos, now);
    }
    forall x | x in s'.checks ensures x == c || x in s.checks {
    }
  }

  lemma CheckInOrder(s: Sched, now: nat)
    requires FiredInOrder(s) && Sorted(s.q) && now >= s.clock
    ensures FiredInOrder(Step(s, Check, now))
  {
    hide DueCount;
    var n := DueCount(s.q, now);
    JoinOrdered(s.fired, s.q, n, s.pos, now);
    var f' := s.fired + Fired(s.q[..n], s.pos, now);
    assert forall i :: |s.fired| <= i < |f'| ==> f'[i].entry == s.q[i - |s.fired|];
  }

  lemma JoinOrdered(f: seq<Firing>, q: seq<Entry>, n: nat, pos: nat, now: nat)
    requires Ordered(f) && Before(f, q) && Sorted(q) && n <= |q|
    ensures Ordered(f + Fired(q[..n], pos, now)) && Before(f + Fired(q[..n], pos, now), q[n..])
  {
    var f' := f + Fired(q[..n], pos, now);
    assert forall i :: |f| <= i < |f'| ==> f'[i].entry == q[i - |f|];
  }

  lemma CheckKeeps(s: Sched, now: nat)
    requires SchedOk(s) && now >= s.clock
    ensures SchedOk(Step(s, Check, now))
  {
    hide DueCount, Accounted, NotYetDue, FiredOnTime, FiredInOrder, Near;
    CheckAccounted(s, now);
    CheckOnTime(s, now);
    CheckInOrder(s, now);
  }

  /** A call and the clock at that time. */
  datatype Call = Call(op: Op, time: nat)

  function Run(s: Sched, calls: seq<Call>): Sched
    decreases |calls|
  {
    if calls == [] then s else Run(Step(s, calls[0].op, calls[0].time), calls[1..])
  }

  /** The clock does not go back, and delays are 32-bit numbers. */
  ghost predicate Timed(calls: seq<Call>, start: nat) {
    && (forall i :: 0 <= i < |calls| ==> start <= calls[i].time && (calls[i].op.Add? ==> calls[i].op.milliseconds < U32))
    && (forall i, j :: 0 <= i < j < |calls| ==> calls[i].time <= calls[j].time)
  }

  function Empty(start: nat): Sched {
    Sched(start, 0, [], [], [], [], [])
  }

  lemma {:induction false} RunKeeps(s: Sched, calls: seq<Call>)
    requires SchedOk(s) && Timed(calls, s.clock)
    ensures SchedOk(Run(s, calls))
    decreases |calls|
  {
    hide SchedOk;
    if calls != [] {
      var op, now := calls[0].op, calls[0].time;
      match op {
        case Add(data, ms) => AddKeeps(s, data, ms, now);
        case Remove(data) => RemoveKeeps(s, data, now);
        case Check => CheckKeeps(s, now);
      }
      RunKeeps(Step(s, op, now), calls[1..]);
    }
  }

  /** After any run: the list is sorted; every item added is pending, fired or removed, just once; items fire at the first
      check at or after their expiry and in the order of expiry. */
  lemma RunsAreSound(start: nat, calls: seq<Call>)
    requires Timed(calls, start)
    ensures var s := Run(Empty(start), calls);
            Sorted(s.q) && Accounted(s) && NotYetDue(s) && FiredOnTime(s) && FiredInOrder(s)
  {
    hide Run;
    assert SchedOk(Empty(start));
    RunKeeps(Empty(start), calls);
  }

  /** The block time is the exact gap to the earliest pending item: the 32-bit conversion loses nothing. */
  lemma BlockTimeExact(s: Sched, now: nat)
    requires SchedOk(s) && now >= s.clock
    ensures var rest := Step(s, Check, now).q;
            && (rest == [] ==> BlockTime(s.q, now) == DEFAULT_BLOCK)
            && (rest != [] ==> BlockTime(s.q, now) == rest[0].expire - now > 0 && forall e :: e in rest ==> rest[0].expire <= e.expire)
  {
    hide DueCount, Accounted, NotYetDue, FiredOnTime, FiredInOrder;
    var n := DueCount(s.q, now);
    if n < |s.q| {
      assert s.q[n] in s.q;
      forall e | e in s.q[n..] ensures s.q[n].expire <= e.expire {
        var j :| n <= j < |s.q| && s.q[j] == e;
      }
    }
  }
}
