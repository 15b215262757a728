/**
 The queue of device queries that wait for an answer: each is sent again every second until a packet answers it or
 its tries are used up. The running queries are kept as a heap on their deadlines, and one timer is armed for the
 earliest. Callbacks do not call back into the queue.
 */
module QueryQueue {
  import opened Wrappers
  import opened Heaps

  type Address = string
  type Packet = string

  /** The clock ticks of one second. */
  const SECOND: int := 1_000_000

  /** `id` counts the calls of `queue_query`, and stands for the filter and the callbacks given there. */
  datatype Query = Query(id: nat, retries: int, maxRetries: int, device: Address, packet: Packet)

  /** How a query ends: with a call of one of its callbacks, or with an exception of another kind passed on. */
  datatype Outcome = Response(answer: Packet) | NotResponding | SendFailed | Raised

  /** What `send` does: it returns, or throws an exception of the library or of another kind. */
  datatype Sending = Sends | Fails | Throws

  type Running = multiset<Entry<Query>>

  // ---------------------------------------------------------------- what becomes of every query

  function Count(s: seq<nat>, id: nat): nat {
    if s == [] then 0 else Count(s[..|s| - 1], id) + if s[|s| - 1] == id then 1 else 0
  }

  lemma CountMore(s: seq<nat>, x: nat, id: nat)
    ensures Count(s + [x], id) == Count(s, id) + if x == id then 1 else 0
  {
    assert (s + [x])[..|s|] == s;
  }

  ghost predicate HasEnded(ended: seq<(nat, Outcome)>, id: nat) {
    exists e :: e in ended && e.0 == id
  }

  ghost predicate IsPending(m: Running, id: nat) {
    exists q :: q in m && q.value.id == id
  }

  /** A running query has been sent once more than it was retried, and no more often than its tries allow. */
  ghost predicate Tracked(q: Query, tries: seq<int>, sent: seq<nat>) {
    && q.id < |tries| && q.maxRetries == tries[q.id] - 1
    && q.retries >= 0 && Count(sent, q.id) == 1 + q.retries
    && (tries[q.id] >= 1 ==> q.retries <= q.maxRetries)
  }

  /**
     `tries` holds the number of tries given for each query so far, `sent` the queries in the order of their
     transmissions, `ended` those that ended.
   */
  datatype Account = Account(running: Running, tries: seq<int>, sent: seq<nat>, ended: seq<(nat, Outcome)>)

  /** Every query is either pending or ended, once. */
  ghost predicate Accounted(a: Account) {
    && (forall q :: q in a.running ==> a.running[q] == 1 && Tracked(q.value, a.tries, a.sent))
    && (forall q, p :: q in a.running && p in a.running && q.value.id == p.value.id ==> q == p)
    && (forall i :: 0 <= i < |a.ended| ==> a.ended[i].0 < |a.tries| && !IsPending(a.running, a.ended[i].0))
    && (forall i, j :: 0 <= i < j < |a.ended| ==> a.ended[i].0 != a.ended[j].0)
    && (forall id: nat :: id < |a.tries| ==> HasEnded(a.ended, id) || IsPending(a.running, id))
    && (forall id: nat :: id < |a.tries| && a.tries[id] >= 1 ==> Count(a.sent, id) <= a.tries[id])
    && (forall id: nat :: id >= |a.tries| ==> Count(a.sent, id) == 0)
  }

  lemma AccountBegun(a: Account, t: int)
    requires Accounted(a)
    ensures var id := |a.tries|;
            && (forall q :: q in a.running ==> Tracked(q.value, a.tries + [t], a.sent + [id]))
            && (forall i: nat :: Count(a.sent + [id], i) == Count(a.sent, i) + if i == id then 1 else 0)
  {
    var id := |a.tries|;
    forall i: nat ensures Count(a.sent + [id], i) == Count(a.sent, i) + if i == id then 1 else 0 {
      CountMore(a.sent, id, i);
    }
  }

  /** A query that was sent and now waits. */
  lemma AccountQueued(a: Account, t: int, e: Entry<Query>)
    requires Accounted(a)
    requires e.value.id == |a.tries| && e.value.retries == 0 && e.value.maxRetries == t - 1
    ensures Accounted(Account(a.running + multiset{e}, a.tries + [t], a.sent + [|a.tries|], a.ended))
  {
    AccountBegun(a, t);
    StaysUnique(a.running, e);
    PendingMore(a.running, e);
  }

  /** A query whose first transmission failed. */
  lemma AccountRefused(a: Account, t: int, o: Outcome)
    requires Accounted(a)
    ensures Accounted(Account(a.running, a.tries + [t], a.sent + [|a.tries|], a.ended + [(|a.tries|, o)]))
  {
    AccountBegun(a, t);
    EndedMore(a.ended, |a.tries|, o);
    assert !IsPending(a.running, |a.tries|);
  }

  lemma EndedMore(ended: seq<(nat, Outcome)>, x: nat, o: Outcome)
    ensures forall id: nat :: HasEnded(ended + [(x, o)], id) <==> HasEnded(ended, id) || id == x
  {
    var more := ended + [(x, o)];
    assert more[|ended|] == (x, o);
    forall id: nat | HasEnded(ended, id) ensures HasEnded(more, id) {
      var e :| e in ended && e.0 == id;
      assert e in more;
    }
    assert (x, o) in more;
  }

  lemma StillPending(m: Running, e: Entry<Query>)
    requires e in m && m[e] == 1
    requires forall q, p :: q in m && p in m && q.value.id == p.value.id ==> q == p
    ensures forall id: nat :: IsPending(m - multiset{e}, id) <==> IsPending(m, id) && id != e.value.id
  {
    var rest := m - multiset{e};
    assert e !in rest;
    forall id: nat | IsPending(m, id) && id != e.value.id ensures IsPending(rest, id) {
      var q :| q in m && q.value.id == id;
      assert q in rest;
    }
    forall id: nat | IsPending(rest, id) ensures IsPending(m, id) && id != e.value.id {
      var q :| q in rest && q.value.id == id;
      assert q in m;
    }
  }

  /** A query that is over. */
  lemma AccountEnded(a: Account, e: Entry<Query>, o: Outcome)
    requires Accounted(a) && e in a.running
    ensures Accounted(a.(running := a.running - multiset{e}, ended := a.ended + [(e.value.id, o)]))
  {
    StillPending(a.running, e);
    EndedMore(a.ended, e.value.id, o);
    assert IsPending(a.running, e.value.id);
    var rest := a.running - multiset{e};
    forall q | q in rest ensures rest[q] == 1 && Tracked(q.value, a.tries, a.sent) {
      assert q in a.running;
    }
  }

  /** Entries of one query each stay so when an entry of another query joins them. */
  lemma StaysUnique(m: Running, e: Entry<Query>)
    requires forall q, p :: q in m && p in m && q.value.id == p.value.id ==> q == p
    requires !IsPending(m, e.value.id)
    ensures var m1 := m + multiset{e};
            forall q, p :: q in m1 && p in m1 && q.value.id == p.value.id ==> q == p
    ensures forall q :: q in m ==> q.value.id != e.value.id
    ensures e !in m && (m + multiset{e})[e] == 1
  {
    forall q | q in m ensures q.value.id != e.value.id {
      assert IsPending(m, q.value.id);
    }
  }

  lemma CountSent(tries: seq<int>, sent: seq<nat>, q: Query)
    requires q.id < |tries| && q.maxRetries == tries[q.id] - 1
    requires Tracked(q, tries, sent) && q.retries != q.maxRetries
    ensures Tracked(q.(retries := q.retries + 1), tries, sent + [q.id])
    ensures forall i: nat :: Count(sent + [q.id], i) == Count(sent, i) + if i == q.id then 1 else 0
  {
    forall i: nat ensures Count(sent + [q.id], i) == Count(sent, i) + if i == q.id then 1 else 0 {
      CountMore(sent, q.id, i);
    }
  }

  /** A query that was sent once more and waits again. */
  lemma AccountRetried(a: Account, e: Entry<Query>, later: Entry<Query>)
    requires Accounted(a) && e in a.running
    requires e.value.retries != e.value.maxRetries
    requires later.value == e.value.(retries := e.value.retries + 1)
    ensures Accounted(a.(running := a.running - multiset{e} + multiset{later}, sent := a.sent + [e.value.id]))
  {
    var rest := a.running - multiset{e};
    var m1 := rest + multiset{later};
    StillPending(a.running, e);
    CountSent(a.tries, a.sent, e.value);
    StaysUnique(rest, later);
    PendingMore(rest, later);
    forall q | q in m1 && q != later ensures m1[q] == 1 && Tracked(q.value, a.tries, a.sent + [e.value.id]) {
      assert q in rest && q in a.running;
    }
    assert IsPending(a.running, e.value.id);
  }

  lemma PendingMore(m: Running, e: Entry<Query>)
    ensures forall id: nat :: IsPending(m + multiset{e}, id) <==> IsPending(m, id) || id == e.value.id
  {
    var m1 := m + multiset{e};
    assert e in m1;
    forall id: nat | IsPending(m, id) ensures IsPending(m1, id) {
      var q :| q in m && q.value.id == id;
      assert q in m1;
    }
  }

  // ---------------------------------------------------------------- the queue

  lemma WithoutOne<T>(s: seq<T>, i: nat)
    requires i < |s|
    ensures multiset(s[..i] + s[i + 1..]) == multiset(s) - multiset{s[i]}
  {
    assert s == s[..i] + [s[i]] + s[i + 1..];
  }

  type Filter = (Packet, Address) -> bool

  predicate Answers(filters: seq<Filter>, e: Entry<Query>, packet: Packet, from: Address) {
    e.value.id < |filters| && filters[e.value.id](packet, from)
  }

  /** The queries of `s` that the packet does not answer. */
  function Unanswered(filters: seq<Filter>, s: seq<Entry<Query>>, packet: Packet, from: Address): seq<Entry<Query>> {
    if s == [] then []
    else Unanswered(filters, s[..|s| - 1], packet, from) +
         if Answers(filters, s[|s| - 1], packet, from) then [] else [s[|s| - 1]]
  }

  /** One response for every query that the packet answers, in the order of `s`. */
  function Responses(filters: seq<Filter>, s: seq<Entry<Query>>, packet: Packet, from: Address): seq<(nat, Outcome)> {
    if s == [] then []
    else Responses(filters, s[..|s| - 1], packet, from) +
         if Answers(filters, s[|s| - 1], packet, from) then [(s[|s| - 1].value.id, Response(packet))] else []
  }

  /** What a timeout does to the account: the query `first` fails or is sent again, the others are left alone. */
  ghost function TimedOut(a: Account, first: Entry<Query>, sending: Sending): Account {
    var q := first.value;
    var rest := a.running - multiset{first};
    if q.retries == q.maxRetries then
      a.(running := rest, ended := a.ended + [(q.id, NotResponding)])
    else if sending.Sends? then
      a.(running := rest + multiset{Retried(first)}, sent := a.sent + [q.id])
    else
      a.(running := rest, sent := a.sent + [q.id], ended := a.ended + [(q.id, Excuse(sending))])
  }

  function Retried(e: Entry<Query>): Entry<Query> {
    Entry(e.deadline + SECOND, e.value.(retries := e.value.retries + 1))
  }

  function Excuse(sending: Sending): Outcome {
    if sending.Fails? then SendFailed else Raised
  }

  lemma TimedOutAccounted(a: Account, first: Entry<Query>, sending: Sending)
    requires Accounted(a) && first in a.running
    ensures Accounted(TimedOut(a, first, sending))
  {
    var q := first.value;
    if q.retries == q.maxRetries {
      AccountEnded(a, first, NotResponding);
    } else {
      AccountRetried(a, first, Retried(first));
      if !sending.Sends? {
        var rest := a.running - multiset{first};
        assert rest + multiset{Retried(first)} - multiset{Retried(first)} == rest;
        AccountEnded(a.(running := rest + multiset{Retried(first)}, sent := a.sent + [q.id]), Retried(first),
                     Excuse(sending));
      }
    }
  }

  /** What queueing a query does to the account. */
  ghost function Queued(a: Account, t: int, e: Entry<Query>, sending: Sending): Account {
    var id := |a.tries|;
    if sending.Sends? then
      Account(a.running + multiset{e}, a.tries + [t], a.sent + [id], a.ended)
    else
      Account(a.running, a.tries + [t], a.sent + [id], a.ended + [(id, Excuse(sending))])
  }

  /** The account after the first `n` of the running queries `s` were offered a packet. */
  ghost function Offered(a: Account, filters: seq<Filter>, s: seq<Entry<Query>>, n: nat, packet: Packet,
                         from: Address): Account
    requires n <= |s|
  {
    a.(running := multiset(Unanswered(filters, s[..n], packet, from)) + multiset(s[n..]),
       ended := a.ended + Responses(filters, s[..n], packet, from))
  }

  lemma OfferedNone(a: Account, filters: seq<Filter>, s: seq<Entry<Query>>, packet: Packet, from: Address)
    requires a.running == multiset(s)
    ensures Offered(a, filters, s, 0, packet, from) == a
  {
    assert s[0..] == s && s[..0] == [];
    assert a.ended + [] == a.ended;
    assert multiset{} + multiset(s) == multiset(s);
  }

  lemma OfferedAll(a: Account, filters: seq<Filter>, s: seq<Entry<Query>>, packet: Packet, from: Address)
    ensures Offered(a, filters, s, |s|, packet, from) ==
            a.(running := multiset(Unanswered(filters, s, packet, from)),
               ended := a.ended + Responses(filters, s, packet, from))
  {
    assert s[..|s|] == s && s[|s|..] == [];
    var kept := multiset(Unanswered(filters, s, packet, from));
    assert kept + multiset{} == kept;
  }

  lemma OfferedMore(a: Account, filters: seq<Filter>, s: seq<Entry<Query>>, j: nat, packet: Packet, from: Address)
    requires j < |s|
    ensures var before := Offered(a, filters, s, j, packet, from);
            && s[j] in before.running
            && Offered(a, filters, s, j + 1, packet, from) ==
               if Answers(filters, s[j], packet, from)
               then before.(running := before.running - multiset{s[j]},
                            ended := before.ended + [(s[j].value.id, Response(packet))])
               else before
  {
    Further(filters, s, j, packet, from);
    FirstOff(s, j);
    var kept := multiset(Unanswered(filters, s[..j], packet, from));
    TakeFrom(kept, s[j], multiset(s[j + 1..]));
    var responses := Responses(filters, s[..j], packet, from);
    var response := (s[j].value.id, Response(packet));
    assert a.ended + (responses + [response]) == a.ended + responses + [response];
    assert responses + [] == responses;
    assert Unanswered(filters, s[..j], packet, from) + [] == Unanswered(filters, s[..j], packet, from);
  }

  lemma FirstOff<T>(s: seq<T>, j: nat)
    requires j < |s|
    ensures multiset(s[j..]) == multiset{s[j]} + multiset(s[j + 1..])
  {
    assert s[j..] == [s[j]] + s[j + 1..];
  }

  lemma TakeFrom<T>(kept: multiset<T>, x: T, rest: multiset<T>)
    ensures kept + (multiset{x} + rest) - multiset{x} == kept + rest
    ensures kept + (multiset{x} + rest) == kept + multiset{x} + rest
  {
  }

  /** The steps of offering a packet to the running queries one after the other. */
  lemma {:induction false} AnsweredAccounted(a: Account, filters: seq<Filter>, s: seq<Entry<Query>>, n: nat,
                                             packet: Packet, from: Address)
    requires n <= |s| && Accounted(Offered(a, filters, s, n, packet, from))
    ensures Accounted(Offered(a, filters, s, |s|, packet, from))
    decreases |s| - n
  {
    if n < |s| {
      OneOffered(a, filters, s, n, packet, from);
      AnsweredAccounted(a, filters, s, n + 1, packet, from);
    }
  }

  lemma OneOffered(a: Account, filters: seq<Filter>, s: seq<Entry<Query>>, j: nat, packet: Packet, from: Address)
    requires j < |s| && Accounted(Offered(a, filters, s, j, packet, from))
    ensures Accounted(Offered(a, filters, s, j + 1, packet, from))
  {
    OfferedMore(a, filters, s, j, packet, from);
    if Answers(filters, s[j], packet, from) {
      AccountEnded(Offered(a, filters, s, j, packet, from), s[j], Response(packet));
    }
  }

  function Earlier(a: int, b: int): int {
    if a <= b then a else b
  }

  lemma QueuedAccounted(a: Account, t: int, e: Entry<Query>, sending: Sending)
    requires Accounted(a)
    requires e.value.id == |a.tries| && e.value.retries == 0 && e.value.maxRetries == t - 1
    ensures Accounted(Queued(a, t, e, sending))
  {
    if sending.Sends? {
      AccountQueued(a, t, e);
    } else {
      AccountRefused(a, t, Excuse(sending));
    }
  }

  lemma Ahead<T>(s: seq<T>, i: nat, t: seq<T>, j: nat)
    requires i < |s| && j <= |t| && s[i..] == t[j..]
    ensures j < |t| && s[i] == t[j] && s[i + 1..] == t[j + 1..]
    ensures s[..i + 1] == s[..i] + [t[j]]
  {
    assert s[i..][0] == t[j..][0];
    assert s[i..][1..] == s[i + 1..] && t[j..][1..] == t[j + 1..];
  }

  lemma Further(filters: seq<Filter>, s: seq<Entry<Query>>, j: nat, packet: Packet, from: Address)
    requires j < |s|
    ensures Unanswered(filters, s[..j + 1], packet, from) ==
            Unanswered(filters, s[..j], packet, from) + if Answers(filters, s[j], packet, from) then [] else [s[j]]
    ensures Responses(filters, s[..j + 1], packet, from) ==
            Responses(filters, s[..j], packet, from) +
            if Answers(filters, s[j], packet, from) then [(s[j].value.id, Response(packet))] else []
  {
    assert s[..j + 1][..j] == s[..j];
  }

  /** The front after a push is the earlier of the old front and the new entry. */
  lemma NewFront(before: seq<Entry<Query>>, e: Entry<Query>, after: seq<Entry<Query>>)
    requires Heap(before) && Heap(after) && multiset(after) == multiset(before + [e])
    ensures after != []
    ensures before == [] ==> after[0] == e
    ensures before != [] ==>
            after[0].deadline == Earlier(before[0].deadline, e.deadline)
  {
    var all := before + [e];
    assert |after| == |multiset(after)| == |multiset(all)| == |all|;
    assert after[0] in multiset(all);
    assert all[|before|] == e && e in multiset(after);
    var i :| 0 <= i < |after| && after[i] == e;
    FrontIsEarliest(after, i);
    if before != [] {
      assert all[0] == before[0] && before[0] in multiset(all);
      var k :| 0 <= k < |after| && after[k] == before[0];
      FrontIsEarliest(after, k);
      if after[0] != e {
        assert after[0] in multiset(before);
        var l :| 0 <= l < |before| && before[l] == after[0];
        FrontIsEarliest(before, l);
      }
    }
  }

  // ---------------------------------------------------------------- whole runs

  /** What happens: a query is queued, the timer's handler is called, or a packet arrives. */
  datatype Event =
    | Ask(now: int, device: Address, packet: Packet, filter: Filter, maxTries: int, sending: Sending)
    | Timer(now: int, aborted: bool, sending: Sending)
    | Arrival(now: int, answer: Packet, from: Address)

  /** `armed` is when the timer will call its handler, if a wait is pending. */
  datatype State = State(account: Account, filters: seq<Filter>, armed: Option<int>)

  const START: State := State(Account(multiset{}, [], [], []), [], None)

  ghost predicate Earliest(m: Running, e: Entry<Query>) {
    e in m && forall x :: x in m ==> e.deadline <= x.deadline
  }

  /** The timer was set for the earliest deadline, or, without running queries, left as it was. */
  ghost predicate Rearmed(before: Option<int>, t: State) {
    if t.account.running == multiset{} then t.armed == before
    else exists e :: Earliest(t.account.running, e) && t.armed == Some(e.deadline)
  }

  /** The earliest query was handled. */
  ghost predicate Expired(a: Account, sending: Sending, b: Account) {
    exists first :: Earliest(a.running, first) && b == TimedOut(a, first, sending)
  }

  /** The queries in `order` were offered a packet. */
  ghost function Heard(a: Account, filters: seq<Filter>, order: seq<Entry<Query>>, packet: Packet,
                       from: Address): Account {
    a.(running := multiset(Unanswered(filters, order, packet, from)),
       ended := a.ended + Responses(filters, order, packet, from))
  }

  lemma HeardAccounted(a: Account, filters: seq<Filter>, order: seq<Entry<Query>>, packet: Packet, from: Address)
    requires Accounted(a) && multiset(order) == a.running
    ensures Accounted(Heard(a, filters, order, packet, from))
  {
    OfferedNone(a, filters, order, packet, from);
    AnsweredAccounted(a, filters, order, 0, packet, from);
    OfferedAll(a, filters, order, packet, from);
  }

  /** All queries were offered a packet, in some order. */
  ghost predicate Answered(a: Account, filters: seq<Filter>, packet: Packet, from: Address, b: Account) {
    exists order :: multiset(order) == a.running && b == Heard(a, filters, order, packet, from)
  }

  /** A new query. */
  function NewEntry(id: nat, now: int, maxTries: int, device: Address, packet: Packet): Entry<Query> {
    Entry(now + SECOND, Query(id, 0, maxTries - 1, device, packet))
  }

  /** The new query of an `Ask`. */
  function Asked(id: nat, event: Event): Entry<Query>
    requires event.Ask?
  {
    NewEntry(id, event.now, event.maxTries, event.device, event.packet)
  }

  /** What an event does, whenever it happens. */
  ghost predicate Step(s: State, event: Event, t: State) {
    match event
    case Ask(now, _, _, filter, maxTries, sending) =>
      && t.account == Queued(s.account, maxTries, Asked(|s.account.tries|, event), sending)
      && t.filters == s.filters + [filter]
      && t.armed == if sending.Sends? && s.account.running == multiset{} then Some(now + SECOND) else s.armed
    case Timer(_, aborted, sending) =>
      if aborted then t == s
      else if s.account.running == multiset{} then t == s.(armed := None)
      else t.filters == s.filters && Rearmed(None, t) && Expired(s.account, sending, t.account)
    case Arrival(_, answer, from) =>
      t.filters == s.filters && Rearmed(s.armed, t) && Answered(s.account, s.filters, answer, from, t.account)
  }

  /** The events lead through these states. */
  ghost predicate IsRun(events: seq<Event>, states: seq<State>) {
    && |states| == |events| + 1 && states[0] == START
    && forall k :: 0 <= k < |events| ==> Step(states[k], events[k], states[k + 1])
  }

  lemma RunShorter(events: seq<Event>, states: seq<State>)
    requires IsRun(events, states) && events != []
    ensures IsRun(events[..|events| - 1], states[..|events|])
    ensures Step(states[|events| - 1], events[|events| - 1], states[|events|])
  {
  }

  lemma StepAccounted(s: State, event: Event, t: State)
    requires Accounted(s.account) && Step(s, event, t)
    ensures Accounted(t.account)
  {
    match event
    case Ask(_, _, _, _, maxTries, sending) =>
      QueuedAccounted(s.account, maxTries, Asked(|s.account.tries|, event), sending);
    case Timer(_, aborted, sending) =>
      if !aborted && s.account.running != multiset{} {
        var first :| Earliest(s.account.running, first) && t.account == TimedOut(s.account, first, sending);
        TimedOutAccounted(s.account, first, sending);
      }
    case Arrival(_, answer, from) =>
      var order :| multiset(order) == s.account.running &&
        t.account == Heard(s.account, s.filters, order, answer, from);
      HeardAccounted(s.account, s.filters, order, answer, from);
  }

  /** At any time of any run each query is pending or ended, once, and was sent no more often than its tries allow. */
  lemma {:induction false} RunAccounted(events: seq<Event>, states: seq<State>)
    requires IsRun(events, states)
    ensures Accounted(states[|events|].account)
  {
    if events != [] {
      RunShorter(events, states);
      RunAccounted(events[..|events| - 1], states[..|events|]);
      StepAccounted(states[|events| - 1], events[|events| - 1], states[|events|]);
    }
  }

  // ---------------------------------------------------------------- what each event does

  /** Every running query has a filter. */
  ghost predicate Filtered(m: Running, filters: seq<Filter>) {
    forall e :: e in m ==> e.value.id < |filters|
  }

  /** Exactly the queries whose filters reject the packet run on. */
  ghost predicate RunOn(m: Running, filters: seq<Filter>, packet: Packet, from: Address, n: Running)
    requires Filtered(m, filters)
  {
    forall e :: n[e] == if e in m && !filters[e.value.id](packet, from) then 1 else 0
  }

  /** Exactly the queries whose filters accept the packet get it as their response, each once. */
  ghost predicate Responded(m: Running, filters: seq<Filter>, packet: Packet, from: Address, news: seq<(nat, Outcome)>)
    requires Filtered(m, filters)
  {
    && (forall e :: e in m && filters[e.value.id](packet, from) ==> (e.value.id, Response(packet)) in news)
    && (forall o :: o in news ==>
          exists e :: e in m && filters[e.value.id](packet, from) && o == (e.value.id, Response(packet)))
    && (forall i, j :: 0 <= i < j < |news| ==> news[i].0 != news[j].0)
  }

  /** What a packet does: the queries that it answers end with it, all others run on, and nothing is sent. */
  ghost predicate IsHeard(a: Account, filters: seq<Filter>, packet: Packet, from: Address, b: Account) {
    && b.tries == a.tries && b.sent == a.sent && Filtered(a.running, filters)
    && RunOn(a.running, filters, packet, from, b.running)
    && a.ended <= b.ended && Responded(a.running, filters, packet, from, b.ended[|a.ended|..])
  }

  /** What an `Ask` does: it is sent once, and waits for a second from now if that worked. */
  ghost predicate IsAsked(a: Account, event: Event, b: Account)
    requires event.Ask?
  {
    var id := |a.tries|;
    && b.tries == a.tries + [event.maxTries] && b.sent == a.sent + [id]
    && match event.sending
       case Sends =>
         b.ended == a.ended &&
         b.running == a.running + multiset{Entry(event.now + SECOND,
           Query(id, 0, event.maxTries - 1, event.device, event.packet))}
       case Fails => b.running == a.running && b.ended == a.ended + [(id, SendFailed)]
       case Throws => b.running == a.running && b.ended == a.ended + [(id, Raised)]
  }

  /** What a timer does to the query it is for: after the last try it fails, else it is sent again. */
  ghost predicate IsTimedOut(a: Account, e: Entry<Query>, sending: Sending, b: Account) {
    var id, rest := e.value.id, a.running - multiset{e};
    && b.tries == a.tries
    && if e.value.retries == e.value.maxRetries then
         b.running == rest && b.sent == a.sent && b.ended == a.ended + [(id, NotResponding)]
       else
         && b.sent == a.sent + [id]
         && match sending
            case Sends =>
              b.ended == a.ended &&
              b.running == rest + multiset{Entry(e.deadline + SECOND, e.value.(retries := e.value.retries + 1))}
            case Fails => b.running == rest && b.ended == a.ended + [(id, SendFailed)]
            case Throws => b.running == rest && b.ended == a.ended + [(id, Raised)]
  }

  /** What an event does to the queries. */
  ghost predicate Happens(s: State, event: Event, t: State) {
    match event
    case Ask(_, _, _, filter, _, _) => t.filters == s.filters + [filter] && IsAsked(s.account, event, t.account)
    case Timer(_, aborted, sending) =>
      && t.filters == s.filters
      && if aborted || s.account.running == multiset{} then t.account == s.account
         else exists e :: e in s.account.running && (forall x :: x in s.account.running ==> e.deadline <= x.deadline)
                && IsTimedOut(s.account, e, sending, t.account)
    case Arrival(_, answer, from) =>
      t.filters == s.filters && IsHeard(s.account, s.filters, answer, from, t.account)
  }

  lemma {:induction false} UnansweredIff(filters: seq<Filter>, s: seq<Entry<Query>>, packet: Packet, from: Address,
                                         e: Entry<Query>)
    ensures e in Unanswered(filters, s, packet, from) <==> e in s && !Answers(filters, e, packet, from)
  {
    if s != [] {
      var n := |s| - 1;
      UnansweredIff(filters, s[..n], packet, from, e);
      assert s == s[..n] + [s[n]];
    }
  }

  /** The responses are those to the queries whose filters accept the packet. */
  lemma {:induction false} ResponsesIff(filters: seq<Filter>, s: seq<Entry<Query>>, packet: Packet, from: Address,
                                        o: (nat, Outcome))
    ensures o in Responses(filters, s, packet, from) <==>
            exists e :: e in s && Answers(filters, e, packet, from) && o == (e.value.id, Response(packet))
  {
    if s != [] {
      var n := |s| - 1;
      ResponsesIff(filters, s[..n], packet, from, o);
      assert s == s[..n] + [s[n]];
      if Answers(filters, s[n], packet, from) && o == (s[n].value.id, Response(packet)) {
        assert s[n] in s;
      }
    }
  }

  lemma FiltersThere(a: Account, filters: seq<Filter>)
    requires Accounted(a) && |filters| == |a.tries|
    ensures Filtered(a.running, filters)
  {
    forall e | e in a.running ensures e.value.id < |filters| {
      assert Tracked(e.value, a.tries, a.sent);
    }
  }

  lemma HeardRunning(a: Account, filters: seq<Filter>, order: seq<Entry<Query>>, packet: Packet, from: Address)
    requires Accounted(Heard(a, filters, order, packet, from)) && Filtered(a.running, filters)
    requires multiset(order) == a.running
    ensures RunOn(a.running, filters, packet, from, Heard(a, filters, order, packet, from).running)
  {
    var kept := Heard(a, filters, order, packet, from).running;
    forall e ensures kept[e] == if e in a.running && !filters[e.value.id](packet, from) then 1 else 0 {
      UnansweredIff(filters, order, packet, from, e);
      assert e in order <==> e in multiset(order);
      assert e in kept <==> e in Unanswered(filters, order, packet, from);
    }
  }

  lemma HeardResponded(m: Running, filters: seq<Filter>, order: seq<Entry<Query>>, packet: Packet, from: Address)
    requires Filtered(m, filters) && multiset(order) == m
    requires var news := Responses(filters, order, packet, from);
      forall i, j :: 0 <= i < j < |news| ==> news[i].0 != news[j].0
    ensures Responded(m, filters, packet, from, Responses(filters, order, packet, from))
  {
    var news := Responses(filters, order, packet, from);
    forall e | e in m && filters[e.value.id](packet, from) ensures (e.value.id, Response(packet)) in news {
      assert e in multiset(order);
      ResponsesIff(filters, order, packet, from, (e.value.id, Response(packet)));
    }
    forall o | o in news
      ensures exists e :: e in m && filters[e.value.id](packet, from) && o == (e.value.id, Response(packet))
    {
      ResponsesIff(filters, order, packet, from, o);
      var e :| e in order && Answers(filters, e, packet, from) && o == (e.value.id, Response(packet));
      assert e in multiset(order);
    }
  }

  lemma HeardSettles(a: Account, filters: seq<Filter>, order: seq<Entry<Query>>, packet: Packet, from: Address)
    requires Accounted(a) && |filters| == |a.tries| && multiset(order) == a.running
    ensures IsHeard(a, filters, packet, from, Heard(a, filters, order, packet, from))
  {
    var b, news := Heard(a, filters, order, packet, from), Responses(filters, order, packet, from);
    FiltersThere(a, filters);
    HeardAccounted(a, filters, order, packet, from);
    HeardRunning(a, filters, order, packet, from);
    assert b.ended[|a.ended|..] == news;
    forall i, j | 0 <= i < j < |news| ensures news[i].0 != news[j].0 {
      assert news[i] == b.ended[|a.ended| + i] && news[j] == b.ended[|a.ended| + j];
    }
    HeardResponded(a.running, filters, order, packet, from);
  }

  lemma ArrivalHappens(s: State, event: Event, t: State)
    requires event.Arrival? && Step(s, event, t) && Accounted(s.account) && |s.filters| == |s.account.tries|
    ensures Happens(s, event, t)
  {
    var order :| multiset(order) == s.account.running &&
      t.account == Heard(s.account, s.filters, order, event.answer, event.from);
    HeardSettles(s.account, s.filters, order, event.answer, event.from);
  }

  lemma StepHappens(s: State, event: Event, t: State)
    requires Step(s, event, t) && Accounted(s.account) && |s.filters| == |s.account.tries|
    ensures Happens(s, event, t) && |t.filters| == |t.account.tries|
  {
    if event.Arrival? {
      ArrivalHappens(s, event, t);
    } else if event.Timer? && !event.aborted && s.account.running != multiset{} {
      var first :| Earliest(s.account.running, first) && t.account == TimedOut(s.account, first, event.sending);
      assert IsTimedOut(s.account, first, event.sending, t.account);
    }
  }

  lemma {:induction false} RunFilters(events: seq<Event>, states: seq<State>)
    requires IsRun(events, states)
    ensures |states[|events|].filters| == |states[|events|].account.tries|
  {
    if events != [] {
      var n := |events| - 1;
      RunShorter(events, states);
      RunFilters(events[..n], states[..n + 1]);
      RunAccounted(events[..n], states[..n + 1]);
      StepHappens(states[n], events[n], states[n + 1]);
    }
  }

  /** Through every run each event does exactly what it should. */
  lemma RunHappens(events: seq<Event>, states: seq<State>, k: nat)
    requires IsRun(events, states) && k < |events|
    ensures Happens(states[k], events[k], states[k + 1])
  {
    RunFilters(events[..k], states[..k + 1]);
    RunAccounted(events[..k], states[..k + 1]);
    StepHappens(states[k], events[k], states[k + 1]);
  }

  // ---------------------------------------------------------------- where queries and outcomes come from

  /** The events that queued a query, in order. */
  function Asks(events: seq<Event>): (r: seq<Event>)
    ensures forall i :: 0 <= i < |r| ==> r[i].Ask?
  {
    if events == [] then []
    else Asks(events[..|events| - 1]) + if events[|events| - 1].Ask? then [events[|events| - 1]] else []
  }

  /** A running query is that of its `Ask`, and waits a second for each time it was sent. */
  ghost predicate Stems(e: Entry<Query>, asks: seq<Event>)
    requires forall i :: 0 <= i < |asks| ==> asks[i].Ask?
  {
    && e.value.id < |asks| && e.value.device == asks[e.value.id].device && e.value.packet == asks[e.value.id].packet
    && e.deadline == asks[e.value.id].now + SECOND * (1 + e.value.retries)
  }

  /** The tables are about the queries asked. */
  ghost predicate TablesFrom(tries: seq<int>, filters: seq<Filter>, asks: seq<Event>)
    requires forall i :: 0 <= i < |asks| ==> asks[i].Ask?
  {
    && |tries| == |filters| == |asks|
    && forall i :: 0 <= i < |asks| ==> tries[i] == asks[i].maxTries && filters[i] == asks[i].filter
  }

  /** The books are about the queries asked. */
  ghost predicate FromAsks(s: State, asks: seq<Event>)
    requires forall i :: 0 <= i < |asks| ==> asks[i].Ask?
  {
    TablesFrom(s.account.tries, s.filters, asks) && forall e :: e in s.account.running ==> Stems(e, asks)
  }

  lemma UnansweredBefore(filters: seq<Filter>, s: seq<Entry<Query>>, packet: Packet, from: Address, e: Entry<Query>)
    requires e in Unanswered(filters, s, packet, from)
    ensures e in s
  {
  }

  lemma StillRunning(s: State, event: Event, t: State, e: Entry<Query>)
    requires event.Arrival? && Step(s, event, t) && e in t.account.running
    ensures e in s.account.running
  {
    var order :| multiset(order) == s.account.running &&
      t.account == Heard(s.account, s.filters, order, event.answer, event.from);
    UnansweredBefore(s.filters, order, event.answer, event.from, e);
    assert e in multiset(order);
  }

  lemma ExpiredRunning(a: Account, sending: Sending, b: Account, e: Entry<Query>)
    requires Expired(a, sending, b) && e in b.running
    ensures e in a.running || exists first :: Earliest(a.running, first) && e == Retried(first)
  {
    var first :| Earliest(a.running, first) && b == TimedOut(a, first, sending);
    assert e in a.running || e == Retried(first);
  }

  /** A query is new, or was running before, at least with a try less. */
  ghost predicate Preceded(s: State, event: Event, e: Entry<Query>) {
    || e in s.account.running
    || (event.Ask? && e == Asked(|s.account.tries|, event))
    || (event.Timer? && !event.aborted && exists first :: Earliest(s.account.running, first) && e == Retried(first))
  }

  lemma StepRunning(s: State, event: Event, t: State, e: Entry<Query>)
    requires Step(s, event, t) && e in t.account.running
    ensures Preceded(s, event, e)
  {
    if event.Arrival? {
      StillRunning(s, event, t, e);
    } else if event.Timer? && !event.aborted && s.account.running != multiset{} {
      ExpiredRunning(s.account, event.sending, t.account, e);
    }
  }

  lemma StillStems(s: State, event: Event, e: Entry<Query>, asks: seq<Event>, more: seq<Event>)
    requires (forall i :: 0 <= i < |asks| ==> asks[i].Ask?) && more == asks + if event.Ask? then [event] else []
    requires FromAsks(s, asks) && Preceded(s, event, e)
    ensures Stems(e, more)
  {
    if e !in s.account.running && event.Timer? {
      var first :| Earliest(s.account.running, first) && e == Retried(first);
      assert Stems(first, asks);
    }
  }

  lemma StepTables(s: State, event: Event, t: State)
    requires Step(s, event, t)
    ensures event.Ask? ==>
      t.account.tries == s.account.tries + [event.maxTries] && t.filters == s.filters + [event.filter]
    ensures !event.Ask? ==> t.account.tries == s.account.tries && t.filters == s.filters
  {
  }

  lemma StepTablesFrom(s: State, event: Event, t: State, asks: seq<Event>)
    requires forall i :: 0 <= i < |asks| ==> asks[i].Ask?
    requires TablesFrom(s.account.tries, s.filters, asks) && Step(s, event, t)
    ensures TablesFrom(t.account.tries, t.filters, asks + if event.Ask? then [event] else [])
  {
    StepTables(s, event, t);
    assert asks + [] == asks;
  }

  lemma StepFromAsks(s: State, event: Event, t: State, asks: seq<Event>)
    requires forall i :: 0 <= i < |asks| ==> asks[i].Ask?
    requires FromAsks(s, asks) && Step(s, event, t)
    ensures FromAsks(t, asks + if event.Ask? then [event] else [])
  {
    StepTablesFrom(s, event, t, asks);
    forall e | e in t.account.running ensures Stems(e, asks + if event.Ask? then [event] else []) {
      StepRunning(s, event, t, e);
      StillStems(s, event, e, asks, asks + if event.Ask? then [event] else []);
    }
  }

  /**
   At any time of any run there are as many queries as were asked, with their tries and their filters, and each running
   one waits for the second after its last transmission.
   */
  lemma {:induction false} RunFromAsks(events: seq<Event>, states: seq<State>)
    requires IsRun(events, states)
    ensures FromAsks(states[|events|], Asks(events))
  {
    if events != [] {
      RunShorter(events, states);
      RunFromAsks(events[..|events| - 1], states[..|events|]);
      StepFromAsks(states[|events| - 1], events[|events| - 1], states[|events|], Asks(events[..|events| - 1]));
    }
  }

  /** Event `event` in state `s` ends query `id` so. */
  ghost predicate Causes(s: State, event: Event, id: nat, outcome: Outcome) {
    match outcome
    case Response(answer) =>
      && event.Arrival? && event.answer == answer && IsPending(s.account.running, id)
      && id < |s.filters| && s.filters[id](answer, event.from)
    case NotResponding =>
      && event.Timer? && !event.aborted
      && exists e :: Earliest(s.account.running, e) && e.value.id == id && e.value.retries == e.value.maxRetries
    case SendFailed => Refused(s, event, id, Fails)
    case Raised => Refused(s, event, id, Throws)
  }

  /** The query could not be sent, at first or again. */
  ghost predicate Refused(s: State, event: Event, id: nat, sending: Sending) {
    match event
    case Ask(_, _, _, _, _, _) => id == |s.account.tries| && event.sending == sending
    case Timer(_, aborted, _) =>
      && !aborted && event.sending == sending
      && exists e :: Earliest(s.account.running, e) && e.value.id == id && e.value.retries != e.value.maxRetries
    case Arrival(_, _, _) => false
  }

  lemma {:induction false} ResponseFrom(filters: seq<Filter>, s: seq<Entry<Query>>, packet: Packet, from: Address,
                                        i: nat) returns (e: Entry<Query>)
    requires i < |Responses(filters, s, packet, from)|
    ensures e in s && Answers(filters, e, packet, from)
    ensures Responses(filters, s, packet, from)[i] == (e.value.id, Response(packet))
  {
    var last := s[|s| - 1];
    if i < |Responses(filters, s[..|s| - 1], packet, from)| {
      e := ResponseFrom(filters, s[..|s| - 1], packet, from, i);
    } else {
      e := last;
    }
  }

  lemma AskCauses(s: State, event: Event, t: State)
    requires event.Ask? && Step(s, event, t)
    ensures if event.sending.Sends? then t.account.ended == s.account.ended
            else exists o :: t.account.ended == s.account.ended + [o] && Causes(s, event, o.0, o.1)
  {
    var o := (|s.account.tries|, Excuse(event.sending));
    if !event.sending.Sends? {
      assert t.account.ended == s.account.ended + [o] && Causes(s, event, o.0, o.1);
    }
  }

  lemma TimerCauses(s: State, event: Event, t: State, first: Entry<Query>)
    requires event.Timer? && !event.aborted && Earliest(s.account.running, first)
    requires t.account == TimedOut(s.account, first, event.sending)
    ensures t.account.ended == s.account.ended ||
      exists o :: t.account.ended == s.account.ended + [o] && Causes(s, event, o.0, o.1)
  {
    var q := first.value;
    var o := (q.id, if q.retries == q.maxRetries then NotResponding else Excuse(event.sending));
    if t.account.ended != s.account.ended {
      assert t.account.ended == s.account.ended + [o] && Causes(s, event, o.0, o.1);
    }
  }

  lemma HeardCauses(a: Account, filters: seq<Filter>, order: seq<Entry<Query>>, packet: Packet, from: Address, i: nat)
    requires multiset(order) == a.running && |a.ended| <= i < |Heard(a, filters, order, packet, from).ended|
    ensures var o := Heard(a, filters, order, packet, from).ended[i];
      && o.1 == Response(packet) && IsPending(a.running, o.0)
      && o.0 < |filters| && filters[o.0](packet, from)
  {
    var e := ResponseFrom(filters, order, packet, from, i - |a.ended|);
    assert e in multiset(order);
  }

  lemma ArrivalCauses(s: State, event: Event, t: State, i: nat)
    requires event.Arrival? && Answered(s.account, s.filters, event.answer, event.from, t.account)
    requires |s.account.ended| <= i < |t.account.ended|
    ensures Causes(s, event, t.account.ended[i].0, t.account.ended[i].1)
  {
    var order :| multiset(order) == s.account.running &&
      t.account == Heard(s.account, s.filters, order, event.answer, event.from);
    HeardCauses(s.account, s.filters, order, event.answer, event.from, i);
  }

  /** Outcomes are only added, and each that is added is caused. */
  lemma StepCauses(s: State, event: Event, t: State, i: nat)
    requires Step(s, event, t)
    ensures s.account.ended <= t.account.ended
    ensures |s.account.ended| <= i < |t.account.ended| ==>
      Causes(s, event, t.account.ended[i].0, t.account.ended[i].1)
  {
    if event.Ask? {
      AskCauses(s, event, t);
    } else if event.Arrival? {
      if |s.account.ended| <= i < |t.account.ended| {
        ArrivalCauses(s, event, t, i);
      }
    } else if !event.aborted && s.account.running != multiset{} {
      var first :| Earliest(s.account.running, first) && t.account == TimedOut(s.account, first, event.sending);
      TimerCauses(s, event, t, first);
    }
  }

  /** Every outcome of every run has its cause among the events. */
  lemma {:induction false} RunCauses(events: seq<Event>, states: seq<State>, i: nat) returns (k: nat)
    requires IsRun(events, states) && i < |states[|events|].account.ended|
    ensures k < |events| && |states[k].account.ended| <= i
    ensures Causes(states[k], events[k], states[|events|].account.ended[i].0, states[|events|].account.ended[i].1)
  {
    assert events != [];
    var n := |events| - 1;
    RunShorter(events, states);
    StepCauses(states[n], events[n], states[n + 1], i);
    if i < |states[n].account.ended| {
      k := RunCauses(events[..n], states[..n + 1], i);
    } else {
      k := n;
    }
  }

  /** An outcome stays. */
  lemma {:induction false} EndedStays(events: seq<Event>, states: seq<State>, k: nat)
    requires IsRun(events, states) && k <= |events|
    ensures states[k].account.ended <= states[|events|].account.ended
  {
    if k < |events| {
      var n := |events| - 1;
      RunShorter(events, states);
      EndedStays(events[..n], states[..n + 1], k);
      StepCauses(states[n], events[n], states[n + 1], 0);
    }
  }

  /** Every packet of every run is the response to each running query whose filter accepts it, and to no other. */
  lemma RunAnswers(events: seq<Event>, states: seq<State>, k: nat, e: Entry<Query>)
    requires IsRun(events, states) && k < |events| && events[k].Arrival? && e in states[k].account.running
    ensures e.value.id < |states[k].filters|
    ensures states[k].filters[e.value.id](events[k].answer, events[k].from) ==>
      (e.value.id, Response(events[k].answer)) in states[|events|].account.ended &&
      !IsPending(states[k + 1].account.running, e.value.id)
    ensures !states[k].filters[e.value.id](events[k].answer, events[k].from) ==> e in states[k + 1].account.running
  {
    RunHappens(events, states, k);
    RunAccounted(events[..k + 1], states[..k + 2]);
    EndedStays(events, states, k + 1);
  }

  // ---------------------------------------------------------------- the timer

  /** The timer is armed for the earliest deadline. */
  ghost predicate TimerRight(s: State) {
    s.account.running != multiset{} ==> Rearmed(None, s)
  }

  /** A query that is added to others is not due before all of them. */
  ghost predicate InTime(s: State, event: Event) {
    event.Ask? && event.sending.Sends? && s.account.running != multiset{} ==>
      exists e :: e in s.account.running && e.deadline <= event.now + SECOND
  }

  lemma StepTimerIff(s: State, event: Event, t: State)
    requires Step(s, event, t) && TimerRight(s)
    ensures TimerRight(t) <==> InTime(s, event)
  {
    if event.Ask? && event.sending.Sends? {
      AskTimerIff(s, event, t);
    }
  }

  lemma AskTimerIff(s: State, event: Event, t: State)
    requires event.Ask? && event.sending.Sends? && Step(s, event, t) && TimerRight(s)
    ensures TimerRight(t) <==> InTime(s, event)
  {
    var added := Asked(|s.account.tries|, event);
    var m := s.account.running;
    assert t.account.running == m + multiset{added};
    assert added in t.account.running;
    if m == multiset{} {
      assert Earliest(t.account.running, added);
    } else {
      var first :| Earliest(m, first) && s.armed == Some(first.deadline);
      assert first in t.account.running;
      if first.deadline <= event.now + SECOND {
        assert Earliest(t.account.running, first);
      } else {
        forall e | Earliest(t.account.running, e) ensures t.armed != Some(e.deadline) {
          assert e.deadline <= added.deadline;
        }
      }
    }
  }

  /** The timer is right in all these states. */
  ghost predicate AllRight(states: seq<State>) {
    forall k :: 0 <= k < |states| ==> TimerRight(states[k])
  }

  /** No query is added that is due before all others. */
  ghost predicate AllInTime(events: seq<Event>, states: seq<State>) {
    |events| < |states| && forall k :: 0 <= k < |events| ==> InTime(states[k], events[k])
  }

  lemma AllRightSplit(states: seq<State>)
    requires states != []
    ensures AllRight(states) <==> AllRight(states[..|states| - 1]) && TimerRight(states[|states| - 1])
  {
  }

  lemma AllInTimeSplit(events: seq<Event>, states: seq<State>)
    requires events != [] && |states| == |events| + 1
    ensures var n := |events| - 1;
      AllInTime(events, states) <==> AllInTime(events[..n], states[..n + 1]) && InTime(states[n], events[n])
  {
  }

  /** The timer is right all through a run exactly if no query is added that is due before all others. */
  lemma {:induction false} RunTimerIff(events: seq<Event>, states: seq<State>)
    requires IsRun(events, states)
    ensures AllRight(states) <==> AllInTime(events, states)
  {
    if events != [] {
      var n := |events| - 1;
      RunShorter(events, states);
      RunTimerIff(events[..n], states[..n + 1]);
      AllRightSplit(states);
      AllInTimeSplit(events, states);
      if TimerRight(states[n]) {
        StepTimerIff(states[n], events[n], states[n + 1]);
      } else {
        assert states[..n + 1][n] == states[n];
      }
    }
  }

  /** The clock does not run backwards. */
  ghost predicate Ordered(events: seq<Event>) {
    forall i, j :: 0 <= i < j < |events| ==> events[i].now <= events[j].now
  }

  /** The handler is called without an error only once the earliest deadline has come. */
  ghost predicate Due(s: State, event: Event) {
    event.Timer? && !event.aborted ==> forall e :: Earliest(s.account.running, e) ==> e.deadline <= event.now
  }

  /** No query waits for longer than a second. */
  ghost predicate Punctual(running: Running, now: int) {
    forall e :: e in running ==> e.deadline <= now + SECOND
  }

  lemma StepPunctual(s: State, event: Event, t: State)
    requires Step(s, event, t) && Due(s, event) && Punctual(s.account.running, event.now)
    ensures Punctual(t.account.running, event.now)
  {
    forall e | e in t.account.running ensures e.deadline <= event.now + SECOND {
      StepRunning(s, event, t, e);
      if e !in s.account.running && event.Timer? {
        var first :| Earliest(s.account.running, first) && e == Retried(first);
      }
    }
  }

  lemma {:induction false} RunPunctual(events: seq<Event>, states: seq<State>, now: int)
    requires IsRun(events, states) && Ordered(events) && forall k :: 0 <= k < |events| ==> Due(states[k], events[k])
    requires events != [] ==> events[|events| - 1].now <= now
    ensures Punctual(states[|events|].account.running, now)
  {
    if events != [] {
      var n := |events| - 1;
      RunShorter(events, states);
      RunPunctual(events[..n], states[..n + 1], events[n].now);
      StepPunctual(states[n], events[n], states[n + 1]);
    }
  }

  /** With a monotone clock and a handler that is never early, the timer is right all through the run. */
  lemma RunTimer(events: seq<Event>, states: seq<State>)
    requires IsRun(events, states) && Ordered(events) && forall k :: 0 <= k < |events| ==> Due(states[k], events[k])
    ensures forall k :: 0 <= k <= |events| ==> TimerRight(states[k])
  {
    forall k | 0 <= k < |events| ensures InTime(states[k], events[k]) {
      RunPunctual(events[..k], states[..k + 1], events[k].now);
      if s :| s in states[k].account.running {
        assert s.deadline <= events[k].now + SECOND;
      }
    }
    RunTimerIff(events, states);
  }

  class DeviceInterrogator {
    var running: seq<Entry<Query>>
    var filters: seq<Filter>
    /** When the timer will call `Timeout`, if a wait is pending. */
    var armed: Option<int>
    ghost var tries: seq<int>
    ghost var sent: seq<nat>
    ghost var ended: seq<(nat, Outcome)>

    ghost function Books(): Account
      reads this
    {
      Account(multiset(running), tries, sent, ended)
    }

    ghost predicate Valid()
      reads this
    {
      Heap(running) && |filters| == |tries| && Accounted(Books())
    }

    ghost function Now(): State
      reads this
    {
      State(Books(), filters, armed)
    }

    /** The timer is armed for the earliest deadline. */
    ghost predicate TimerRight()
      reads this
    {
      running != [] ==> armed == Some(running[0].deadline)
    }

    constructor ()
      ensures Valid() && TimerRight()
      ensures Now() == START
    {
      running, filters, armed := [], [], None;
      tries, sent, ended := [], [], [];
    }

    method RescheduleTimer()
      modifies `armed
      ensures TimerRight()
      ensures running == [] ==> armed == old(armed)
    {
      if |running| > 0 {
        armed := Some(running[0].deadline);
      }
    }

    method Push(e: Entry<Query>)
      requires Heap(running)
      modifies `running
      ensures Heap(running) && multiset(running) == old(multiset(running)) + multiset{e}
      ensures running != [] && |running| == |old(running)| + 1
      ensures old(running) == [] ==> running[0] == e
      ensures old(running) != [] ==>
              running[0].deadline == Earlier(old(running)[0].deadline, e.deadline)
    {
      ghost var before := running;
      running := running + [e];
      assert running[..|running| - 1] == before;
      running := PushHeap(running);
      NewFront(before, e, running);
    }

    method Pop() returns (e: Entry<Query>)
      requires Heap(running) && running != []
      modifies `running
      ensures e == old(running)[0] && e in old(multiset(running))
      ensures Heap(running) && multiset(running) == old(multiset(running)) - multiset{e}
    {
      ghost var before := running;
      assert before[0] in multiset(before);
      var all := PopHeap(running);
      e := all[|all| - 1];
      WithoutOne(all, |all| - 1);
      running := all[..|all| - 1];
      assert all[..|all| - 1] + all[|all|..] == running;
    }

    method Enter(query: Query, now: int, sending: Sending)
      requires Heap(running)
      modifies `running, `armed, `sent, `ended
      ensures Heap(running)
      ensures sent == old(sent) + [query.id]
      ensures sending.Sends? ==>
              multiset(running) == old(multiset(running)) + multiset{Entry(now + SECOND, query)} && ended == old(ended)
      ensures !sending.Sends? ==>
              running == old(running) && armed == old(armed) && ended == old(ended) + [(query.id, Excuse(sending))]
      ensures sending.Sends? && old(TimerRight()) ==>
              (TimerRight() <==> old(running) == [] || old(running)[0].deadline <= now + SECOND)
      ensures armed == if sending.Sends? && old(running) == [] then Some(now + SECOND) else old(armed)
    {
      sent := sent + [query.id];
      if !sending.Sends? {
        ended := ended + [(query.id, Excuse(sending))];
        return;
      }
      Push(Entry(now + SECOND, query));
      if |running| == 1 {
        RescheduleTimer();
      }
    }

    /**
     The new query is sent once; if that works it waits for its answer. The timer, if it was right, is right afterwards
     if and only if the queue was empty or some query waits no longer than the new one.
     */
    method QueueQuery(now: int, device: Address, packet: Packet, filter: Filter, maxTries: int, sending: Sending)
      requires Valid()
      modifies this
      ensures Valid()
      ensures Books() == Queued(old(Books()), maxTries, NewEntry(|old(tries)|, now, maxTries, device, packet), sending)
      ensures !sending.Sends? ==> running == old(running) && armed == old(armed)
      ensures sending.Sends? && old(TimerRight()) ==>
              (TimerRight() <==> old(running) == [] || old(running)[0].deadline <= now + SECOND)
      ensures armed == if sending.Sends? && old(running) == [] then Some(now + SECOND) else old(armed)
      ensures filters == old(filters) + [filter]
    {
      ghost var books := Books();
      var query := Query(|filters|, 0, maxTries - 1, device, packet);
      filters := filters + [filter];
      tries := tries + [maxTries];
      Enter(query, now, sending);
      QueuedAccounted(books, maxTries, NewEntry(|books.tries|, now, maxTries, device, packet), sending);
    }

    method Expire(sending: Sending)
      requires Heap(running) && running != []
      modifies `running, `armed, `sent, `ended
      ensures Heap(running) && TimerRight() && (running == [] ==> armed == old(armed))
      ensures Books() == TimedOut(old(Books()), old(running)[0], sending)
    {
      var back := Pop();
      if back.value.retries == back.value.maxRetries {
        ended := ended + [(back.value.id, NotResponding)];
      } else {
        sent := sent + [back.value.id];
        if sending.Sends? {
          Push(Retried(back));
        } else {
          ended := ended + [(back.value.id, Excuse(sending))];
        }
      }
      RescheduleTimer();
    }

    /** One call of the timer's handler. */
    method Timeout(aborted: bool, sending: Sending)
      requires Valid()
      modifies `running, `armed, `sent, `ended
      ensures Valid()
      ensures aborted || old(running) == [] ==>
              Books() == old(Books()) && running == old(running) && armed == old(armed)
      ensures !aborted && old(running) != [] ==>
              TimerRight() && Books() == TimedOut(old(Books()), old(running)[0], sending)
      ensures running == [] ==> armed == old(armed)
    {
      if aborted || |running| == 0 {
        return;
      }
      assert running[0] in multiset(running);
      TimedOutAccounted(Books(), running[0], sending);
      Expire(sending);
    }

    /** The loop over the running queries, which leaves them unordered when it erases one. */
    method Deliver(packet: Packet, from: Address) returns (orderDestroyed: bool)
      modifies `running, `ended
      ensures running == Unanswered(filters, old(running), packet, from)
      ensures ended == old(ended) + Responses(filters, old(running), packet, from)
      ensures !orderDestroyed ==> running == old(running)
    {
      ghost var before := running;
      ghost var j := 0;
      var it := 0;
      orderDestroyed := false;
      while it < |running|
        invariant 0 <= it <= |running| && 0 <= j <= |before|
        invariant running[it..] == before[j..]
        invariant running[..it] == Unanswered(filters, before[..j], packet, from)
        invariant ended == old(ended) + Responses(filters, before[..j], packet, from)
        invariant !orderDestroyed ==> running == before
        decreases |running| - it
      {
        ghost var was := running;
        Ahead(was, it, before, j);
        Further(filters, before, j, packet, from);
        if Answers(filters, running[it], packet, from) {
          ended := ended + [(running[it].value.id, Response(packet))];
          running := running[..it] + running[it + 1..];
          assert running[it..] == was[it + 1..] && running[..it] == was[..it];
          orderDestroyed := true;
        } else {
          it := it + 1;
        }
        j := j + 1;
      }
      assert before[..j] == before && running[..it] == running;
    }

    method Answer(packet: Packet, from: Address)
      requires Heap(running)
      modifies `running, `armed, `ended
      ensures Heap(running) && TimerRight() && (running == [] ==> armed == old(armed))
      ensures multiset(running) == multiset(Unanswered(filters, old(running), packet, from))
      ensures ended == old(ended) + Responses(filters, old(running), packet, from)
    {
      var orderDestroyed := Deliver(packet, from);
      if orderDestroyed {
        running := MakeHeap(running);
      }
      RescheduleTimer();
    }

    method PacketReceived(packet: Packet, from: Address)
      requires Valid()
      modifies `running, `armed, `ended
      ensures Valid() && TimerRight() && (running == [] ==> armed == old(armed))
      ensures multiset(running) == multiset(Unanswered(filters, old(running), packet, from))
      ensures ended == old(ended) + Responses(filters, old(running), packet, from)
      ensures IsHeard(old(Books()), filters, packet, from, Books())
    {
      HeardAccounted(Books(), filters, running, packet, from);
      HeardSettles(Books(), filters, running, packet, from);
      Answer(packet, from);
    }
  }

  // ---------------------------------------------------------------- the queue runs

  lemma FrontIs(queue: seq<Entry<Query>>)
    requires Heap(queue) && queue != []
    ensures Earliest(multiset(queue), queue[0])
  {
    assert queue[0] in multiset(queue);
    forall x | x in multiset(queue) ensures queue[0].deadline <= x.deadline {
      var i :| 0 <= i < |queue| && queue[i] == x;
      FrontIsEarliest(queue, i);
    }
  }

  lemma SameEmpty<T>(s: seq<T>)
    ensures multiset(s) == multiset{} <==> s == []
  {
    if s != [] {
      assert s[0] in multiset(s);
    }
  }

  /** What the class calls right is right. */
  lemma TimerRightIs(queue: DeviceInterrogator)
    requires queue.Valid()
    ensures queue.TimerRight() <==> TimerRight(queue.Now())
  {
    SameEmpty(queue.running);
    if queue.running != [] {
      FrontIs(queue.running);
    }
  }

  /** The handler of the timer, after its wait. */
  method Fire(queue: DeviceInterrogator, event: Event)
    requires queue.Valid() && event.Timer? && !event.aborted
    modifies queue
    ensures queue.Valid() && Step(old(queue.Now()), event, queue.Now())
  {
    ghost var s := queue.Now();
    SameEmpty(queue.running);
    if queue.running != [] {
      FrontIs(queue.running);
    }
    queue.armed := None;
    queue.Timeout(false, event.sending);
    SameEmpty(queue.running);
    if queue.running != [] {
      FrontIs(queue.running);
    }
  }

  /** A packet, offered to the running queries in the order of the heap. */
  method Receive(queue: DeviceInterrogator, event: Event)
    requires queue.Valid() && event.Arrival?
    modifies queue
    ensures queue.Valid() && Step(old(queue.Now()), event, queue.Now())
  {
    ghost var s, order := queue.Now(), queue.running;
    queue.PacketReceived(event.answer, event.from);
    SameEmpty(queue.running);
    if queue.running != [] {
      FrontIs(queue.running);
    }
    assert queue.Books() == Heard(s.account, s.filters, order, event.answer, event.from);
  }

  lemma AskStep(s: State, running: seq<Entry<Query>>, event: Event, t: State)
    requires event.Ask? && multiset(running) == s.account.running
    requires t.account == Queued(s.account, event.maxTries, Asked(|s.account.tries|, event), event.sending)
    requires t.filters == s.filters + [event.filter]
    requires t.armed == if event.sending.Sends? && running == [] then Some(event.now + SECOND) else s.armed
    ensures Step(s, event, t)
  {
    SameEmpty(running);
  }

  /** A new query. */
  method Queue(queue: DeviceInterrogator, event: Event)
    requires queue.Valid() && event.Ask?
    modifies queue
    ensures queue.Valid() && Step(old(queue.Now()), event, queue.Now())
  {
    ghost var s, running, e := queue.Now(), queue.running, Asked(|queue.tries|, event);
    queue.QueueQuery(event.now, event.device, event.packet, event.filter, event.maxTries, event.sending);
    assert queue.Books() == Queued(s.account, event.maxTries, e, event.sending);
    AskStep(s, running, event, queue.Now());
  }

  method Handle(queue: DeviceInterrogator, event: Event)
    requires queue.Valid()
    modifies queue
    ensures queue.Valid() && Step(old(queue.Now()), event, queue.Now())
  {
    match event
    case Ask(_, _, _, _, _, _) =>
      Queue(queue, event);
    case Timer(_, aborted, sending) =>
      if aborted {
        queue.Timeout(aborted, sending);
      } else {
        Fire(queue, event);
      }
    case Arrival(_, _, _) =>
      Receive(queue, event);
  }

  /** The queue does what the model of its runs says, through all events. */
  method Run(events: seq<Event>) returns (queue: DeviceInterrogator, ghost states: seq<State>)
    ensures queue.Valid() && IsRun(events, states) && states[|events|] == queue.Now()
  {
    queue := new DeviceInterrogator();
    states := [START];
    for k := 0 to |events|
      invariant fresh(queue) && queue.Valid()
      invariant IsRun(events[..k], states) && states[k] == queue.Now()
    {
      Handle(queue, events[k]);
      RunLonger(events, k, states, queue.Now());
      states := states + [queue.Now()];
    }
    assert events[..|events|] == events;
  }

  lemma RunLonger(events: seq<Event>, k: nat, states: seq<State>, t: State)
    requires k < |events| && IsRun(events[..k], states) && Step(states[k], events[k], t)
    ensures IsRun(events[..k + 1], states + [t])
  {
    var longer := states + [t];
    forall j | 0 <= j < k + 1 ensures Step(longer[j], events[..k + 1][j], longer[j + 1]) {
      if j < k {
        assert events[..k][j] == events[..k + 1][j];
      }
    }
  }

  /** The first query, alone in the queue, after so many timeouts. */
  ghost predicate Alone(queue: DeviceInterrogator, maxTries: int, timeouts: nat)
    reads queue
  {
    if 1 <= maxTries <= timeouts then
      && queue.running == [] && queue.ended == [(0, NotResponding)] && Count(queue.sent, 0) == maxTries
    else
      && |queue.running| == 1 && queue.ended == [] && Count(queue.sent, 0) == 1 + timeouts
      && queue.running[0].value.id == 0 && queue.running[0].value.retries == timeouts
      && queue.running[0].value.maxRetries == maxTries - 1
  }

  lemma OneLeft<T>(s: seq<T>, e: T)
    requires multiset(s) == multiset{e}
    ensures s == [e]
  {
    assert |s| == |multiset(s)| == 1;
    assert s[0] in multiset(s);
  }

  method TimeoutAlone(queue: DeviceInterrogator, maxTries: int, timeouts: nat)
    requires queue.Valid() && Alone(queue, maxTries, timeouts)
    modifies queue
    ensures queue.Valid() && Alone(queue, maxTries, timeouts + 1)
  {
    ghost var before, sent := queue.running, queue.sent;
    queue.Timeout(false, Sends);
    if before != [] {
      assert before == [before[0]];
      assert multiset(before) - multiset{before[0]} == multiset{};
      CountMore(sent, 0, 0);
      if before[0].value.retries == before[0].value.maxRetries {
        assert |queue.running| == |multiset(queue.running)| == 0;
      } else {
        OneLeft(queue.running, Retried(before[0]));
      }
    }
  }

  /**
     A query nobody answers, with a line that works: it is sent `maxTries` times and then fails, if and only if
     `maxTries` is positive; else it is sent again at every timeout for ever.
   */
  method Unheard(now: int, device: Address, packet: Packet, filter: Filter, maxTries: int, timeouts: nat)
    returns (queue: DeviceInterrogator)
    ensures queue.Valid()
    ensures Count(queue.sent, 0) == if 1 <= maxTries <= timeouts then maxTries else 1 + timeouts
    ensures HasEnded(queue.ended, 0) <==> 1 <= maxTries <= timeouts
    ensures HasEnded(queue.ended, 0) ==> queue.ended == [(0, NotResponding)]
  {
    queue := new DeviceInterrogator();
    queue.QueueQuery(now, device, packet, filter, maxTries, Sends);
    CountMore([], 0, 0);
    OneLeft(queue.running, Entry(now + SECOND, Query(0, 0, maxTries - 1, device, packet)));
    for k := 0 to timeouts
      invariant fresh(queue) && queue.Valid()
      invariant Alone(queue, maxTries, k)
    {
      TimeoutAlone(queue, maxTries, k);
    }
  }

  /** With `maxTries` zero the query never fails, however often the timer expires. */
  method NoTries(now: int, device: Address, packet: Packet, filter: Filter, timeouts: nat)
    returns (queue: DeviceInterrogator)
    ensures queue.Valid() && Count(queue.sent, 0) == 1 + timeouts && !HasEnded(queue.ended, 0)
  {
    queue := Unheard(now, device, packet, filter, 0, timeouts);
  }

  lemma TwoLeft(queue: seq<Entry<Query>>, late: Entry<Query>, early: Entry<Query>)
    requires Heap(queue) && multiset(queue) == multiset{late, early} && early.deadline < late.deadline
    ensures |queue| == 2 && queue[0] == early
  {
    assert |queue| == |multiset(queue)| == 2;
    FrontIs(queue);
    assert early in multiset(queue);
  }

  lemma LateStates(late: Event, early: Event, states: seq<State>)
    requires late.Ask? && late.sending.Sends? && early.Ask? && early.sending.Sends? && IsRun([late, early], states)
    ensures states[2].armed == Some(Asked(0, late).deadline)
    ensures states[2].account.running == multiset{Asked(0, late), Asked(1, early)}
  {
    assert states[1].account.running == multiset{Asked(0, late)};
    assert states[1].account.tries == [late.maxTries];
  }

  /** When the clock is set back by more than a second between two queries, the timer comes too late for the second. */
  method ClockSetBack(device: Address, packet: Packet, filter: Filter)
    returns (queue: DeviceInterrogator, ghost states: seq<State>)
    ensures var late, early := Ask(2 * SECOND, device, packet, filter, 5, Sends),
      Ask(0, device, packet, filter, 5, Sends);
      IsRun([late, early], states) && states[2] == queue.Now() && queue.Valid()
    ensures |queue.running| == 2 && queue.running[0].deadline == SECOND && queue.armed == Some(3 * SECOND)
  {
    var late, early := Ask(2 * SECOND, device, packet, filter, 5, Sends), Ask(0, device, packet, filter, 5, Sends);
    queue, states := Run([late, early]);
    LateStates(late, early, states);
    TwoLeft(queue.running, Asked(0, late), Asked(1, early));
  }

  lemma EarlyStates(ask: Event, early: Event, states: seq<State>)
    requires ask.Ask? && ask.sending.Sends? && early == Timer(0, false, Sends) && ask.maxTries > 1
    requires IsRun([ask, early, ask], states)
    ensures var first, second := Asked(0, ask), Asked(1, ask);
      && states[3].armed == Some(Retried(first).deadline)
      && states[3].account.running == multiset{Retried(first), second}
  {
    var first := Asked(0, ask);
    assert states[1].account.running == multiset{first};
    assert Earliest(states[1].account.running, first);
    assert multiset{first} - multiset{first} == multiset{};
    assert states[2].account.running == multiset{Retried(first)};
    assert states[2].armed == Some(Retried(first).deadline);
  }

  /**
   A handler that is called early, as one that was waiting to be called when the timer was set again: the query is sent
   again before its second is over, and the timer then comes too late for the next one.
   */
  method CalledEarly(device: Address, packet: Packet, filter: Filter)
    returns (queue: DeviceInterrogator, ghost states: seq<State>)
    ensures var ask, early := Ask(0, device, packet, filter, 5, Sends), Timer(0, false, Sends);
      IsRun([ask, early, ask], states) && states[3] == queue.Now() && queue.Valid()
    ensures |queue.running| == 2 && queue.running[0].deadline == SECOND && queue.armed == Some(2 * SECOND)
  {
    var ask, early := Ask(0, device, packet, filter, 5, Sends), Timer(0, false, Sends);
    queue, states := Run([ask, early, ask]);
    EarlyStates(ask, early, states);
    TwoLeft(queue.running, Retried(Asked(0, ask)), Asked(1, ask));
  }
}
