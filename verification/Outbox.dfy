/**
 * The store-and-forward queue: what is sent leaves it, what fails waits ever longer, and nothing
 * else disappears. Table rows are a map by identifier.
 */
module Outbox {
  import opened Text
  import Address

  /** One row; the sender and the flags are carried along with the content. */
  datatype Item = Item(receiver: string, content: string, retries: nat, nextRetry: real, createdAt: int)

  type Table = map<string, Item>

  datatype Settings = Settings(maxRetries: nat, ttl: int, self: Address.Config)

  /** 1.5 to the power k. */
  function Growth(k: nat): (g: real)
    ensures g >= 1.0
  {
    if k == 0 then 1.0 else Growth(k - 1) * 1.5
  }

  function Min(a: real, b: real): real {
    if a <= b then a else b
  }

  function Delay(retries: nat): real {
    Min(120000.0, 5000.0 * Growth(if retries <= 10 then retries else 10))
  }

  lemma {:induction false} GrowthMonotone(a: nat, b: nat)
    requires a <= b
    ensures Growth(a) <= Growth(b)
  {
    if a < b {
      GrowthMonotone(a, b - 1);
    }
  }

  lemma GrowthValues()
    ensures 5000.0 * Growth(7) < 120000.0 < 5000.0 * Growth(8)
  {
    assert Growth(2) == 2.25;
    assert Growth(4) == 5.0625;
    assert Growth(6) == 11.390625;
  }

  /** The waiting time never shrinks and reaches its limit of two minutes with the eighth failure;
      capping the exponent at ten changes nothing. */
  lemma DelayGrows(a: nat, b: nat)
    requires a <= b
    ensures 5000.0 <= Delay(a) <= Delay(b) <= 120000.0
    ensures Delay(a) == 120000.0 <==> a >= 8
    ensures Delay(a) == Min(120000.0, 5000.0 * Growth(a))
    ensures Delay(1) == 7500.0 && (a < 7 ==> Delay(a + 1) == 1.5 * Delay(a))
  {
    GrowthValues();
    GrowthMonotone(if a <= 10 then a else 10, if b <= 10 then b else 10);
    GrowthMonotone(if a <= 10 then a else 10, a);
    if a >= 8 {
      GrowthMonotone(8, if a <= 10 then a else 10);
    } else {
      GrowthMonotone(a, 7);
      GrowthMonotone(if a < 7 then a + 1 else a, 7);
    }
    assert Growth(1) == 1.5;
  }

  // ---------------------------------------------------------------- the steps on the table

  function Queued(receiver: string, content: string, createdAt: int, now: int): Item {
    Item(receiver, content, 0, (now + 5000) as real, if createdAt > 0 then createdAt else now)
  }

  function Failed(item: Item, now: int): Item {
    item.(retries := item.retries + 1, nextRetry := now as real + Delay(item.retries + 1))
  }

  predicate TooOld(item: Item, s: Settings, now: int) {
    item.retries >= s.maxRetries || item.createdAt < now - s.ttl
  }

  /** How a send ended: it resolved, be it with an answer or with none in time; it threw; or the sender
      knew no exit node and queued the payload anew. */
  datatype Outcome = Resolved | Threw | NoExit

  datatype Verdict = Removes | Fails | PutsBack

  /** What becomes of the row: the receiver decides whether and how a send is tried. */
  function Judge(self: Address.Config, receiver: string, outcome: Outcome): Verdict {
    match Address.Parse(self, receiver)
    case None => Removes
    case Some(target) =>
      match target.place
      case Global => Removes
      case Node(nodeId) =>
        if nodeId == "" then Removes
        else (match outcome case Resolved => Removes case Threw => Fails case NoExit => PutsBack)
      case Server(host, port, _) => if host == "" || port == 0 || outcome == Resolved then Removes else Fails
  }

  /** `Settle` is the end of an attempt for a row as it was read. */
  datatype Event =
    | Enqueue(id: string, receiver: string, content: string, createdAt: int, now: int)
    | Settle(id: string, receiver: string, content: string, outcome: Outcome, now: int)
    | Clean(now: int)
    | Reset(ids: set<string>)

  function VerdictOf(s: Settings, e: Event): Verdict
    requires e.Settle?
  {
    Judge(s.self, e.receiver, e.outcome)
  }

  function Fail(t: Table, s: Settings, id: string, now: int): Table {
    if id !in t then t
    else if t[id].retries + 1 >= s.maxRetries || now - t[id].createdAt > s.ttl then t - {id}
    else t[id := Failed(t[id], now)]
  }

  function Apply(t: Table, s: Settings, e: Event): Table {
    match e
    case Enqueue(id, receiver, content, createdAt, now) => t[id := Queued(receiver, content, createdAt, now)]
    case Settle(id, receiver, content, outcome, now) =>
      (match VerdictOf(s, e)
       case Removes => t - {id}
       case Fails => Fail(t, s, id, now)
       case PutsBack => Fail(t[id := Queued(receiver, content, 0, now)], s, id, now))
    case Clean(now) => map id | id in t && !TooOld(t[id], s, now) :: t[id]
    case Reset(ids) => map id | id in t :: if id in ids then t[id].(retries := 0, nextRetry := 0.0) else t[id]
  }

  /** The table after a run from an empty one. */
  function Run(s: Settings, events: seq<Event>): Table {
    if events == [] then map[] else Apply(Run(s, events[..|events| - 1]), s, events[|events| - 1])
  }

  // ---------------------------------------------------------------- what the history says

  datatype Body = Body(receiver: string, content: string)

  /** The message last queued under an identifier. */
  function Message(events: seq<Event>, id: string): Option<Body> {
    if events == [] then None
    else
      var e := events[|events| - 1];
      if e.Enqueue? && e.id == id then Some(Body(e.receiver, e.content)) else Message(events[..|events| - 1], id)
  }

  /** Attempts are made with what was read from the row: an identifier names one message. */
  ghost predicate Genuine(events: seq<Event>) {
    events != [] ==>
      var e, before := events[|events| - 1], events[..|events| - 1];
      Genuine(before) && (e.Settle? ==> Message(before, e.id) == Some(Body(e.receiver, e.content)))
  }

  /** The receiver is no address, or one no send can be tried to. */
  predicate Unusable(self: Address.Config, receiver: string) {
    match Address.Parse(self, receiver)
    case None => true
    case Some(target) =>
      match target.place
      case Global => true
      case Node(nodeId) => nodeId == ""
      case Server(host, port, _) => host == "" || port == 0
  }

  predicate AtNode(self: Address.Config, receiver: string) {
    var target := Address.Parse(self, receiver);
    target.Some? && target.value.place.Node?
  }

  /** A send was tried and did not resolve. */
  predicate IsFailure(s: Settings, e: Event, id: string) {
    e.Settle? && e.id == id && !Unusable(s.self, e.receiver)
    && (e.outcome == Threw || (e.outcome == NoExit && !AtNode(s.self, e.receiver)))
  }

  /** Only a send to a node looks for an exit. */
  predicate IsPutBack(s: Settings, e: Event, id: string) {
    e.Settle? && e.id == id && !Unusable(s.self, e.receiver) && e.outcome == NoExit && AtNode(s.self, e.receiver)
  }

  lemma VerdictSays(s: Settings, e: Event)
    requires e.Settle?
    ensures VerdictOf(s, e) == Removes <==> Unusable(s.self, e.receiver) || e.outcome == Resolved
    ensures VerdictOf(s, e) == Fails <==> IsFailure(s, e, e.id)
    ensures VerdictOf(s, e) == PutsBack <==> IsPutBack(s, e, e.id)
  {
  }

  /** The row's counter starts anew. */
  predicate Restarts(s: Settings, e: Event, id: string) {
    (e.Enqueue? && e.id == id) || (e.Reset? && id in e.ids) || IsPutBack(s, e, id)
  }

  /** The events behind the last restart. */
  function Since(s: Settings, events: seq<Event>, id: string): seq<Event> {
    if events == [] || Restarts(s, events[|events| - 1], id) then []
    else Since(s, events[..|events| - 1], id) + [events[|events| - 1]]
  }

  function Failures(s: Settings, events: seq<Event>, id: string): nat {
    if events == [] then 0
    else
      Failures(s, events[..|events| - 1], id) + if IsFailure(s, events[|events| - 1], id) then 1 else 0
  }

  /** The last restart was a putting back, which counts as a failed try itself. */
  predicate PutBackLast(s: Settings, events: seq<Event>, id: string) {
    events != [] &&
    var e := events[|events| - 1];
    if Restarts(s, e, id) then IsPutBack(s, e, id) else PutBackLast(s, events[..|events| - 1], id)
  }

  /** Failures since the last queueing or reset, or one more than those since the last putting back. */
  function Tries(s: Settings, events: seq<Event>, id: string): nat {
    Failures(s, Since(s, events, id), id) + if PutBackLast(s, events, id) then 1 else 0
  }

  /** The creation time written last. */
  function Created(s: Settings, events: seq<Event>, id: string): int {
    if events == [] then 0
    else
      var e := events[|events| - 1];
      if e.Enqueue? && e.id == id then (if e.createdAt > 0 then e.createdAt else e.now)
      else if IsPutBack(s, e, id) then e.now
      else Created(s, events[..|events| - 1], id)
  }

  /** When the next try is due. */
  function Due(s: Settings, events: seq<Event>, id: string): real {
    if events == [] then 0.0
    else
      var e := events[|events| - 1];
      if e.Enqueue? && e.id == id then (e.now + 5000) as real
      else if e.Reset? && id in e.ids then 0.0
      else if IsFailure(s, e, id) || IsPutBack(s, e, id) then e.now as real + Delay(Tries(s, events, id))
      else Due(s, events[..|events| - 1], id)
  }

  lemma TriesStep(s: Settings, events: seq<Event>, e: Event, id: string)
    ensures Tries(s, events + [e], id) ==
            if IsPutBack(s, e, id) then 1
            else if Restarts(s, e, id) then 0
            else Tries(s, events, id) + if IsFailure(s, e, id) then 1 else 0
  {
    hide IsFailure, Unusable;
    var all, since := events + [e], Since(s, events, id);
    assert all[..|events|] == events;
    if !Restarts(s, e, id) {
      assert Since(s, all, id) == since + [e];
      assert (since + [e])[..|since|] == since;
    }
  }

  function RowOf(t: Table, id: string): Option<Item> {
    if id in t then Some(t[id]) else None
  }

  /** What a failure makes of a row, if it leaves one. */
  function AfterFailure(s: Settings, row: Item, now: int): Option<Item> {
    if row.retries + 1 >= s.maxRetries || now - row.createdAt > s.ttl then None else Some(Failed(row, now))
  }

  /** What an event makes of one row: only what its own identifier calls for. */
  function RowAfter(s: Settings, e: Event, id: string, row: Option<Item>): Option<Item> {
    match e
    case Enqueue(other, receiver, content, createdAt, now) =>
      if other == id then Some(Queued(receiver, content, createdAt, now)) else row
    case Settle(other, receiver, content, _, now) =>
      if other != id then row
      else (match VerdictOf(s, e)
            case Removes => None
            case Fails => if row.Some? then AfterFailure(s, row.value, now) else None
            case PutsBack => AfterFailure(s, Queued(receiver, content, 0, now), now))
    case Clean(now) => if row.Some? && TooOld(row.value, s, now) then None else row
    case Reset(ids) =>
      if row.Some? && id in ids then Some(row.value.(retries := 0, nextRetry := 0.0)) else row
  }

  lemma RowStep(t: Table, s: Settings, e: Event, id: string)
    ensures RowOf(Apply(t, s, e), id) == RowAfter(s, e, id, RowOf(t, id))
  {
    hide Judge, Delay;
  }

  /** The row is what a history says of its identifier. */
  predicate Told(s: Settings, events: seq<Event>, id: string, row: Item) {
    && Some(Body(row.receiver, row.content)) == Message(events, id)
    && row.retries == Tries(s, events, id)
    && row.createdAt == Created(s, events, id)
    && row.nextRetry == Due(s, events, id)
    && (row.retries > 0 ==> row.retries < s.maxRetries)
  }

  /** What the history says after one event more. */
  lemma HistoryStep(s: Settings, before: seq<Event>, e: Event, id: string)
    ensures var events := before + [e];
            && Message(events, id) ==
               (if e.Enqueue? && e.id == id then Some(Body(e.receiver, e.content)) else Message(before, id))
            && Created(s, events, id) ==
               (if e.Enqueue? && e.id == id then (if e.createdAt > 0 then e.createdAt else e.now)
                else if IsPutBack(s, e, id) then e.now
                else Created(s, before, id))
            && Due(s, events, id) ==
               (if e.Enqueue? && e.id == id then (e.now + 5000) as real
                else if e.Reset? && id in e.ids then 0.0
                else if IsFailure(s, e, id) || IsPutBack(s, e, id) then e.now as real + Delay(Tries(s, events, id))
                else Due(s, before, id))
  {
    hide Unusable, AtNode, Delay, Tries;
    assert (before + [e])[..|before|] == before;
  }

  lemma SettleTold(s: Settings, before: seq<Event>, e: Event, id: string, row: Option<Item>)
    requires e.Settle? && e.id == id && Message(before, id) == Some(Body(e.receiver, e.content))
    requires row.Some? ==> Told(s, before, id, row.value)
    ensures var next := RowAfter(s, e, id, row); next.Some? ==> Told(s, before + [e], id, next.value)
  {
    HistoryStep(s, before, e, id);
    TriesStep(s, before, e, id);
    VerdictSays(s, e);
    hide Judge, Unusable, AtNode, Delay, Tries, Message, Created, Due;
  }

  lemma OtherTold(s: Settings, before: seq<Event>, e: Event, id: string, row: Option<Item>)
    requires !e.Settle? || e.id != id
    requires row.Some? ==> Told(s, before, id, row.value)
    ensures var next := RowAfter(s, e, id, row); next.Some? ==> Told(s, before + [e], id, next.value)
  {
    HistoryStep(s, before, e, id);
    TriesStep(s, before, e, id);
    hide Judge, Unusable, AtNode, Delay, Tries, Message, Created, Due;
  }

  /** In every run: a row that is there holds the message queued under its identifier, has been tried as
      often as its history says, fewer times than allowed, and is as old and due as it says. */
  lemma {:induction false} RowHistory(s: Settings, events: seq<Event>, id: string)
    requires Genuine(events) && id in Run(s, events)
    ensures Told(s, events, id, Run(s, events)[id])
  {
    hide Delay, Judge, Tries, Apply, Told, RowAfter, Message;
    assert events != [];
    var n := |events| - 1;
    var before, e := events[..n], events[n];
    assert events == before + [e];
    RowStep(Run(s, before), s, e, id);
    if id in Run(s, before) {
      RowHistory(s, before, id);
    }
    if e.Settle? && e.id == id {
      SettleTold(s, before, e, id, RowOf(Run(s, before), id));
    } else {
      OtherTold(s, before, e, id, RowOf(Run(s, before), id));
    }
  }

  // ---------------------------------------------------------------- leaving the queue

  /** Why a row leaves, by its history: it was sent, its receiver is unusable, or its tries or its age ran
      out. What is put back leaves at once only under settings that allow no retry. */
  predicate Leaves(s: Settings, events: seq<Event>, e: Event, id: string) {
    match e
    case Enqueue(_, _, _, _, _) => false
    case Reset(_) => false
    case Settle(settled, receiver, _, outcome, now) =>
      && settled == id
      && (|| Unusable(s.self, receiver)
          || outcome == Resolved
          || (if outcome == NoExit && AtNode(s.self, receiver) then s.maxRetries <= 1 || s.ttl < 0
              else Tries(s, events, id) + 1 >= s.maxRetries || now - Created(s, events, id) > s.ttl))
    case Clean(now) => Tries(s, events, id) >= s.maxRetries || Created(s, events, id) < now - s.ttl
  }

  /** A row leaves at an event if and only if its history says so. */
  lemma LeavesExactly(s: Settings, events: seq<Event>, e: Event, id: string)
    requires Genuine(events) && id in Run(s, events)
    ensures id !in Run(s, events + [e]) <==> Leaves(s, events, e, id)
  {
    hide Delay, Judge, Unusable, AtNode, Tries, Apply;
    RowHistory(s, events, id);
    if e.Settle? {
      VerdictSays(s, e);
    }
    RowStep(Run(s, events), s, e, id);
    assert (events + [e])[..|events|] == events;
  }

  /** By tries alone: it leaves with the failure that makes the count reach the maximum, and with no
      earlier one as long as it is young. */
  lemma LeavesByTries(s: Settings, events: seq<Event>, e: Event, id: string)
    requires Genuine(events) && id in Run(s, events)
    requires IsFailure(s, e, id) && e.now - Created(s, events, id) <= s.ttl
    ensures id !in Run(s, events + [e]) <==> Tries(s, events + [e], id) >= s.maxRetries
  {
    hide Delay, Unusable, AtNode;
    LeavesExactly(s, events, e, id);
    TriesStep(s, events, e, id);
  }

  function Enqueued(events: seq<Event>): set<string> {
    if events == [] then {}
    else
      var e := events[|events| - 1];
      Enqueued(events[..|events| - 1]) + if e.Enqueue? then {e.id} else {}
  }

  ghost predicate Departed(s: Settings, events: seq<Event>, id: string) {
    exists i :: 0 <= i < |events| && Leaves(s, events[..i], events[i], id)
  }

  /** In every run whatever was queued is still there, with the receiver and content it was queued with,
      or left for one of the reasons; nothing else is ever there. */
  lemma {:induction false} NothingIsLost(s: Settings, events: seq<Event>)
    requires Genuine(events)
    ensures forall id <- Enqueued(events) :: id in Run(s, events) || Departed(s, events, id)
    ensures forall id <- Run(s, events) ::
              id in Enqueued(events)
              && Some(Body(Run(s, events)[id].receiver, Run(s, events)[id].content)) == Message(events, id)
  {
    hide Leaves, Judge, Delay, Tries;
    if events != [] {
      var n := |events| - 1;
      var before, e := events[..n], events[n];
      assert before + [e] == events;
      NothingIsLost(s, before);
      forall id <- Enqueued(events) | id !in Run(s, events) ensures Departed(s, events, id) {
        DepartsOrStays(s, before, e, id);
      }
      forall id <- Run(s, events)
        ensures id in Enqueued(events)
                && Some(Body(Run(s, events)[id].receiver, Run(s, events)[id].content)) == Message(events, id)
      {
        RowHistory(s, events, id);
        MessageQueued(events, id);
      }
    }
  }

  lemma {:induction false} MessageQueued(events: seq<Event>, id: string)
    ensures Message(events, id).Some? <==> id in Enqueued(events)
  {
    if events != [] {
      MessageQueued(events[..|events| - 1], id);
    }
  }

  lemma DepartsOrStays(s: Settings, before: seq<Event>, e: Event, id: string)
    requires Genuine(before + [e]) && id !in Run(s, before + [e])
    requires id in Enqueued(before + [e])
    requires id in Enqueued(before) ==> id in Run(s, before) || Departed(s, before, id)
    ensures Departed(s, before + [e], id)
  {
    hide Leaves, Judge, Delay, Tries;
    var events, n := before + [e], |before|;
    assert events[..n] == before && events[n] == e;
    if id in Run(s, before) {
      LeavesExactly(s, before, e, id);
    } else if id in Enqueued(before) {
      var i :| 0 <= i < n && Leaves(s, before[..i], before[i], id);
      assert events[..i] == before[..i] && events[i] == before[i];
    }
  }

  // ---------------------------------------------------------------- consequences

  /** Events that leave the item's own counter alone, but for failures. */
  predicate Plain(s: Settings, e: Event, id: string) {
    !Restarts(s, e, id)
  }

  /** After an item was queued, with no reset and no putting back: if it is still there after k
      failures, its counter is k, below the maximum. */
  lemma FailuresCounted(s: Settings, before: seq<Event>, start: Event, events: seq<Event>)
    requires start.Enqueue? && forall e <- events :: Plain(s, e, start.id)
    requires Genuine(before + [start] + events) && s.maxRetries > 0
    ensures var run, k := before + [start] + events, Failures(s, events, start.id);
            start.id in Run(s, run) ==>
              && Run(s, run)[start.id].retries == k < s.maxRetries
              && Run(s, run)[start.id].createdAt == if start.createdAt > 0 then start.createdAt else start.now
  {
    var run := before + [start] + events;
    PlainTail(s, before, start, events);
    if start.id in Run(s, run) {
      RowHistory(s, run, start.id);
    }
  }

  lemma {:induction false} PlainTail(s: Settings, before: seq<Event>, start: Event, events: seq<Event>)
    requires start.Enqueue? && forall e <- events :: Plain(s, e, start.id)
    ensures var run := before + [start] + events;
            && Tries(s, run, start.id) == Failures(s, events, start.id)
            && Created(s, run, start.id) == if start.createdAt > 0 then start.createdAt else start.now
  {
    hide Unusable, AtNode, IsFailure;
    var run := before + [start] + events;
    if events == [] {
      assert run == before + [start];
      TriesStep(s, before, start, start.id);
    } else {
      var less, e := events[..|events| - 1], events[|events| - 1];
      assert e in events && forall x <- less :: x in events;
      PlainTail(s, before, start, less);
      assert run == (before + [start] + less) + [e] && run[..|run| - 1] == before + [start] + less;
      TriesStep(s, before + [start] + less, e, start.id);
    }
  }

  /** In every run a row is gone once its tries have reached the maximum. */
  lemma GoneAfterMaxRetries(s: Settings, events: seq<Event>, id: string)
    requires Genuine(events) && Tries(s, events, id) >= s.maxRetries > 0
    ensures id !in Run(s, events)
  {
    if id in Run(s, events) {
      RowHistory(s, events, id);
    }
  }

  /** Whatever came before, a row put back starts afresh with one try and a new creation time, and stays
      if and only if the settings allow a retry at all: as long as attempts end so it never expires. */
  lemma PutBackForEver(s: Settings, events: seq<Event>, e: Event, id: string)
    requires Genuine(events + [e]) && IsPutBack(s, e, id)
    ensures id in Run(s, events + [e]) <==> s.maxRetries > 1 && s.ttl >= 0
    ensures Tries(s, events + [e], id) == 1 && Created(s, events + [e], id) == e.now
  {
    hide Judge, Unusable, AtNode, Delay;
    VerdictSays(s, e);
    assert (events + [e])[..|events|] == events;
    TriesStep(s, events, e, id);
  }

  // ---------------------------------------------------------------- the store

  /** A row as read for an attempt. */
  datatype Pending = Pending(id: string, receiver: string, content: string)

  /** The clean-up before reading, if it is time for one. */
  function Cleaning(last: int, now: int): seq<Event> {
    if last == 0 || now - last >= 5000 then [Clean(now)] else []
  }

  function Eligible(t: Table, forceAll: bool, now: int): set<string> {
    set id | id in t && (forceAll || t[id].nextRetry <= now as real)
  }

  predicate IsRead(p: Pending, t: Table) {
    p.id in t && p.receiver == t[p.id].receiver && p.content == t[p.id].content
  }

  /** Rows of the table that are due, each once, all of them if there are no more than fifty. */
  ghost predicate IsReading(pending: seq<Pending>, t: Table, forceAll: bool, now: int) {
    var due := Eligible(t, forceAll, now);
    && |pending| == (if |due| <= 50 then |due| else 50)
    && (forall p <- pending :: IsRead(p, t) && p.id in due)
    && (forall i, j :: 0 <= i < j < |pending| ==> pending[i].id != pending[j].id)
  }

  ghost predicate Readable(pending: seq<Pending>, events: seq<Event>) {
    forall p <- pending :: Message(events, p.id) == Some(Body(p.receiver, p.content))
  }

  predicate Contains(pending: seq<Pending>, id: string) {
    exists i :: 0 <= i < |pending| && pending[i].id == id
  }

  lemma ContainsSnoc(pending: seq<Pending>, p: Pending, id: string)
    ensures Contains(pending + [p], id) <==> Contains(pending, id) || p.id == id
  {
    var all := pending + [p];
    assert all[|pending|] == p;
    if i :| 0 <= i < |pending| && pending[i].id == id {
      assert all[i].id == id;
    }
  }

  class OutboxStore {
    const settings: Settings
    var outbox: Table
    /** When reading last cleaned up; 0 is never. */
    var lastOutboxClean: int
    /** Everything that happened to the table. */
    ghost var events: seq<Event>

    ghost predicate Valid()
      reads this
    {
      Genuine(events) && outbox == Run(settings, events)
    }

    constructor (settings: Settings)
      ensures Valid() && this.settings == settings && outbox == map[] && events == [] && lastOutboxClean == 0
    {
      this.settings, outbox, lastOutboxClean, events := settings, map[], 0, [];
    }

    ghost method Record(e: Event)
      requires Genuine(events + [e]) && outbox == Apply(Run(settings, events), settings, e)
      modifies this`events
      ensures Valid() && events == old(events) + [e]
    {
      assert (events + [e])[..|events|] == events;
      events := events + [e];
    }

    method QueueOutbox(id: string, receiver: string, content: string, createdAt: int, now: int)
      requires Valid()
      modifies this
      ensures Valid() && events == old(events) + [Enqueue(id, receiver, content, createdAt, now)]
    {
      WriteRow(id, receiver, content, createdAt, now);
      GenuineSnoc(events, Enqueue(id, receiver, content, createdAt, now));
      Record(Enqueue(id, receiver, content, createdAt, now));
    }

    /** Inserts the row, or replaces the one of that identifier. */
    method WriteRow(id: string, receiver: string, content: string, createdAt: int, now: int)
      modifies this`outbox
      ensures outbox == old(outbox)[id := Queued(receiver, content, createdAt, now)]
    {
      var nextRetry := now + 5000;
      var created := if createdAt > 0 then createdAt else now;
      outbox := outbox[id := Item(receiver, content, 0, nextRetry as real, created)];
    }

    method RemoveOutbox(id: string)
      modifies this`outbox
      ensures outbox == old(outbox) - {id}
    {
      outbox := outbox - {id};
    }

    method UpdateOutboxRetry(id: string, now: int)
      modifies this`outbox
      ensures outbox == Fail(old(outbox), settings, id, now)
    {
      if id in outbox {
        var row := outbox[id];
        var nextRetries := row.retries + 1;
        var isExpired := now - row.createdAt > settings.ttl;
        if nextRetries >= settings.maxRetries || isExpired {
          RemoveOutbox(id);
          return;
        }
        var delay := Delay(nextRetries);
        outbox := outbox[id := row.(retries := nextRetries, nextRetry := now as real + delay)];
      }
    }

    method CleanExpiredOutbox(now: int)
      requires Valid()
      modifies this`outbox, this`events
      ensures Valid() && events == old(events) + [Clean(now)]
    {
      var cutoff := now - settings.ttl;
      outbox := map id | id in outbox && outbox[id].retries < settings.maxRetries :: outbox[id];
      outbox := map id | id in outbox && outbox[id].createdAt >= cutoff :: outbox[id];
      GenuineSnoc(events, Clean(now));
      Record(Clean(now));
    }

    method ResetOutboxForTarget(ids: set<string>)
      requires Valid()
      modifies this
      ensures Valid() && events == old(events) + [Reset(ids)]
    {
      outbox := map id | id in outbox :: if id in ids then outbox[id].(retries := 0, nextRetry := 0.0) else outbox[id];
      GenuineSnoc(events, Reset(ids));
      Record(Reset(ids));
    }

    /** Reads rows for an attempt, after a clean-up unless the last reading less than five seconds ago
        did one: those due, or all of them, but no more than fifty. */
    method GetPendingOutbox(forceAll: bool, now: int) returns (pending: seq<Pending>)
      requires Valid()
      modifies this
      ensures Valid() && events == old(events) + Cleaning(old(lastOutboxClean), now)
      ensures lastOutboxClean == if Cleaning(old(lastOutboxClean), now) == [] then old(lastOutboxClean) else now
      ensures IsReading(pending, outbox, forceAll, now)
      ensures Readable(pending, events)
      ensures forall p <- pending :: p.id in outbox && (forceAll || outbox[p.id].nextRetry <= now as real)
      ensures |pending| < 50 ==> forall id <- outbox | forceAll || outbox[id].nextRetry <= now as real :: Contains(pending, id)
      ensures (exists e :: events == old(events) + [e] && e == Clean(now)) <==>
              old(lastOutboxClean) == 0 || now - old(lastOutboxClean) >= 5000
    {
      hide Genuine, Message, Run;
      if lastOutboxClean == 0 || now - lastOutboxClean >= 5000 {
        lastOutboxClean := now;
        CleanExpiredOutbox(now);
      }
      var ids := Eligible(outbox, forceAll, now);
      pending := [];
      while ids != {} && |pending| < 50
        invariant |pending| <= 50 && ids <= Eligible(outbox, forceAll, now)
        invariant |pending| + |ids| == |Eligible(outbox, forceAll, now)|
        invariant forall p <- pending :: IsRead(p, outbox) && p.id in Eligible(outbox, forceAll, now) && p.id !in ids
        invariant forall id <- Eligible(outbox, forceAll, now) - ids :: Contains(pending, id)
        invariant forall i, j :: 0 <= i < j < |pending| ==> pending[i].id != pending[j].id
        decreases ids
      {
        var id :| id in ids;
        ids := ids - {id};
        ghost var before := pending;
        pending := pending + [Pending(id, outbox[id].receiver, outbox[id].content)];
        forall other <- Eligible(outbox, forceAll, now) - ids ensures Contains(pending, other) {
          ContainsSnoc(before, pending[|before|], other);
        }
      }
      forall p <- pending ensures Message(events, p.id) == Some(Body(p.receiver, p.content)) {
        RowsAreGenuine(settings, events, p.id);
      }
    }

    /** One whole pass: it reads rows and settles each; `outcomes` is how each send ends, if one is tried,
        and `times` when. */
    method ProcessOutbox(forceAll: bool, now: int, outcomes: seq<Outcome>, times: seq<int>) returns (pending: seq<Pending>)
      requires Valid() && |outcomes| == |times| == 50
      modifies this
      ensures Valid() && |pending| <= 50
      ensures events == old(events) + Cleaning(old(lastOutboxClean), now)
                        + Attempts(pending, outcomes[..|pending|], times[..|pending|])
      ensures IsReading(pending, Run(settings, old(events) + Cleaning(old(lastOutboxClean), now)), forceAll, now)
    {
      hide Genuine, Message, Run, Attempts;
      pending := GetPendingOutbox(forceAll, now);
      SettleAll(pending, outcomes[..|pending|], times[..|pending|]);
    }

    /** The rows read, one after the other. */
    method SettleAll(pending: seq<Pending>, outcomes: seq<Outcome>, times: seq<int>)
      requires Valid() && |pending| == |outcomes| == |times|
      requires Readable(pending, events)
      modifies this`outbox, this`events
      ensures Valid() && events == old(events) + Attempts(pending, outcomes, times)
    {
      hide Genuine, Message, Attempts, Run;
      ghost var start := events;
      var i := 0;
      NoAttempts(pending, outcomes, times);
      assert start + [] == start;
      while i < |pending|
        invariant i <= |pending| && Valid()
        invariant events == start + Attempts(pending[..i], outcomes[..i], times[..i])
      {
        ghost var soFar := Attempts(pending[..i], outcomes[..i], times[..i]);
        var p, outcome, now := pending[i], outcomes[i], times[i];
        ghost var e := Settle(p.id, p.receiver, p.content, outcome, now);
        assert p in pending;
        OnlyAttempts(pending[..i], outcomes[..i], times[..i]);
        AttemptsKeep(start, soFar, p.id);
        AttemptsSnoc(pending, outcomes, times, i);
        Attempt(p, outcome, now);
        assert (start + soFar) + [e] == start + (soFar + [e]);
        i := i + 1;
      }
      assert pending[..i] == pending && outcomes[..i] == outcomes && times[..i] == times;
    }

    method Attempt(p: Pending, outcome: Outcome, now: int)
      requires Valid() && Message(events, p.id) == Some(Body(p.receiver, p.content))
      modifies this`outbox, this`events
      ensures Valid() && events == old(events) + [Settle(p.id, p.receiver, p.content, outcome, now)]
    {
      ghost var e := Settle(p.id, p.receiver, p.content, outcome, now);
      GenuineSnoc(events, e);
      hide Run, Fail, Genuine;
      var target := Address.Parse(settings.self, p.receiver);
      if target.None? {
        RemoveOutbox(p.id);
      } else if target.value.place.Node? && target.value.place.nodeId != "" {
        match outcome {
          case Resolved => RemoveOutbox(p.id);
          case Threw => UpdateOutboxRetry(p.id, now);
          case NoExit =>
            WriteRow(p.id, p.receiver, p.content, 0, now);
            UpdateOutboxRetry(p.id, now);
        }
      } else if !target.value.place.Server? || target.value.place.host == "" || target.value.place.port == 0 {
        RemoveOutbox(p.id);
      } else if outcome == Resolved {
        RemoveOutbox(p.id);
      } else {
        UpdateOutboxRetry(p.id, now);
      }
      Record(e);
    }
  }

  lemma GenuineSnoc(events: seq<Event>, e: Event)
    requires Genuine(events) && (e.Settle? ==> Message(events, e.id) == Some(Body(e.receiver, e.content)))
    ensures Genuine(events + [e])
  {
    assert (events + [e])[..|events|] == events;
  }

  /** A row in the table is read with the message queued. */
  lemma RowsAreGenuine(s: Settings, events: seq<Event>, id: string)
    requires Genuine(events) && id in Run(s, events)
    ensures Message(events, id) == Some(Body(Run(s, events)[id].receiver, Run(s, events)[id].content))
  {
    RowHistory(s, events, id);
  }

  function Attempts(pending: seq<Pending>, outcomes: seq<Outcome>, times: seq<int>): seq<Event>
    requires |pending| == |outcomes| == |times|
  {
    seq(|pending|, i requires 0 <= i < |pending| =>
      Settle(pending[i].id, pending[i].receiver, pending[i].content, outcomes[i], times[i]))
  }

  lemma NoAttempts(pending: seq<Pending>, outcomes: seq<Outcome>, times: seq<int>)
    requires |pending| == |outcomes| == |times|
    ensures Attempts(pending[..0], outcomes[..0], times[..0]) == []
  {
  }

  lemma OnlyAttempts(pending: seq<Pending>, outcomes: seq<Outcome>, times: seq<int>)
    requires |pending| == |outcomes| == |times|
    ensures forall e <- Attempts(pending, outcomes, times) :: e.Settle?
  {
  }

  lemma {:induction false} AttemptsKeep(events: seq<Event>, attempts: seq<Event>, id: string)
    requires forall e <- attempts :: e.Settle?
    ensures Message(events + attempts, id) == Message(events, id)
  {
    var all := events + attempts;
    if attempts == [] {
      assert all == events;
    } else {
      var less := attempts[..|attempts| - 1];
      assert attempts[|attempts| - 1] in attempts && forall e <- less :: e in attempts;
      assert all[..|all| - 1] == events + less;
      AttemptsKeep(events, less, id);
    }
  }

  lemma AttemptsSnoc(pending: seq<Pending>, outcomes: seq<Outcome>, times: seq<int>, i: nat)
    requires |pending| == |outcomes| == |times| && i < |pending|
    ensures Attempts(pending[..i + 1], outcomes[..i + 1], times[..i + 1])
         == Attempts(pending[..i], outcomes[..i], times[..i])
            + [Settle(pending[i].id, pending[i].receiver, pending[i].content, outcomes[i], times[i])]
  {
  }
}
