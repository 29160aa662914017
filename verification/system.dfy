/**
 * Process-wide services shared by every window: the address book that maps
 * widget ids to their current address, the widget id counter, the timer
 * table, and error reporting. The address book is generic in the address
 * type, because the first generation stores index paths and the later ones
 * key paths.
 */
module System {
  import opened Wrappers
  import opened Address

  // ---------------------------------------------------------------- ids

  /** The `NEXT_ID` counter behind `RawWidgetId::new`; it starts at 1. */
  datatype IdCounter = IdCounter(next: nat)

  const InitialCounter := IdCounter(1)

  function NewId(c: IdCounter): (r: (WidgetId, IdCounter))
    ensures r.0 == c.next && r.1.next > r.0
  {
    (c.next, IdCounter(c.next + 1))
  }

  /** Allocating `n` ids in a row gives `n` strictly increasing ids, none reused later. */
  function NewIds(c: IdCounter, n: nat): (r: (seq<WidgetId>, IdCounter))
    ensures |r.0| == n
    ensures forall i, j :: 0 <= i < j < n ==> r.0[i] < r.0[j]
    ensures forall i :: 0 <= i < n ==> c.next <= r.0[i] < r.1.next
    ensures c.next <= r.1.next
    decreases n
  {
    if n == 0 then ([], c)
    else
      var (first, c1) := NewId(c);
      var (rest, c2) := NewIds(c1, n - 1);
      ([first] + rest, c2)
  }

  // ------------------------------------------------------- address book

  type AddressBook<A> = map<WidgetId, A>

  function LookupAddress<A>(book: AddressBook<A>, id: WidgetId): (r: Option<A>)
    ensures r.Some? <==> id in book
    ensures r.Some? ==> r.value == book[id]
  {
    if id in book then Some(book[id]) else None
  }

  /** `HashMap::insert`: the new address replaces any old one, which is returned. */
  function RegisterAddress<A>(book: AddressBook<A>, id: WidgetId, a: A): (r: (AddressBook<A>, Option<A>))
    ensures r.1 == LookupAddress(book, id)
    ensures LookupAddress(r.0, id) == Some(a)
    ensures forall other :: other != id ==> LookupAddress(r.0, other) == LookupAddress(book, other)
  {
    (book[id := a], LookupAddress(book, id))
  }

  /** `HashMap::remove`: the old address, if any, is returned. */
  function UnregisterAddress<A>(book: AddressBook<A>, id: WidgetId): (r: (AddressBook<A>, Option<A>))
    ensures r.1 == LookupAddress(book, id)
    ensures LookupAddress(r.0, id) == None
    ensures forall other :: other != id ==> LookupAddress(r.0, other) == LookupAddress(book, other)
  {
    (book - {id}, LookupAddress(book, id))
  }

  /** Registering an unknown id and unregistering it again leaves the book as it was. */
  lemma RegisterUnregisterRoundTrip<A>(book: AddressBook<A>, id: WidgetId, a: A)
    requires id !in book
    ensures UnregisterAddress(RegisterAddress(book, id, a).0, id) == (book, Some(a))
  {
    assert RegisterAddress(book, id, a).0 - {id} == book;
  }

  // ------------------------------------------------------------- timers

  type TimerId = nat

  /** A scheduled callback: when it first fires and, for an interval, its period. */
  datatype Timer = Timer(deadline: int, interval: Option<int>, callback: nat)

  /** The timer table; the table's own id allocation is taken to hand out fresh ids. */
  datatype Timers = Timers(entries: map<TimerId, Timer>, nextId: TimerId)

  predicate TimersValid(t: Timers) {
    forall id :: id in t.entries ==> id < t.nextId
  }

  /** `now` stands for `Instant::now()`; durations are whole clock ticks. */
  function AddTimerOrInterval(t: Timers, now: int, duration: nat, interval: Option<nat>, callback: nat)
    : (r: (Timers, TimerId))
    requires TimersValid(t)
    ensures TimersValid(r.0)
    ensures r.1 !in t.entries
    ensures r.0.entries == t.entries[r.1 := Timer(now + duration, if interval.Some? then Some(interval.value as int) else None, callback)]
  {
    var id := t.nextId;
    var iv := if interval.Some? then Some(interval.value as int) else None;
    (Timers(t.entries[id := Timer(now + duration, iv, callback)], id + 1), id)
  }

  function AddTimer(t: Timers, now: int, duration: nat, callback: nat): (r: (Timers, TimerId))
    requires TimersValid(t)
    ensures TimersValid(r.0) && r.1 !in t.entries && r.1 in r.0.entries
    ensures r.0.entries[r.1].interval.None? && r.0.entries[r.1].deadline == now + duration
  {
    AddTimerOrInterval(t, now, duration, None, callback)
  }

  /** An interval first fires one period from now and then repeats with that period. */
  function AddInterval(t: Timers, now: int, interval: nat, callback: nat): (r: (Timers, TimerId))
    requires TimersValid(t)
    ensures TimersValid(r.0) && r.1 !in t.entries && r.1 in r.0.entries
    ensures r.0.entries[r.1].interval == Some(interval as int)
    ensures r.0.entries[r.1].deadline == now + interval
  {
    AddTimerOrInterval(t, now, interval, Some(interval), callback)
  }

  function CancelTimer(t: Timers, id: TimerId): (r: Timers)
    ensures id !in r.entries
    ensures forall other :: other != id && other in t.entries ==> other in r.entries && r.entries[other] == t.entries[other]
  {
    Timers(t.entries - {id}, t.nextId)
  }

  // ------------------------------------------------------ error reports

  /** `or_report_err`: an error is logged (not modelled) and becomes `None`. */
  function OrReportErr<T, E>(r: Result<T, E>): (o: Option<T>)
    ensures o.Some? <==> r.Ok?
    ensures o.Some? ==> o.value == r.value
  {
    r.ToOption()
  }
}
