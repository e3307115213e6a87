/**
 The timers of an instance: an intrusive doubly linked list that is kept sorted by fire date.
 */
module TimerQueue {
  import opened TimeVal

  const MAX_TIMEOUT: cms := 30000

  class Timer {
    var next: Timer?
    var prev: Timer?
    var fireDate: Timeval
    var cancel: bool

    constructor (hasCancel: bool)
      ensures next == prev == null && cancel == hasCancel
    {
      next, prev := null, null;
      fireDate := Timeval(0, 0);
      cancel := hasCancel;
    }
  }

  // ----- the links

  ghost predicate Distinct(s: seq<Timer>) {
    forall i, j | 0 <= i < j < |s| :: s[i] != s[j]
  }

  ghost predicate PrevOk(s: seq<Timer>, i: nat)
    requires i < |s|
    reads s`next, s`prev
  {
    s[i].prev == if i == 0 then null else s[i - 1]
  }

  ghost predicate NextOk(s: seq<Timer>, i: nat)
    requires i < |s|
    reads s`next, s`prev
  {
    s[i].next == if i == |s| - 1 then null else s[i + 1]
  }

  ghost predicate LinkedAt(s: seq<Timer>, i: nat)
    requires i < |s|
    reads s`next, s`prev
  {
    PrevOk(s, i) && NextOk(s, i)
  }

  ghost predicate Chain(s: seq<Timer>)
    reads s`next, s`prev
  {
    Distinct(s) && forall i | 0 <= i < |s| :: LinkedAt(s, i)
  }

  ghost predicate Alone(t: Timer)
    reads t`next, t`prev
  {
    t.next == null && t.prev == null
  }

  ghost function With(s: seq<Timer>, k: nat, t: Timer): seq<Timer>
    requires k <= |s|
  {
    s[..k] + [t] + s[k..]
  }

  ghost function Without(s: seq<Timer>, k: nat): seq<Timer>
    requires k < |s|
  {
    s[..k] + s[k + 1..]
  }

  function AsSet(t: Timer?): set<Timer> {
    if t == null then {} else {t}
  }

  /** `item` has been put between positions k - 1 and k of a chain `s` whose other links are `prev` and `next`. */
  ghost predicate Spliced(s: seq<Timer>, k: nat, item: Timer)
    requires k <= |s|
    reads s`next, s`prev, item`next, item`prev
  {
    && item.prev == (if k == 0 then null else s[k - 1])
    && item.next == (if k == |s| then null else s[k])
    && (k > 0 ==> s[k - 1].next == item)
    && (k < |s| ==> s[k].prev == item)
    && (forall i | 0 <= i < |s| && i != k :: PrevOk(s, i))
    && (forall i | 0 <= i < |s| && i != k - 1 :: NextOk(s, i))
  }

  lemma WithAt(s: seq<Timer>, k: nat, t: Timer, i: nat)
    requires k <= |s| && i <= |s|
    ensures With(s, k, t)[i] == if i < k then s[i] else if i == k then t else s[i - 1]
  {
  }

  lemma SplicedIsChain(s: seq<Timer>, k: nat, item: Timer)
    requires Distinct(s) && item !in s && k <= |s|
    requires Spliced(s, k, item)
    ensures Chain(With(s, k, item))
  {
    var w := With(s, k, item);
    forall i | 0 <= i < |w|
      ensures LinkedAt(w, i)
    {
      WithAt(s, k, item, i);
      if i > 0 { WithAt(s, k, item, i - 1); }
      if i < |w| - 1 { WithAt(s, k, item, i + 1); }
      if i < k {
        assert PrevOk(s, i) && (i == k - 1 || NextOk(s, i));
      } else if i > k {
        assert NextOk(s, i - 1) && (i == k + 1 || PrevOk(s, i - 1));
      }
    }
  }

  /** Puts `item` behind `where`. */
  method InsertAfter(where: Timer, item: Timer, ghost s: seq<Timer>, ghost k: nat)
    requires Chain(s) && k < |s| && s[k] == where && item !in s
    modifies where`next, AsSet(where.next)`prev, item`next, item`prev
    ensures Chain(With(s, k + 1, item))
  {
    assert LinkedAt(s, k) && where in s;
    item.prev := where;
    item.next := where.next;
    if item.next != null {
      item.next.prev := item;
    }
    where.next := item;
    forall i | 0 <= i < |s|
      ensures (i != k + 1 ==> PrevOk(s, i)) && (i != k + 1 - 1 ==> NextOk(s, i))
    {
      assert old(LinkedAt(s, i));
    }
    SplicedIsChain(s, k + 1, item);
  }

  /** Puts `item` before `where`. */
  method Insert(where: Timer, item: Timer, ghost s: seq<Timer>, ghost k: nat)
    requires Chain(s) && k < |s| && s[k] == where && item !in s
    modifies where`prev, AsSet(where.prev)`next, item`next, item`prev
    ensures Chain(With(s, k, item))
  {
    assert LinkedAt(s, k) && where in s;
    item.next := where;
    item.prev := where.prev;
    where.prev := item;
    if item.prev != null {
      item.prev.next := item;
    }
    forall i | 0 <= i < |s|
      ensures (i != k ==> PrevOk(s, i)) && (i != k - 1 ==> NextOk(s, i))
    {
      assert old(LinkedAt(s, i));
    }
    SplicedIsChain(s, k, item);
  }

  lemma WithHas(s: seq<Timer>, k: nat, t: Timer, u: Timer)
    requires k <= |s|
    ensures u in With(s, k, t) <==> u in s || u == t
  {
    assert s == s[..k] + s[k..];
  }

  lemma WithoutAt(s: seq<Timer>, k: nat, i: nat)
    requires k < |s| && i < |s| - 1
    ensures Without(s, k)[i] == if i < k then s[i] else s[i + 1]
  {
  }

  /** What is left of a chain when its timer at k has been taken out. */
  ghost predicate Bridged(s: seq<Timer>, k: nat)
    requires k < |s|
    reads s`next, s`prev
  {
    && (k > 0 ==> s[k - 1].next == if k == |s| - 1 then null else s[k + 1])
    && (k < |s| - 1 ==> s[k + 1].prev == if k == 0 then null else s[k - 1])
    && (forall i | 0 <= i < |s| && i != k + 1 :: PrevOk(s, i))
    && (forall i | 0 <= i < |s| && i != k - 1 :: NextOk(s, i))
  }

  lemma BridgedIsChain(s: seq<Timer>, k: nat)
    requires Distinct(s) && k < |s| && Bridged(s, k)
    ensures Chain(Without(s, k))
  {
    var w := Without(s, k);
    forall i | 0 <= i < |w|
      ensures LinkedAt(w, i)
    {
      WithoutAt(s, k, i);
      if i > 0 { WithoutAt(s, k, i - 1); }
      if i < |w| - 1 { WithoutAt(s, k, i + 1); }
      if i < k {
        assert PrevOk(s, i) && (i == k - 1 || NextOk(s, i));
      } else {
        assert NextOk(s, i + 1) && (i == k || PrevOk(s, i + 1));
      }
    }
    forall i, j | 0 <= i < j < |w|
      ensures w[i] != w[j]
    {
      WithoutAt(s, k, i);
      WithoutAt(s, k, j);
    }
  }

  lemma WithoutHas(s: seq<Timer>, k: nat, t: Timer)
    requires Distinct(s) && k < |s|
    ensures t in Without(s, k) <==> t in s && t != s[k]
  {
    assert s == s[..k] + [s[k]] + s[k + 1..];
  }

  /** Closes the gap that `item` leaves; its own links stay as they are, and a timer without links leaves none. */
  method Bypass(item: Timer, ghost s: seq<Timer>, ghost k: nat)
    requires Chain(s) && k <= |s|
    requires if k < |s| then s[k] == item else Alone(item)
    modifies AsSet(item.prev)`next, AsSet(item.next)`prev
    ensures Chain(if k < |s| then Without(s, k) else s)
    ensures item.next == old(item.next) && item.prev == old(item.prev)
  {
    assert k < |s| ==> LinkedAt(s, k);
    if item.prev != null {
      item.prev.next := item.next;
    }
    if item.next != null {
      item.next.prev := item.prev;
    }
    if k < |s| {
      forall i | 0 <= i < |s|
        ensures (i != k + 1 ==> PrevOk(s, i)) && (i != k - 1 ==> NextOk(s, i))
      {
        assert old(LinkedAt(s, i));
      }
      BridgedIsChain(s, k);
    }
  }

  // ----- the order

  ghost predicate Sorted(s: seq<Timer>)
    reads s`fireDate
  {
    && (forall i | 0 <= i < |s| :: Normal(s[i].fireDate))
    && (forall i, j | 0 <= i < j < |s| :: Compare(s[i].fireDate, s[j].fireDate) <= 0)
  }

  /** Position k is behind everything that fires no later than `date` and before everything that fires later. */
  ghost predicate PlaceFor(s: seq<Timer>, k: nat, date: Timeval)
    reads s`fireDate
  {
    && k <= |s|
    && (forall i | 0 <= i < k :: Compare(date, s[i].fireDate) >= 0)
    && (forall i | k <= i < |s| :: Compare(date, s[i].fireDate) < 0)
  }

  /** Timers with the same fire date stand in the order in which they were scheduled. */
  ghost predicate InArrivalOrder(s: seq<Timer>, arrival: map<Timer, nat>, clock: nat)
    reads s`fireDate
  {
    && (forall t | t in s :: t in arrival && arrival[t] < clock)
    && (forall i, j | 0 <= i < j < |s| && s[i].fireDate == s[j].fireDate :: arrival[s[i]] < arrival[s[j]])
  }

  lemma OrderedWith(s: seq<Timer>, k: nat, t: Timer, arrival: map<Timer, nat>, clock: nat)
    requires Sorted(s) && InArrivalOrder(s, arrival, clock) && t !in s
    requires PlaceFor(s, k, t.fireDate) && Normal(t.fireDate)
    ensures Sorted(With(s, k, t))
    ensures InArrivalOrder(With(s, k, t), arrival[t := clock], clock + 1)
    ensures forall i | 0 <= i <= |s| :: Compare(With(s, k, t)[i].fireDate, t.fireDate) <= 0 <==> i <= k
  {
    hide Compare;
    var w, arrival' := With(s, k, t), arrival[t := clock];
    forall u | u in w
      ensures u in arrival' && arrival'[u] < clock + 1
    {
      WithHas(s, k, t, u);
    }
    forall i, j | 0 <= i < j < |w|
      ensures Compare(w[i].fireDate, w[j].fireDate) <= 0
      ensures w[i].fireDate == w[j].fireDate ==> arrival'[w[i]] < arrival'[w[j]]
    {
      WithAt(s, k, t, i);
      WithAt(s, k, t, j);
      CompareSwaps(w[i].fireDate, w[j].fireDate);
      if i != k && j != k {
        var i', j' := if i < k then i else i - 1, if j < k then j else j - 1;
        assert w[i] == s[i'] && w[j] == s[j'];
      }
    }
    forall i | 0 <= i <= |s|
      ensures Normal(w[i].fireDate) && (Compare(w[i].fireDate, t.fireDate) <= 0 <==> i <= k)
    {
      WithAt(s, k, t, i);
      CompareSwaps(w[i].fireDate, t.fireDate);
    }
  }

  lemma CompareSwaps(a: Timeval, b: Timeval)
    ensures Compare(a, b) <= 0 <==> Compare(b, a) >= 0
    ensures Compare(a, b) == 0 <==> a == b
  {
  }

  lemma OrderedWithout(s: seq<Timer>, k: nat, arrival: map<Timer, nat>, clock: nat)
    requires Sorted(s) && InArrivalOrder(s, arrival, clock) && k < |s|
    ensures Sorted(Without(s, k)) && InArrivalOrder(Without(s, k), arrival, clock)
  {
    hide Compare;
    var w := Without(s, k);
    forall i, j | 0 <= i < j < |w|
      ensures Compare(w[i].fireDate, w[j].fireDate) <= 0
      ensures w[i].fireDate == w[j].fireDate ==> arrival[w[i]] < arrival[w[j]]
    {
      WithoutAt(s, k, i);
      WithoutAt(s, k, j);
    }
  }

  // ----- the queue

  class Queue {
    /** The list head; every other timer is reached through `next`. */
    var timers: Timer?
    ghost var list: seq<Timer>
    /** All timers that use this queue, queued or not. */
    ghost var known: set<Timer>
    /** When each timer was last scheduled, as a running number. */
    ghost var arrival: map<Timer, nat>
    ghost var clock: nat

    ghost predicate Valid()
      reads this, known`next, known`prev, list`fireDate
    {
      Wired() && Sorted(list) && InArrivalOrder(list, arrival, clock)
    }

    /** The links are those of the list, and unqueued timers have none. */
    ghost predicate Wired()
      reads this`timers, this`list, this`known, known`next, known`prev
    {
      && (forall t | t in list :: t in known)
      && timers == (if list == [] then null else list[0])
      && Chain(list)
      && (forall t | t in known && t !in list :: Alone(t))
    }

    constructor ()
      ensures Valid() && list == [] && known == {}
    {
      timers := null;
      list, known, arrival, clock := [], {}, map[], 0;
    }

    /** A timer that has been set up for use with this queue. */
    method Init(t: Timer)
      requires Valid() && t !in known && Alone(t)
      modifies this`known
      ensures Valid() && known == old(known) + {t}
    {
      known := known + {t};
    }

    /** The three tests on the links tell exactly whether a timer is queued. */
    method IsScheduled(t: Timer) returns (r: bool)
      requires Valid() && t in known
      ensures r <==> t in list
    {
      if t in list {
        var i :| 0 <= i < |list| && list[i] == t;
        assert LinkedAt(list, i);
      } else {
        assert list != [] ==> list[0] in list;
      }
      r := t.next != null || t.prev != null || timers == t;
    }

    lemma WiredWith(k: nat, item: Timer, was: seq<Timer>)
      requires k <= |was| && item in known && (forall t | t in was :: t in known)
      requires list == With(was, k, item) && Chain(list) && timers == list[0]
      requires forall t | t in known && t !in was && t != item :: Alone(t)
      ensures Wired()
    {
      forall t
        ensures t in list <==> t in was || t == item
      {
        WithHas(was, k, item, t);
      }
    }

    method AddAfter(location: Timer, item: Timer, ghost k: nat)
      requires Wired() && k < |list| && list[k] == location && item in known && item !in list
      modifies this`list, known`next, known`prev
      ensures Wired() && list == With(old(list), k + 1, item)
    {
      assert LinkedAt(list, k);
      ghost var s := list;
      InsertAfter(location, item, s, k);
      list := With(s, k + 1, item);
      assert list[0] == s[0];
      WiredWith(k + 1, item, s);
    }

    method AddBefore(location: Timer, item: Timer, ghost k: nat)
      requires Wired() && k < |list| && list[k] == location && item in known && item !in list
      modifies this`timers, this`list, known`next, known`prev
      ensures Wired() && list == With(old(list), k, item)
    {
      assert LinkedAt(list, k);
      ghost var s := list;
      Insert(location, item, s, k);
      if location == timers {
        timers := item;
      }
      list := With(s, k, item);
      assert list[0] == if k == 0 then item else s[0];
      WiredWith(k, item, s);
    }

    /** Puts an unqueued timer into the list behind every timer that fires no later. */
    method SortedInsert(item: Timer) returns (ghost k: nat)
      requires Wired() && Sorted(list) && item in known && item !in list && Normal(item.fireDate)
      modifies this`timers, this`list, known`next, known`prev
      ensures Wired() && k <= |old(list)|
      ensures list == With(old(list), k, item) && PlaceFor(old(list), k, item.fireDate)
    {
      ghost var s := list;
      k := 0;
      var location := timers;
      if location != null {
        while Compare(item.fireDate, location.fireDate) >= 0
          invariant k < |s| && location == s[k]
          invariant forall i | 0 <= i < k :: Compare(item.fireDate, s[i].fireDate) >= 0
          decreases |s| - k
        {
          assert LinkedAt(s, k);
          if location.next != null {
            location := location.next;
            k := k + 1;
          } else {
            AddAfter(location, item, k);
            k := k + 1;
            return;
          }
        }
        Later(s, k, item.fireDate);
        AddBefore(location, item, k);
      } else {
        timers := item;
        list := [item];
      }
    }

    /** Where a timer stands; the length of the list if it is not queued. */
    ghost function PlaceOf(t: Timer): (k: nat)
      reads this
      ensures if t in list then k < |list| && list[k] == t else k == |list|
    {
      if t in list then
        var k: nat :| k < |list| && list[k] == t;
        k
      else |list|
    }

    /** The list without a timer that may or may not be in it. */
    ghost function Rest(t: Timer): seq<Timer>
      reads this
    {
      if t in list then Without(list, PlaceOf(t)) else list
    }

    /** Takes a timer out of the list, but does not clear its links; one that is not in it is left as it is. */
    method Remove(item: Timer)
      requires Wired() && item in known
      modifies this`timers, this`list, AsSet(item.prev)`next, AsSet(item.next)`prev
      ensures list == old(Rest(item)) && Chain(list)
      ensures timers == if list == [] then null else list[0]
      ensures item.next == old(item.next) && item.prev == old(item.prev)
      ensures forall t | t in known && t !in old(list) :: Alone(t)
    {
      ghost var s, k := list, PlaceOf(item);
      assert k < |s| ==> LinkedAt(s, k);
      assert s != [] ==> s[0] in s;
      Bypass(item, s, k);
      if timers == item {
        timers := item.next;
      }
      list := if k < |s| then Without(s, k) else s;
    }

    lemma RestHas(t: Timer, u: Timer)
      requires Chain(list)
      ensures u in Rest(t) <==> u in list && u != t
    {
      if t in list {
        WithoutHas(list, PlaceOf(t), u);
      }
    }

    lemma Neighbours(t: Timer)
      requires Wired() && t in known
      ensures AsSet(t.prev) <= known && AsSet(t.next) <= known
    {
      assert t in list ==> LinkedAt(list, PlaceOf(t));
    }

    /** Takes a timer out of the list and tells whether its cancel function is called. */
    method Invalidate(timer: Timer) returns (cancelled: bool)
      requires Valid() && timer in known
      modifies this`timers, this`list, known`next, known`prev
      ensures Valid() && list == old(Rest(timer))
      ensures timer !in list && (forall t | t != timer :: t in list <==> t in old(list))
      ensures timer !in old(list) ==> forall t | t in known :: t.next == old(t.next) && t.prev == old(t.prev)
      ensures cancelled == timer.cancel
    {
      hide Sorted, InArrivalOrder, Chain;
      Neighbours(timer);
      forall u
        ensures u in Rest(timer) <==> u in list && u != timer
      {
        RestHas(timer, u);
      }
      if timer in list {
        OrderedWithout(list, PlaceOf(timer), arrival, clock);
      }
      Remove(timer);
      timer.next := null;
      timer.prev := null;
      cancelled := timer.cancel;
    }

    /**
     Schedules a timer to fire `c` milliseconds after `now`, behind everything that is due no
     later.  A timer that is queued already stays where it is.
     */
    method Schedule(timer: Timer, c: cms, now: Timeval) returns (ok: bool, ghost k: nat)
      requires Valid() && timer in known && Normal(now)
      modifies this`timers, this`list, this`arrival, this`clock, known`next, known`prev, timer`fireDate
      ensures Valid()
      ensures ok <==> timer !in old(list)
      ensures !ok ==> list == old(list) && timer.fireDate == old(timer.fireDate)
      ensures !ok ==> forall t | t in known :: t.next == old(t.next) && t.prev == old(t.prev)
      ensures ok ==> timer.fireDate == After(now, Clamped(c))
      ensures ok && c >= 0 ==> Micros(timer.fireDate) == Micros(now) + 1000 * c
      ensures ok && c < 0 ==> Micros(timer.fireDate) == Micros(now)
      ensures ok ==> k <= |old(list)| && list == With(old(list), k, timer) && list[k] == timer
      ensures ok ==> forall i | 0 <= i < |list| :: Compare(list[i].fireDate, timer.fireDate) <= 0 <==> i <= k
    {
      hide Sorted, InArrivalOrder, Chain, After, Clamped, Micros, With, Compare, PlaceFor, Wired;
      k := 0;
      ok := IsScheduled(timer);
      ok := !ok;
      if !ok {
        return;
      }
      var delay := Clamped(c);
      DelayIsExact(now, c);
      ghost var s := list;
      timer.fireDate := ConvertCmsToTimeval(now, delay);
      k := SortedInsert(timer);
      ghost var before := arrival;
      arrival := arrival[timer := clock];
      clock := clock + 1;
      OrderedWith(s, k, timer, before, clock - 1);
      WithPlace(s, k, timer);
    }

    /** No timer is due earlier than the first one. */
    lemma HeadIsFirst(now: Timeval)
      requires Valid() && Normal(now)
      ensures list != [] ==> list[0] in list && Normal(list[0].fireDate)
      ensures forall t | t in list :: TrueLeft(list[0].fireDate, now) <= TrueLeft(t.fireDate, now)
    {
      hide TrueLeft, Compare;
      forall t | t in list
        ensures TrueLeft(list[0].fireDate, now) <= TrueLeft(t.fireDate, now)
      {
        var i := PlaceOf(t);
        CompareSwaps(list[0].fireDate, list[i].fireDate);
        TrueLeftMonotone(list[0].fireDate, list[i].fireDate, now);
      }
    }

    /** The least of half a minute and the time left of every timer. */
    ghost predicate Least(left: cms, now: Timeval)
      reads this`list, list`fireDate
    {
      && left <= MAX_TIMEOUT
      && (forall t | t in list :: left <= TrueLeft(t.fireDate, now))
      && (left == MAX_TIMEOUT || exists t | t in list :: left == TrueLeft(t.fireDate, now))
    }

    /**
     The time until the next timer fires, at most half a minute.  It looks at the first timer
     only, and whether it is right can be told from that one: it is no longer than any timer
     has left exactly if cutting does not lengthen the time of the first one, and it is the
     least of them exactly if cutting does not change it.
     */
    method GetTimeout(now: Timeval) returns (left: cms)
      requires Valid() && Normal(now)
      ensures 0 <= left <= 30000 && left == TimeoutOf(Entries(), now)
      ensures list == [] ==> left == 30000
      ensures (forall t | t in list :: left <= TrueLeft(t.fireDate, now)) <==>
                list == [] || NotLonger(list[0].fireDate, now)
      ensures Least(left, now) <==> list == [] || SameUpTo(list[0].fireDate, now, MAX_TIMEOUT)
    {
      hide Period, RawPeriod, Sorted, InArrivalOrder, TrueLeft, NotLonger, SameUpTo, SameDue;
      HeadIsFirst(now);
      left := MAX_TIMEOUT;
      if timers != null {
        CutLeft(timers.fireDate, now, MAX_TIMEOUT);
        left := Min(left, TimeLeft(timers.fireDate, now));
      }
      left := Max(left, 0);
    }

    /** Takes the first timer off the list if it is due; whether that tells if any timer is due can be seen at it. */
    method HandleTimers(now: Timeval) returns (fired: Timer?)
      requires Valid() && Normal(now)
      modifies this`timers, this`list, known`next, known`prev, known`cancel
      ensures Valid()
      ensures fired == null ==> list == old(list)
      ensures fired != null ==> old(list) == [fired] + list && fired !in list && !fired.cancel
      ensures fired != null <==> old(list) != [] && TimeLeft(old(list)[0].fireDate, now) == 0
      ensures (fired != null <==> exists t | t in old(list) :: TrueLeft(t.fireDate, now) == 0) <==>
                old(list) == [] || SameDue(old(list)[0].fireDate, now)
      ensures forall t | t in known && t != fired :: t.cancel == old(t.cancel)
    {
      hide Period, RawPeriod, Sorted, InArrivalOrder, Chain, TrueLeft, NotLonger, SameUpTo, SameDue;
      HeadIsFirst(now);
      fired := null;
      if timers != null {
        CutLeft(timers.fireDate, now, MAX_TIMEOUT);
        if TimeLeft(timers.fireDate, now) <= 0 {
          fired := timers;
          fired.cancel := false;
          FirstPlace(fired);
          var cancelled := Invalidate(fired);
        }
      }
    }

    lemma FirstPlace(t: Timer)
      requires Chain(list) && list != [] && t == list[0]
      ensures PlaceOf(t) == 0 && list == [t] + Rest(t)
    {
    }

    /**
     The end of the queue: takes off one timer after the other.  The cancel function of each is
     called here and again by the invalidation.
     */
    method Release() returns (cancelled: seq<Timer>)
      requires Valid()
      modifies this`timers, this`list, known`next, known`prev
      ensures Valid() && list == [] && cancelled == EachTwice(old(list))
      ensures forall t | t in old(list) :: multiset(cancelled)[t] == if t.cancel then 2 else 0
    {
      hide Valid, EachTwice;
      cancelled := [];
      Once();
      HeadIsTimers();
      NoneTwice();
      while timers != null
        invariant Valid() && (timers == null <==> list == [])
        invariant EachTwice(old(list)) == cancelled + EachTwice(list)
        decreases |list|
      {
        ghost var before := cancelled;
        var calls := ReleaseFirst();
        cancelled := cancelled + calls;
        assert cancelled + EachTwice(list) == before + (calls + EachTwice(list));
        HeadIsTimers();
      }
      TwiceEach(old(list));
    }

    method ReleaseFirst() returns (calls: seq<Timer>)
      requires Valid() && list != []
      modifies this`timers, this`list, known`next, known`prev
      ensures Valid() && list == old(list)[1..]
      ensures EachTwice(old(list)) == calls + EachTwice(list)
    {
      hide Valid;
      HeadIsTimers();
      FirstInList();
      var timer := timers;
      calls := [];
      if timer.cancel {
        calls := calls + [timer];
      }
      var again := Invalidate(timer);
      if again {
        calls := calls + [timer];
      }
    }

    lemma HeadIsTimers()
      requires Valid()
      ensures timers == null <==> list == []
      ensures list != [] ==> timers == list[0] && list[0] in known
    {
      assert list != [] ==> list[0] in list;
    }

    lemma FirstInList()
      requires Valid() && list != []
      ensures PlaceOf(list[0]) == 0 && Rest(list[0]) == list[1..]
    {
      FirstPlace(list[0]);
    }

    ghost predicate Permitted(e: Event)
      reads this`known
    {
      match e
      case Schedule(t, _, now) => t in known && Normal(now)
      case Invalidate(t) => t in known
      case Handle(now) => Normal(now)
    }

    /** The queue as a list of entries. */
    ghost function Entries(): seq<Entry>
      reads this`list, list`fireDate
    {
      EntriesOf(list)
    }

    /** One call; the timer that it fires, if it fires one. */
    method Do(e: Event) returns (fired: Timer?)
      requires Valid() && Permitted(e)
      modifies this`timers, this`list, this`arrival, this`clock
      modifies known`next, known`prev, known`fireDate, known`cancel
      ensures Valid()
      ensures Entries() == Next(old(Entries()), e)
      ensures fired == Fires(old(Entries()), e)
    {
      hide Valid, Compare, After, Period, TimeLeft, PlaceFor, Inserted, Dropped;
      fired := null;
      match e {
        case Schedule(t, c, now) => DoSchedule(t, c, now);
        case Invalidate(t) => DoInvalidate(t);
        case Handle(now) => fired := DoHandle(now);
      }
    }

    method DoSchedule(t: Timer, c: cms, now: Timeval)
      requires Valid() && t in known && Normal(now)
      modifies this`timers, this`list, this`arrival, this`clock, known`next, known`prev, t`fireDate
      ensures Valid() && Entries() == Next(old(Entries()), Event.Schedule(t, c, now))
    {
      hide Valid, Compare, After, Inserted;
      ghost var s, was := list, Entries();
      QueuedIsListed(s, t);
      var ok, k := Schedule(t, c, now);
      if ok {
        EntriesWith(s, was, k, t);
      } else {
        assert EntriesOf(s) == was;
      }
    }

    lemma Once()
      requires Valid()
      ensures Distinct(list)
    {
    }

    method DoInvalidate(t: Timer)
      requires Valid() && t in known
      modifies this`timers, this`list, known`next, known`prev
      ensures Valid() && Entries() == Next(old(Entries()), Event.Invalidate(t))
    {
      hide Valid, Compare, Dropped;
      ghost var s, k := list, PlaceOf(t);
      Once();
      EntriesWithout(s, t, k);
      var cancelled := Invalidate(t);
    }

    method DoHandle(now: Timeval) returns (fired: Timer?)
      requires Valid() && Normal(now)
      modifies this`timers, this`list, known`next, known`prev, known`cancel
      ensures Valid() && Entries() == Next(old(Entries()), Handle(now)) && fired == Fires(old(Entries()), Handle(now))
    {
      hide Valid, Compare, TimeLeft;
      ghost var s := list;
      FirstEntry(s);
      fired := HandleTimers(now);
    }

    /** Any run of calls: the queue is what the calls make of a list of entries, and so are the timers that fire. */
    method Run(events: seq<Event>) returns (fired: seq<Timer>)
      requires Valid()
      requires forall i | 0 <= i < |events| :: Permitted(events[i])
      modifies this`timers, this`list, this`arrival, this`clock
      modifies known`next, known`prev, known`fireDate, known`cancel
      ensures Valid()
      ensures Entries() == Replay(old(Entries()), events)
      ensures fired == FiredBy(old(Entries()), events)
    {
      hide Valid, Next, Fires;
      fired := [];
      for i := 0 to |events|
        invariant Valid()
        invariant Entries() == Replay(old(Entries()), events[..i])
        invariant fired == FiredBy(old(Entries()), events[..i])
      {
        var timer := Do(events[i]);
        assert events[..i + 1][..i] == events[..i];
        if timer != null {
          fired := fired + [timer];
        }
      }
      assert events[..|events|] == events;
    }
  }

  /** The timers with a cancel function, each of them twice. */
  ghost function EachTwice(s: seq<Timer>): seq<Timer>
    reads s`cancel
  {
    if s == [] then [] else (if s[0].cancel then [s[0], s[0]] else []) + EachTwice(s[1..])
  }

  lemma {:induction false} TwiceEach(s: seq<Timer>)
    requires Distinct(s)
    ensures forall t :: multiset(EachTwice(s))[t] == if t in s && t.cancel then 2 else 0
  {
    if s != [] {
      assert s == [s[0]] + s[1..];
      TwiceEach(s[1..]);
    }
  }

  lemma NoneTwice()
    ensures EachTwice([]) == []
  {
  }

  datatype Event =
    | Schedule(timer: Timer, c: cms, now: Timeval)
    | Invalidate(timer: Timer)
    | Handle(now: Timeval)

  // ----- what runs of calls do, as functions on lists of entries

  datatype Entry = Entry(timer: Timer, date: Timeval)

  ghost function EntriesOf(s: seq<Timer>): (q: seq<Entry>)
    reads s`fireDate
    ensures |q| == |s| && forall i | 0 <= i < |s| :: q[i] == Entry(s[i], s[i].fireDate)
  {
    if s == [] then [] else EntriesOf(s[..|s| - 1]) + [Entry(s[|s| - 1], s[|s| - 1].fireDate)]
  }

  ghost predicate Queued(q: seq<Entry>, t: Timer) {
    exists i :: 0 <= i < |q| && q[i].timer == t
  }

  /** Behind everything that fires no later. */
  function Inserted(q: seq<Entry>, x: Entry): seq<Entry> {
    if q == [] || Compare(x.date, q[0].date) < 0 then [x] + q else [q[0]] + Inserted(q[1..], x)
  }

  ghost function Dropped(q: seq<Entry>, t: Timer): seq<Entry> {
    if q == [] then [] else if q[0].timer == t then q[1..] else [q[0]] + Dropped(q[1..], t)
  }

  /** The timer that a call fires: the first one, if it is due. */
  ghost function Fires(q: seq<Entry>, e: Event): Timer? {
    if e.Handle? && q != [] && TimeLeft(q[0].date, e.now) <= 0 then q[0].timer else null
  }

  /** The queue after one call. */
  ghost function Next(q: seq<Entry>, e: Event): seq<Entry> {
    match e
    case Schedule(t, c, now) => if Queued(q, t) then q else Inserted(q, Entry(t, After(now, Clamped(c))))
    case Invalidate(t) => Dropped(q, t)
    case Handle(now) => if Fires(q, e) != null then q[1..] else q
  }

  ghost function Replay(q: seq<Entry>, events: seq<Event>): seq<Entry> {
    if events == [] then q else Next(Replay(q, events[..|events| - 1]), events[|events| - 1])
  }

  ghost function FiredBy(q: seq<Entry>, events: seq<Event>): seq<Timer> {
    if events == [] then []
    else
      var before, last := events[..|events| - 1], events[|events| - 1];
      var timer := Fires(Replay(q, before), last);
      FiredBy(q, before) + if timer == null then [] else [timer]
  }

  /** The time until the first timer fires, at most half a minute. */
  function TimeoutOf(q: seq<Entry>, now: Timeval): cms {
    if q == [] then MAX_TIMEOUT else Min(MAX_TIMEOUT, TimeLeft(q[0].date, now))
  }

  lemma TenLater()
    ensures After(Timeval(2147484, 0), 10) == Timeval(2147484, 10000)
  {
  }

  /** A first timer that is overdue for so long that its period does not fit is not fired, and the timeout is too long for the next one. */
  lemma TimeoutTooLong(a: Timer, b: Timer)
    ensures var now := Timeval(2147484, 0);
            var q := [Entry(a, Timeval(0, 0)), Entry(b, Timeval(2147484, 10000))];
            && Compare(q[0].date, q[1].date) < 0
            && TimeoutOf(q, now) == MAX_TIMEOUT && TrueLeft(q[1].date, now) == 10
            && !NotLonger(q[0].date, now) && !SameDue(q[0].date, now) && TrueLeft(q[0].date, now) == 0
  {
    hide Period, After;
    LongOverdueLooksAhead();
    PeriodUndoesAfter(Timeval(2147484, 0), 10);
    TenLater();
  }

  lemma QueuedIsListed(s: seq<Timer>, t: Timer)
    ensures Queued(EntriesOf(s), t) <==> t in s
  {
    if t in s {
      var i :| 0 <= i < |s| && s[i] == t;
      assert EntriesOf(s)[i].timer == t;
    }
  }

  lemma {:induction false} InsertedAt(q: seq<Entry>, k: nat, x: Entry)
    requires k <= |q|
    requires forall i | 0 <= i < k :: Compare(x.date, q[i].date) >= 0
    requires k < |q| ==> Compare(x.date, q[k].date) < 0
    ensures Inserted(q, x) == q[..k] + [x] + q[k..]
  {
    hide Compare;
    if k > 0 {
      InsertedAt(q[1..], k - 1, x);
      assert q[..k] == [q[0]] + q[1..][..k - 1];
    }
  }

  lemma {:induction false} DroppedAt(q: seq<Entry>, t: Timer, k: nat)
    requires k <= |q| && (forall i | 0 <= i < k :: q[i].timer != t) && (k < |q| ==> q[k].timer == t)
    ensures Dropped(q, t) == if k < |q| then q[..k] + q[k + 1..] else q
  {
    if k > 0 {
      DroppedAt(q[1..], t, k - 1);
      if k < |q| {
        assert q[..k] == [q[0]] + q[1..][..k - 1];
      }
    }
  }

  lemma EntriesAre(s: seq<Timer>, q: seq<Entry>)
    requires |q| == |s| && forall i | 0 <= i < |s| :: q[i] == Entry(s[i], s[i].fireDate)
    ensures EntriesOf(s) == q
  {
  }

  /** The entries after t, with its new date, has been put at k. */
  lemma EntriesWith(s: seq<Timer>, was: seq<Entry>, k: nat, t: Timer)
    requires k <= |s| == |was| && t !in s
    requires forall i | 0 <= i < |s| :: was[i] == Entry(s[i], s[i].fireDate)
    requires forall i | 0 <= i <= |s| :: Compare(With(s, k, t)[i].fireDate, t.fireDate) <= 0 <==> i <= k
    ensures EntriesOf(With(s, k, t)) == Inserted(was, Entry(t, t.fireDate))
  {
    hide Compare, EntriesOf, Inserted, With;
    var x := Entry(t, t.fireDate);
    WithPlace(s, k, t);
    forall i | 0 <= i < |s|
      ensures Compare(x.date, was[i].date) >= 0 <==> i < k
    {
      var j := if i < k then i else i + 1;
      WithAt(s, k, t, j);
      CompareSwaps(s[i].fireDate, t.fireDate);
    }
    InsertedAt(was, k, x);
    var q := was[..k] + [x] + was[k..];
    forall i | 0 <= i <= |s|
      ensures q[i] == Entry(With(s, k, t)[i], With(s, k, t)[i].fireDate)
    {
      WithAt(s, k, t, i);
    }
    EntriesAre(With(s, k, t), q);
  }

  lemma WithPlace(s: seq<Timer>, k: nat, t: Timer)
    requires k <= |s|
    ensures |With(s, k, t)| == |s| + 1 && With(s, k, t)[k] == t
  {
  }

  lemma EntriesWithout(s: seq<Timer>, t: Timer, k: nat)
    requires Distinct(s) && k <= |s| && if t in s then k < |s| && s[k] == t else k == |s|
    ensures Dropped(EntriesOf(s), t) == EntriesOf(if t in s then Without(s, k) else s)
  {
    var q := EntriesOf(s);
    DroppedAt(q, t, k);
    if k < |s| {
      forall i | 0 <= i < |s| - 1
        ensures EntriesOf(Without(s, k))[i] == (q[..k] + q[k + 1..])[i]
      {
        WithoutAt(s, k, i);
      }
    }
  }

  lemma FirstEntry(s: seq<Timer>)
    ensures s == [] <==> EntriesOf(s) == []
    ensures s != [] ==> EntriesOf(s) == [Entry(s[0], s[0].fireDate)] + EntriesOf(s[1..])
  {
  }

  // ----- no timer gets lost

  ghost function TimersOf(q: seq<Entry>): multiset<Timer> {
    if q == [] then multiset{} else multiset{q[0].timer} + TimersOf(q[1..])
  }

  /** What a call puts into the queue. */
  ghost function Added(q: seq<Entry>, e: Event): multiset<Timer> {
    if e.Schedule? && !Queued(q, e.timer) then multiset{e.timer} else multiset{}
  }

  /** What a call takes out of the queue. */
  ghost function Gone(q: seq<Entry>, e: Event): multiset<Timer> {
    if e.Invalidate? && Queued(q, e.timer) then multiset{e.timer}
    else if Fires(q, e) != null then multiset{Fires(q, e)}
    else multiset{}
  }

  ghost function AllAdded(q: seq<Entry>, events: seq<Event>): multiset<Timer> {
    if events == [] then multiset{}
    else AllAdded(q, events[..|events| - 1]) + Added(Replay(q, events[..|events| - 1]), events[|events| - 1])
  }

  ghost function AllGone(q: seq<Entry>, events: seq<Event>): multiset<Timer> {
    if events == [] then multiset{}
    else AllGone(q, events[..|events| - 1]) + Gone(Replay(q, events[..|events| - 1]), events[|events| - 1])
  }

  lemma {:induction false} InsertedTimers(q: seq<Entry>, x: Entry)
    ensures TimersOf(Inserted(q, x)) == TimersOf(q) + multiset{x.timer}
  {
    hide Compare;
    if q == [] || Compare(x.date, q[0].date) < 0 {
      assert ([x] + q)[1..] == q;
    } else {
      InsertedTimers(q[1..], x);
      assert ([q[0]] + Inserted(q[1..], x))[1..] == Inserted(q[1..], x);
    }
  }

  lemma QueuedBehind(q: seq<Entry>, t: Timer)
    requires q != []
    ensures Queued(q, t) <==> q[0].timer == t || Queued(q[1..], t)
  {
    if Queued(q[1..], t) {
      var i :| 0 <= i < |q| - 1 && q[1..][i].timer == t;
      assert q[i + 1].timer == t;
    }
    if Queued(q, t) {
      var i :| 0 <= i < |q| && q[i].timer == t;
      assert i > 0 ==> q[1..][i - 1].timer == t;
    }
  }

  lemma {:induction false} DroppedTimers(q: seq<Entry>, t: Timer)
    requires Queued(q, t)
    ensures TimersOf(q) == TimersOf(Dropped(q, t)) + multiset{t}
  {
    hide Queued, TimersOf;
    NothingQueued(t);
    QueuedBehind(q, t);
    TimersFirst(q);
    if q[0].timer != t {
      DroppedTimers(q[1..], t);
      var rest := [q[0]] + Dropped(q[1..], t);
      TimersFirst(rest);
      assert rest[1..] == Dropped(q[1..], t);
    }
  }

  lemma TimersFirst(q: seq<Entry>)
    requires q != []
    ensures TimersOf(q) == multiset{q[0].timer} + TimersOf(q[1..])
  {
  }

  lemma {:induction false} NothingDropped(q: seq<Entry>, t: Timer)
    requires !Queued(q, t)
    ensures Dropped(q, t) == q
  {
    hide Queued;
    if q != [] {
      QueuedBehind(q, t);
      NothingDropped(q[1..], t);
    }
  }

  lemma NothingQueued(t: Timer)
    ensures !Queued([], t)
  {
  }

  lemma NextTimers(q: seq<Entry>, e: Event)
    ensures TimersOf(q) + Added(q, e) == TimersOf(Next(q, e)) + Gone(q, e)
  {
    hide Compare, TimeLeft, After;
    match e
    case Schedule(t, c, now) => InsertedTimers(q, Entry(t, After(now, Clamped(c))));
    case Invalidate(t) => if Queued(q, t) { DroppedTimers(q, t); } else { NothingDropped(q, t); }
    case Handle(now) =>
  }

  /**
     Over any run of calls: what was queued, and what the calls that found their timer
     unqueued have put in, is what is queued in the end and what invalidations and firings
     have taken out.
     */
  lemma {:induction false} NothingIsLost(q: seq<Entry>, events: seq<Event>)
    ensures TimersOf(q) + AllAdded(q, events) == TimersOf(Replay(q, events)) + AllGone(q, events)
  {
    hide Next, Added, Gone, TimersOf;
    if events != [] {
      var before, last := events[..|events| - 1], events[|events| - 1];
      var r := Replay(q, before);
      NothingIsLost(q, before);
      NextTimers(r, last);
      Balance(TimersOf(q), AllAdded(q, before), AllGone(q, before),
              TimersOf(r), Added(r, last), Gone(r, last), TimersOf(Next(r, last)));
    }
  }

  lemma Balance(
    a: multiset<Timer>, added: multiset<Timer>, gone: multiset<Timer>,
    b: multiset<Timer>, plus: multiset<Timer>, minus: multiset<Timer>, c: multiset<Timer>
  )
    requires a + added == b + gone && b + plus == c + minus
    ensures a + (added + plus) == c + (gone + minus)
  {
    assert a + (added + plus) == (a + added) + plus;
    assert (b + gone) + plus == (b + plus) + gone;
    assert (c + minus) + gone == c + (gone + minus);
  }

  // ----- no timer fires before its time

  /** Entry x was put in by event i, and has been in the queue up to event j. */
  ghost predicate Since(q: seq<Entry>, events: seq<Event>, i: nat, j: nat, x: Entry)
    requires j <= |events|
  {
    && i < j
    && events[i].Schedule? && events[i].timer == x.timer && x.date == After(events[i].now, Clamped(events[i].c))
    && !Queued(Replay(q, events[..i]), x.timer)
    && forall m | i < m <= j :: x in Replay(q, events[..m])
  }

  /** Entry x has been in the queue from the start up to event j. */
  ghost predicate Always(q: seq<Entry>, events: seq<Event>, j: nat, x: Entry)
    requires j <= |events|
  {
    forall m | 0 <= m <= j :: x in Replay(q, events[..m])
  }

  lemma {:induction false} InsertedHas(q: seq<Entry>, x: Entry, y: Entry)
    ensures y in Inserted(q, x) <==> y in q || y == x
  {
    hide Compare;
    if q != [] && Compare(x.date, q[0].date) >= 0 {
      InsertedHas(q[1..], x, y);
    }
  }

  lemma {:induction false} DroppedHas(q: seq<Entry>, t: Timer, y: Entry)
    ensures y in Dropped(q, t) ==> y in q
  {
    if q != [] && q[0].timer != t {
      DroppedHas(q[1..], t, y);
    }
  }

  lemma NextHas(q: seq<Entry>, e: Event, y: Entry)
    requires y in Next(q, e)
    ensures y in q || (e.Schedule? && !Queued(q, e.timer) && y == Entry(e.timer, After(e.now, Clamped(e.c))))
  {
    hide Compare, TimeLeft, After, Inserted, Dropped, Queued;
    match e
    case Schedule(t, c, now) => InsertedHas(q, Entry(t, After(now, Clamped(c))), y);
    case Invalidate(t) => DroppedHas(q, t, y);
    case Handle(now) =>
  }

  lemma ReplayNext(q: seq<Entry>, events: seq<Event>, j: nat)
    requires j < |events|
    ensures Replay(q, events[..j + 1]) == Next(Replay(q, events[..j]), events[j])
  {
    assert events[..j + 1][..j] == events[..j];
  }

  lemma NoneReplayed(q: seq<Entry>, events: seq<Event>)
    ensures Replay(q, events[..0]) == q
  {
  }

  /** Where an entry of the queue comes from. */
  lemma {:induction false} Origin(q: seq<Entry>, events: seq<Event>, j: nat, x: Entry)
    requires j <= |events| && x in Replay(q, events[..j])
    ensures Always(q, events, j, x) || exists i: nat :: Since(q, events, i, j, x)
  {
    hide Replay, Next, After, Queued;
    if j == 0 {
      NoneReplayed(q, events);
    } else {
      ReplayNext(q, events, j - 1);
      NextHas(Replay(q, events[..j - 1]), events[j - 1], x);
      if x in Replay(q, events[..j - 1]) {
        Origin(q, events, j - 1, x);
        if !Always(q, events, j - 1, x) {
          var i: nat :| Since(q, events, i, j - 1, x);
          assert Since(q, events, i, j, x);
        }
      } else {
        assert Since(q, events, j - 1, j, x);
      }
    }
  }

  /**
     In any run, a timer that fires has either been queued since before the run, or it was put
     in by one of the calls and has been queued since.  Then less than a millisecond of its
     delay is left, unless the clock has been set back behind the time of that call.
     */
  lemma NoneFiresEarly(q: seq<Entry>, events: seq<Event>, j: nat)
    requires j < |events| && Fires(Replay(q, events[..j]), events[j]) != null
    requires forall i | 0 <= i < |events| && !events[i].Invalidate? :: Normal(events[i].now)
    ensures var t, now := Fires(Replay(q, events[..j]), events[j]), events[j].now;
            || (exists date :: Always(q, events, j, Entry(t, date)) && TimeLeft(date, now) == 0)
            || exists i: nat, date :: Since(q, events, i, j, Entry(t, date)) &&
                 var start, c := events[i].now, events[i].c;
                 Micros(start) <= Micros(now) ==> Micros(now) > Micros(start) + (if c < 0 then 0 else 1000 * c) - 1000
  {
    hide Replay, After, TimeLeft, Micros, Queued, Always;
    var r, now := Replay(q, events[..j]), events[j].now;
    var x := r[0];
    Origin(q, events, j, x);
    assert x == Entry(x.timer, x.date);
    if !Always(q, events, j, x) {
      var i: nat :| Since(q, events, i, j, x);
      if Micros(events[i].now) <= Micros(now) {
        DueWhenOver(events[i].now, events[i].c, now);
      }
      assert Since(q, events, i, j, Entry(x.timer, x.date));
    }
  }

  /** A first timer whose delay is over, by no more than 2^31 milliseconds, fires at the next call. */
  lemma FiresInTime(q: seq<Entry>, start: Timeval, c: cms, now: Timeval)
    requires q != [] && q[0].date == After(start, Clamped(c)) && Normal(start) && Normal(now)
    requires var end := Micros(start) + (if c < 0 then 0 else 1000 * c); end <= Micros(now) <= end + 1000 * 0x7fff_ffff
    ensures Fires(q, Handle(now)) == q[0].timer
  {
    hide After, TimeLeft;
    DueWhenOver(start, c, now);
  }

  lemma Later(s: seq<Timer>, k: nat, date: Timeval)
    requires Sorted(s) && k < |s| && Compare(date, s[k].fireDate) < 0
    ensures forall i | k <= i < |s| :: Compare(date, s[i].fireDate) < 0
  {
  }
}
