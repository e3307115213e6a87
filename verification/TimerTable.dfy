/**
 The timers of the transactions: the sorted list of timers, each of which belongs to one
 transaction.  Its operations are those that the engine performs on a finite map.
 */
module TimerTable {
  import opened TimeVal
  import opened TimerQueue
  import opened Transactions

  /** Every known timer belongs to one transaction and the other way around. */
  ghost predicate Paired(timerOf: map<Txn, Timer>, txnOf: map<Timer, Txn>, known: set<Timer>) {
    && (forall t | t in timerOf :: timerOf[t] in known && timerOf[t] in txnOf && txnOf[timerOf[t]] == t)
    && (forall x | x in known :: x in txnOf && txnOf[x] in timerOf && timerOf[txnOf[x]] == x)
  }

  lemma OneMorePair(timerOf: map<Txn, Timer>, txnOf: map<Timer, Txn>, known: set<Timer>, t: Txn, x: Timer)
    requires Paired(timerOf, txnOf, known) && t !in timerOf && x !in known
    ensures Paired(timerOf[t := x], txnOf[x := t], known + {x})
  {
  }

  class Table {
    const queue: Queue
    /** The timer inside every transaction, and the transaction around every timer. */
    var timerOf: map<Txn, Timer>
    var txnOf: map<Timer, Txn>

    ghost predicate Valid()
      reads this, queue, queue.known, queue.list
    {
      Paired(timerOf, txnOf, queue.known) && queue.Valid()
    }

    /** The map that the engine works with: the fire dates of the queued timers. */
    ghost function View(): map<Txn, Timeval>
      reads this`timerOf, queue`list, timerOf.Values
    {
      map t | t in timerOf && timerOf[t] in queue.list :: timerOf[t].fireDate
    }

    constructor ()
      ensures Valid() && View() == map[] && timerOf == map[] && fresh(queue)
    {
      queue := new Queue();
      timerOf, txnOf := map[], map[];
    }

    /** The timer of a transaction that is set up. */
    method Init(t: Txn)
      requires Valid() && t !in timerOf
      modifies this, queue`known
      ensures Valid() && View() == old(View()) && timerOf.Keys == old(timerOf.Keys) + {t}
    {
      hide queue.Valid, Paired;
      ListIsKnown();
      ghost var was := queue.known;
      var timer := new Timer(false);
      queue.Init(timer);
      OneMorePair(timerOf, txnOf, was, t, timer);
      timerOf := timerOf[t := timer];
      txnOf := txnOf[timer := t];
    }

    method Schedule(t: Txn, c: cms, now: Timeval) returns (ok: bool)
      requires Valid() && t in timerOf && Normal(now)
      modifies queue, queue.known
      ensures Valid()
      ensures ok <==> t !in old(View())
      ensures View() == if ok then old(View())[t := After(now, Clamped(c))] else old(View())
      ensures ok ==> Micros(View()[t]) == Micros(now) + if c < 0 then 0 else 1000 * c
    {
      hide queue.Valid, After, Clamped, Micros;
      DelayIsExact(now, c);
      ghost var k;
      ok, k := queue.Schedule(timerOf[t], c, now);
    }

    method Invalidate(t: Txn)
      requires Valid() && t in timerOf
      modifies queue, queue.known
      ensures Valid() && View() == old(View()) - {t}
    {
      hide queue.Valid;
      var cancelled := queue.Invalidate(timerOf[t]);
    }

    lemma ListIsKnown()
      requires Valid()
      ensures forall x | x in queue.list :: x in queue.known
      ensures forall x | x in queue.list :: Normal(x.fireDate)
    {
    }

    /** Takes the timer off that is due first, if any is due, and tells whose it is. */
    method Fire(now: Timeval) returns (t: Txn?)
      requires Valid() && Normal(now)
      modifies queue, queue.known
      ensures Valid()
      ensures t == null ==> View() == old(View())
      ensures t == null ==> forall u | u in View() && Earliest(u) ::
                && TimeLeft(View()[u], now) > 0
                && ((forall v | v in View() :: TrueLeft(View()[v], now) > 0) <==> SameDue(View()[u], now))
      ensures t != null ==>
                && t in old(View()) && TimeLeft(old(View())[t], now) == 0 && View() == old(View()) - {t}
                && old(Earliest(t))
    {
      hide queue.Valid, TimeLeft, TrueLeft, SameDue, Compare;
      ListIsKnown();
      if queue.list != [] {
        FirstIsEarliest();
      }
      var fired := queue.HandleTimers(now);
      t := null;
      if fired != null {
        t := txnOf[fired];
      } else {
        NoneIsDue(now);
      }
    }

    /** No timer is due before that of u. */
    ghost predicate Earliest(u: Txn)
      requires u in View()
      reads this`timerOf, queue`list, timerOf.Values
    {
      forall v | v in View() :: Compare(View()[u], View()[v]) <= 0
    }

    /** When the first timer is not found due, the others tell whether one is due in truth. */
    lemma NoneIsDue(now: Timeval)
      requires Valid() && Normal(now) && (queue.list != [] ==> TimeLeft(queue.list[0].fireDate, now) > 0)
      ensures forall u | u in View() && Earliest(u) ::
                && TimeLeft(View()[u], now) > 0
                && ((forall v | v in View() :: TrueLeft(View()[v], now) > 0) <==> SameDue(View()[u], now))
    {
      hide TimeLeft, TrueLeft, SameDue, Compare;
      forall u | u in View() && Earliest(u)
        ensures TimeLeft(View()[u], now) > 0
        ensures (forall v | v in View() :: TrueLeft(View()[v], now) > 0) <==> SameDue(View()[u], now)
      {
        OneEarliest(u);
        ListIsKnown();
        CutLeft(View()[u], now, MAX_TIMEOUT);
        forall v | v in View()
          ensures TrueLeft(View()[u], now) <= TrueLeft(View()[v], now)
        {
          TrueLeftMonotone(View()[u], View()[v], now);
        }
      }
    }

    lemma FirstIsEarliest()
      requires Valid() && queue.list != []
      ensures queue.list[0] in txnOf && txnOf[queue.list[0]] in View() && Earliest(txnOf[queue.list[0]])
    {
      hide Compare;
      HeadIsEarliest();
      ListIsKnown();
      var head := queue.list[0];
      assert head in queue.list && txnOf[head] in View() && View()[txnOf[head]] == head.fireDate;
      forall v | v in View()
        ensures Compare(head.fireDate, View()[v]) <= 0
      {
        var i :| 0 <= i < |queue.list| && queue.list[i] == timerOf[v];
        CompareSwaps(head.fireDate, head.fireDate);
      }
    }

    /** The date of an earliest timer is that of the head of the list. */
    lemma OneEarliest(u: Txn)
      requires Valid() && u in View() && Earliest(u)
      ensures queue.list != [] && View()[u] == queue.list[0].fireDate
    {
      HeadIsEarliest();
      ListIsKnown();
      var head := queue.list[0];
      assert head in queue.list && txnOf[head] in View() && View()[txnOf[head]] == head.fireDate;
      CompareSwaps(View()[u], head.fireDate);
    }

    lemma HeadIsEarliest()
      requires Valid()
      ensures forall i | 0 < i < |queue.list| :: Compare(queue.list[0].fireDate, queue.list[i].fireDate) <= 0
    {
    }
  }
}
