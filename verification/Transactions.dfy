/**
 The transactions of an instance: the tree of the active ones by message id (a finite map,
 which is what Btree proves of the tree), the timers that are queued for them, and the
 transaction whose callback is being run.
 */
module Transactions {
  import opened TimeVal
  import MsgId
  import opened Power
  import opened Retransmit

  type uint16 = MsgId.uint16
  type uint32 = MsgId.uint32
  type Status = int

  const OK: Status := 0
  const FAILURE: Status := -1
  const TIMEOUT: Status := -8
  const WAIT_FOR_DNS: Status := -20
  const DUPE: Status := -22
  const RESET: Status := -23

  const EXCHANGE_LIFETIME: cms := 271250
  const KEEPALIVE_INTERVAL: cms := 45000
  const DEFAULT_MAX_AGE: cms := 30000
  const DISTANT_FUTURE: cms := 0x7fff_ffff

  /** What a transaction's callback has been told. */
  datatype Call = Reported(status: Status) | Invalidated

  /** What the tree links of a transaction that is not in the tree still point to. */
  datatype Kept = Kept(children: bool, parent: bool)

  const NONE := Kept(false, false)

  class Txn {
    // ALWAYS_INVALIDATE, OBSERVE, KEEPALIVE, NO_AUTO_END
    const always: bool
    const observe: bool
    const keepAlive: bool
    const noAutoEnd: bool
    /** Whether it is freed when it ends. */
    const shouldDealloc: bool
    const multicast: bool
    const peer: int
    const sentRequest: bool

    var active: bool
    var msgId: uint16
    var token: uint16
    var attemptCount: nat
    var waiting: bool
    /** Whether the resend function and the callback are still set. */
    var resends: bool
    var callback: bool
    var lastObserve: uint32
    var nextBlock2: uint32
    var expiration: Timeval
    /** Whether it has been started since it was set up. */
    var begun: bool
    var freed: bool
    /** The tree links that were left when another one took its place. */
    var kept: Kept
    /** Whether it had a callback when it was started, and what that has been told since. */
    ghost var listens: bool
    ghost var log: seq<Call>
    /** The ids under which it has been sent, once for every call of the resend function. */
    ghost var sent: seq<uint16>

    constructor (always: bool, observe: bool, keepAlive: bool, noAutoEnd: bool,
                 resends: bool, callback: bool, multicast: bool, peer: int, sentRequest: bool,
                 shouldDealloc: bool)
      ensures Fresh() && Contract() && this.resends == resends && this.callback == callback
      ensures this.always == always && this.observe == observe && this.keepAlive == keepAlive
      ensures this.noAutoEnd == noAutoEnd && this.shouldDealloc == shouldDealloc
    {
      this.always, this.observe, this.keepAlive, this.noAutoEnd := always, observe, keepAlive, noAutoEnd;
      this.multicast, this.peer, this.sentRequest := multicast, peer, sentRequest;
      this.shouldDealloc, freed, kept := shouldDealloc, false, NONE;
      this.resends, this.callback := resends, callback;
      active, msgId, token, attemptCount, waiting := false, 0, 0, 0, false;
      lastObserve, nextBlock2, expiration := 0, 0, Timeval(0, 0);
      begun, listens, log, sent := false, callback, [], [];
    }

    ghost predicate Fresh()
      reads this`active, this`msgId, this`attemptCount, this`callback, this`begun, this`listens, this`log, this`freed, this`kept
    {
      !active && !begun && !freed && kept == NONE && log == [] && callback == listens && msgId == 0 && attemptCount == 0
    }

    ghost function Looks(): Look
      reads this
    {
      Look(active, msgId, freed, kept, callback, resends, log, sent)
    }

    /** Ends at the first answer and is not told about the end separately. */
    predicate Plain() {
      !always && !observe && !noAutoEnd
    }

    /** What holds while it is active and no matter what ends it next. */
    ghost predicate Closable()
      reads this`active, this`msgId, this`attemptCount, this`callback, this`begun, this`listens, this`log, this`freed, this`kept
    {
      && begun
      && Invalidated !in log
      && (!listens ==> !callback && log == [])
      && (listens && always ==> callback)
      && (listens && Plain() ==> |log| + (if callback then 1 else 0) == 1)
      && attemptCount <= MAX_ATTEMPTS
      && !freed
    }

    /** What its callback is promised. */
    ghost predicate Contract()
      reads this`active, this`msgId, this`attemptCount, this`callback, this`begun, this`listens, this`log, this`freed, this`kept
    {
      && (active ==> Closable() && kept == NONE)
      && (active && listens && Plain() ==> callback && log == [])
      && (!begun ==> Fresh())
      && (!active ==> forall i | 0 <= i < |log| - 1 :: log[i] != Invalidated)
      && (begun && !active && listens && always ==> log != [] && log[|log| - 1] == Invalidated)
      && (begun && !active && listens && Plain() ==> |log| == 1)
      && (!listens ==> log == [])
      && (freed ==> begun && !active)
    }
  }

  /** A packet that has come in as a response, as far as it matters here. */
  datatype Response = Response(
    tt: nat, code: nat, msgId: uint16, tokenLen: nat, tokenId: uint16, from: int,
    hasObserve: bool, observeValue: uint32, maxAge: cms, block2: uint32)

  const CONFIRMABLE := 0
  const NONCONFIRMABLE := 1
  const ACK := 2
  const RESET_TYPE := 3
  const EMPTY := 0

  /** Timers without that of t. */
  lemma WithoutTimer(timers: map<Txn, Timeval>, t: Txn, at: Timeval)
    ensures timers[t := at] - {t} == timers - {t} && (timers - {t}) - {t} == timers - {t}
    ensures timers - ({t} + {}) == timers - {t}
  {
  }

  lemma BegunTimers(timers: map<Txn, Timeval>, t: Txn, at: Timeval, gone: set<Txn>)
    requires t !in gone
    ensures timers[t := at] - gone - {t} == timers - ({t} + gone)
  {
  }

  /** Whose timers are as before when only that of t and those of some others have changed. */
  lemma OtherTimers(now: map<Txn, Timeval>, was: map<Txn, Timeval>, t: Txn, gone: set<Txn>, x: Txn)
    requires now - {t} == was - ({t} + gone) && x != t
    ensures x in gone ==> x !in now
    ensures x !in gone ==> (x in now <==> x in was) && (x in now ==> now[x] == was[x])
  {
    assert x in now <==> x in now - {t};
    assert x in was - ({t} + gone) <==> x in was && x !in gone;
  }

  lemma RescheduledTimer(timers: map<Txn, Timeval>, gone: set<Txn>, all: set<Txn>, t: Txn, at: Timeval)
    requires gone == all - {t}
    ensures ((timers - gone) - {t})[t := at] - {t} == timers - ({t} + all)
    ensures (timers - gone)[t := at] - {t} == timers - ({t} + all)
  {
  }

  function Lifetime(expiration: cms): cms {
    if expiration < 0 then EXCHANGE_LIFETIME else expiration
  }

  /** What the code of the user does while the instance handles one event. */
  datatype User = User(auth: Status, resend: Status, answer: Status, endsItself: bool)

  class Engine {
    var transactions: map<uint16, Txn>
    /** The fire date of every queued timer. */
    var timers: map<Txn, Timeval>
    var current: Txn?
    /** An item with links of its own has been hung into the tree. */
    var broken: bool
    const ids: MsgId.Ids
    ghost var known: set<Txn>

    // ----- what holds between calls

    ghost predicate Tree()
      reads this`transactions, this`known, known`active, known`msgId, known`freed
    {
      forall id | id in transactions ::
        && transactions[id] in known && transactions[id].active && transactions[id].msgId == id
        && !transactions[id].freed
    }

    ghost predicate InTree(x: Txn)
      reads this`transactions, x`msgId
    {
      x.msgId in transactions && transactions[x.msgId] == x
    }

    ghost predicate Ok(x: Txn)
      reads this`transactions, this`timers
      reads x`active, x`msgId, x`attemptCount, x`callback, x`begun, x`listens, x`log, x`freed, x`kept
    {
      && (x.active ==> InTree(x))
      && (x in timers ==> x.active)
      && (x.active && !x.noAutoEnd ==> x in timers)
      && x.Contract()
    }

    /** Everything is in order, except perhaps with t. */
    ghost predicate Others(t: Txn)
      reads this`broken, this`transactions, this`timers, this`known
      reads known`active, known`msgId, known`attemptCount, known`callback, known`begun, known`listens, known`log, known`freed, known`kept
    {
      && !broken && Tree()
      && t in known
      && timers.Keys <= known
      && forall x | x in known && x != t :: Ok(x)
    }

    /** t is active and everything is in order, except that its timer may be off and that it may have been answered. */
    ghost predicate Open(t: Txn)
      reads this`broken, this`transactions, this`timers, this`known
      reads known`active, known`msgId, known`attemptCount, known`callback, known`begun, known`listens, known`log, known`freed, known`kept
    {
      Others(t) && t.active && InTree(t) && t.Closable() && t.kept == NONE
    }

    ghost predicate Valid()
      reads this`broken, this`transactions, this`timers, this`known
      reads known`active, known`msgId, known`attemptCount, known`callback, known`begun, known`listens, known`log, known`freed, known`kept
    {
      && !broken && Tree()
      && timers.Keys <= known
      && forall x | x in known :: Ok(x)
    }

    constructor (ids: MsgId.Ids)
      ensures Valid() && known == {} && transactions == map[] && this.ids == ids
    {
      transactions, timers, current, broken, known := map[], map[], null, false, {};
      this.ids := ids;
    }

    // ----- the parts

    /** Takes its timer off, clears it, tells its callback, and frees it if it was allocated here. */
    method Delete(t: Txn)
      requires !t.freed
      modifies this`timers, t`active, t`log, t`freed
      ensures timers == old(timers) - {t} && !t.active && t.freed == t.shouldDealloc
      ensures t.log == old(t.log) + if t.callback then [Invalidated] else []
    {
      timers := timers - {t};
      t.active := false;
      if t.callback {
        t.log := t.log + [Invalidated];
      }
      if t.shouldDealloc {
        t.freed := true;
      }
    }

    method End(t: Txn)
      requires (Valid() && t in known && !t.freed) || Open(t)
      modifies this`transactions, this`timers, this`current, t`active, t`log, t`freed
      ensures Valid() && !t.active && t.freed == (if old(t.active) then t.shouldDealloc else old(t.freed))
      ensures current == if old(current) == t then null else old(current)
      ensures !old(t.active) ==> transactions == old(transactions) && timers == old(timers) && t.log == old(t.log)
      ensures old(t.active) ==> transactions == old(transactions) - {t.msgId} && timers == old(timers) - {t}
      ensures old(t.active) ==> t.log == old(t.log) + if t.callback then [Invalidated] else []
    {
      hide Valid, Open;
      Either(t);
      if t == current {
        current := null;
      }
      if t.active {
        Erase(t);
      }
    }

    lemma Either(t: Txn)
      requires (Valid() && t in known && !t.freed) || Open(t)
      ensures if t.active then Open(t) else Valid()
    {
    }

    /** The end of an active transaction: what the tree has under its id, which is itself, is deleted. */
    method Erase(t: Txn)
      requires Open(t) && t.active
      modifies this`transactions, this`timers, t`active, t`log, t`freed
      ensures Valid() && !t.active && t.freed == t.shouldDealloc
      ensures transactions == old(transactions) - {t.msgId} && timers == old(timers) - {t}
      ensures t.log == old(t.log) + if t.callback then [Invalidated] else []
    {
      t.active := false;
      if t.msgId in transactions {
        var victim := transactions[t.msgId];
        transactions := transactions - {t.msgId};
        Delete(victim);
        assert t.Contract();
        forall x | x in known && x != t
          ensures Ok(x)
        {
          assert old(Ok(x));
        }
      }
    }

    /** Calls the callback, if there is one; the user may end the transaction while it runs. */
    method Call(t: Txn, status: Status, drop: bool, endsItself: bool)
      requires Open(t) && (drop ==> !t.always) && (t.Plain() ==> drop)
      requires t.listens && t.Plain() ==> t.callback
      modifies this`transactions, this`timers, this`current, t`active, t`log, t`freed, t`callback
      ensures var called := old(t.callback);
              && t.callback == (called && !drop)
              && (called && endsItself ==>
                    && Valid() && !t.active && current == (if old(current) == t then null else old(current))
                    && transactions == old(transactions) - {t.msgId} && timers == old(timers) - {t}
                    && t.log == old(t.log) + [Reported(status)] + if drop then [] else [Invalidated])
              && (!(called && endsItself) ==>
                    && Open(t) && current == old(current)
                    && transactions == old(transactions) && timers == old(timers)
                    && t.log == old(t.log) + if called then [Reported(status)] else [])
    {
      var called := t.callback;
      if drop {
        t.callback := false;
      }
      if called {
        t.log := t.log + [Reported(status)];
        if endsItself {
          End(t);
        }
      }
    }

    method Schedule(t: Txn, c: cms, now: Timeval) returns (status: Status)
      modifies this`timers
      ensures old(Open(t)) ==> Open(t)
      ensures old(Pending(t)) ==> Pending(t)
      ensures status == if t in old(timers) then -1 else 0
      ensures timers == if t in old(timers) then old(timers) else old(timers)[t := After(now, Clamped(c))]
    {
      status := FAILURE;
      if t !in timers {
        var at := ConvertCmsToTimeval(now, Clamped(c));
        timers := timers[t := at];
        status := OK;
      }
    }

    /** The transaction that has this id, if there is one. */
    function Holder(id: uint16): set<Txn>
      reads this`transactions
    {
      if id in transactions then {transactions[id]} else {}
    }

    /**
     Whether t can be entered under an id: it takes the links of the transaction that has this
     id; but hung into an empty place it must have no children, nor, as the only one, a parent.
     */
    predicate Clean(t: Txn, id: uint16)
      reads this`transactions, t`kept
    {
      id in transactions || (!t.kept.children && (transactions == map[] ==> !t.kept.parent))
    }

    /**
     Enters t under its message id; a transaction that has this id already is thrown out.  Its
     links stay as they are: some are set, unless it was alone, and which ones is up to the
     shape of the tree.
     */
    method Insert(t: Txn) returns (ghost victim: Txn?)
      requires t.msgId in transactions ==> transactions[t.msgId] != t && !transactions[t.msgId].freed
      modifies this`broken, this`transactions, this`timers, t`kept
      modifies Holder(t.msgId)`active, Holder(t.msgId)`log, Holder(t.msgId)`freed, Holder(t.msgId)`kept
      ensures Holder(t.msgId) == {t} && victim != t && t.kept == NONE
      ensures broken == (old(broken) || !old(Clean(t, t.msgId)))
      ensures old(Holder(t.msgId)) == if victim == null then {} else {victim}
      ensures transactions == old(transactions)[t.msgId := t]
      ensures timers == old(timers) - old(Holder(t.msgId))
      ensures victim != null ==> !victim.active && victim.freed == victim.shouldDealloc
      ensures victim != null ==> victim.log == old(victim.log) + if victim.callback then [Invalidated] else []
      ensures victim != null ==> (victim.kept == NONE <==> old(transactions).Keys == {t.msgId})
    {
      victim := null;
      if t.msgId in transactions {
        var replaced := transactions[t.msgId];
        victim := replaced;
        var children: bool, parent: bool := *, *;
        if transactions.Keys == {t.msgId} {
          children, parent := false, false;
        } else if !children {
          parent := true;
        }
        replaced.kept := Kept(children, parent);
        transactions := transactions[t.msgId := t];
        Delete(replaced);
      } else {
        broken := broken || t.kept.children || (transactions == map[] && t.kept.parent);
        transactions := transactions[t.msgId := t];
      }
      t.kept := NONE;
    }

    /** t is ready to be entered into the tree; its timer may be off. */
    ghost predicate Pending(t: Txn)
      reads this`broken, this`transactions, this`timers, this`known
      reads known`active, known`msgId, known`attemptCount, known`callback, known`begun, known`listens, known`log, known`freed, known`kept
    {
      Others(t) && t.active && t.Closable() && t !in transactions.Values
    }

    /** Some active transaction is not in the tree. */
    ghost predicate Lost(x: Txn)
      reads this`transactions, this`known, x`active, x`msgId
    {
      x in known && x.active && !InTree(x)
    }

    method Enter(t: Txn) returns (ghost victim: Txn?)
      requires Tree() && t in known && t !in transactions.Values
      modifies this`broken, this`transactions, this`timers, t`kept
      modifies Holder(t.msgId)`active, Holder(t.msgId)`log, Holder(t.msgId)`freed, Holder(t.msgId)`kept
      ensures old(Holder(t.msgId)) == if victim == null then {} else {victim}
      ensures broken == (old(broken) || !old(Clean(t, t.msgId)))
      ensures transactions == old(transactions)[t.msgId := t]
      ensures timers == old(timers) - old(Holder(t.msgId))
      ensures victim != null ==> victim.log == old(victim.log) + if victim.callback then [Invalidated] else []
      ensures victim != null ==> !victim.active && victim != t && victim.freed == victim.shouldDealloc
      ensures victim != null ==> (victim.kept == NONE <==> old(transactions).Keys == {t.msgId})
      ensures old(Pending(t) && Clean(t, t.msgId)) ==> Open(t)
      ensures forall x | x in known && x != t :: old(Lost(x) && x.msgId !in transactions) ==> Lost(x)
    {
      hide Clean;
      victim := Insert(t);
    }

    method Rename(t: Txn, id: uint16)
      requires Open(t)
      modifies this`transactions, t`msgId
      ensures Pending(t) && t.kept == NONE && t.msgId == id && transactions == old(transactions) - {old(t.msgId)}
      ensures old(t.Contract()) ==> t.Contract()
    {
      transactions := transactions - {t.msgId};
      t.msgId := id;
      forall x | x in known && x != t
        ensures Ok(x)
      {
        assert old(Ok(x));
      }
    }

    /** Gives an active transaction another id. */
    method NewMsgId(t: Txn, id: uint16) returns (ghost victim: Txn?)
      requires Open(t)
      modifies this`broken, this`transactions, this`timers, t`msgId, t`kept, (Holder(id) - {t})`active, (Holder(id) - {t})`log, (Holder(id) - {t})`freed, (Holder(id) - {t})`kept
      ensures Open(t) && t.msgId == id && (old(t.Contract()) ==> t.Contract())
      ensures old(Holder(id) - {t}) == if victim == null then {} else {victim}
      ensures transactions == (old(transactions) - {old(t.msgId)})[id := t]
      ensures timers == old(timers) - old(Holder(id) - {t})
      ensures forall x | x in old(Holder(id) - {t}) ::
                && !x.active && x.freed == x.shouldDealloc
                && x.log == old(x.log) + if x.callback then [Invalidated] else []
      ensures t.kept == NONE
    {
      if t.active {
        hide Open;
        Rename(t, id);
        victim := Enter(t);
      }
    }

    method Tickle(t: Txn, now: Timeval)
      requires Valid() && t in known
      modifies this`timers
      ensures timers == old(timers)[t := After(now, 0)]
      ensures Valid() <==> t.active
    {
      timers := timers - {t};
      var status := Schedule(t, 0, now);
    }

    /** The first delay of a transaction. */
    function FirstDelay(t: Txn, expiration: cms): cms
      reads t`resends
    {
      var delay := if t.resends then 0 else expiration;
      if t.keepAlive && delay > KEEPALIVE_INTERVAL then KEEPALIVE_INTERVAL else delay
    }

    /**
     One that sends a request sends it at once.  One that only waits fires when its time is up,
     but a kept-alive one no later than after 45 seconds.
     */
    lemma FirstFiring(t: Txn, expiration: cms, now: Timeval)
      requires expiration >= 0
      ensures var at := After(now, Clamped(FirstDelay(t, expiration)));
              && (t.resends ==> at == After(now, 0))
              && (!t.resends && !t.keepAlive ==> at == After(now, expiration))
              && (!t.resends && t.keepAlive ==> at == After(now, if expiration > 45000 then 45000 else expiration))
              && (t.keepAlive ==> Micros(now) <= Micros(at) <= Micros(now) + 1000 * 45000)
    {
      hide After, Micros;
      DelayIsExact(now, FirstDelay(t, expiration));
    }

    /** The fields of a transaction that starts. */
    method Reset(t: Txn, lifetime: cms, now: Timeval, random: uint32)
      modifies ids`last, t
      ensures t.active && t.begun && t.token == t.msgId == ids.last == MsgId.NextId(old(ids.last), random)
      ensures t.attemptCount == 0 && !t.waiting && t.lastObserve == 0 && t.nextBlock2 == 0
      ensures t.log == [] && t.listens == t.callback == old(t.callback) && t.resends == old(t.resends)
      ensures t.freed == old(t.freed) && t.kept == old(t.kept) && t.expiration == After(now, lifetime)
      ensures t.sent == old(t.sent)
    {
      t.token := ids.Next(random);
      t.msgId := t.token;
      t.waiting := false;
      t.attemptCount := 0;
      t.lastObserve := 0;
      t.nextBlock2 := 0;
      t.active := true;
      t.begun := true;
      t.listens, t.log := t.callback, [];
      t.expiration := ConvertCmsToTimeval(now, lifetime);
    }

    /** Takes what has the old id of t out of the tree and sets the fields of t. */
    method Renew(t: Txn, lifetime: cms, now: Timeval, random: uint32) returns (ghost stale: set<Txn>)
      requires Valid() && t in known && !t.active && !t.freed
      modifies this`transactions, ids`last, t
      ensures !broken && t !in timers
      ensures stale == old(Holder(t.msgId)) && transactions == old(transactions) - {old(t.msgId)}
      ensures stale == {} ==> Pending(t)
      ensures t.kept == old(t.kept) && !t.freed
      ensures Tree() && t !in old(transactions).Values
      ensures forall x | x in stale :: x in known && Lost(x) && x != t && x.msgId !in transactions
      ensures t.active && t.token == t.msgId == ids.last == MsgId.NextId(old(ids.last), random)
      ensures t.attemptCount == 0 && !t.waiting && t.lastObserve == 0 && t.nextBlock2 == 0
      ensures t.log == [] && t.listens == t.callback == old(t.callback)
      ensures t.resends == old(t.resends)
      ensures t.expiration == After(now, lifetime)
      ensures t.sent == old(t.sent)
    {
      hide After, MsgId.NextId;
      stale := Holder(t.msgId);
      transactions := transactions - {t.msgId};
      Reset(t, lifetime, now, random);
    }

    /** Everything that Begin does before t is entered. */
    method Prepare(t: Txn, expiration: cms, now: Timeval, random: uint32) returns (ghost stale: set<Txn>)
      requires Valid() && t in known && !t.active && !t.freed
      modifies this`transactions, this`timers, ids`last, t
      ensures stale == old(Holder(t.msgId)) && transactions == old(transactions) - {old(t.msgId)}
      ensures stale == {} ==> Pending(t)
      ensures t.kept == old(t.kept) && !t.freed
      ensures Tree() && t !in old(transactions).Values
      ensures forall x | x in stale :: x in known && Lost(x) && x != t && x.msgId !in transactions
      ensures t.active && t.token == t.msgId == ids.last == MsgId.NextId(old(ids.last), random)
      ensures t.attemptCount == 0 && !t.waiting && t.lastObserve == 0 && t.nextBlock2 == 0
      ensures t.log == [] && t.listens == t.callback == old(t.callback)
      ensures t.resends == old(t.resends)
      ensures t.expiration == After(now, Lifetime(expiration))
      ensures timers == old(timers)[t := After(now, Clamped(FirstDelay(t, Lifetime(expiration))))]
      ensures !broken
      ensures t.sent == old(t.sent)
    {
      hide After, MsgId.NextId, Clamped, FirstDelay, Pending, Lost, Valid, Tree;
      stale := Renew(t, Lifetime(expiration), now, random);
      var status := Schedule(t, FirstDelay(t, Lifetime(expiration)), now);
    }

    lemma BrokenIsNotValid()
      requires broken
      ensures !Valid()
    {
    }

    lemma Started(t: Txn)
      requires Open(t) && t.log == [] && t.listens == t.callback
      ensures t.Contract() && t.kept == NONE
    {
    }

    lemma LostBreaks(x: Txn)
      requires Lost(x)
      ensures !Valid()
    {
    }

    /**
     Starts a transaction that is not active.  First it takes whatever has the old id of t out
     of the tree, which is harmless exactly when nothing has.  Then it enters t with the links
     that t has, which is harmless exactly when t is clean.
     */
    method Begin(t: Txn, expiration: cms, now: Timeval, random: uint32) returns (ghost victim: Txn?)
      requires Valid() && t in known && !t.active && !t.freed
      modifies this`broken, this`transactions, this`timers, ids`last, t
      modifies Holder(MsgId.NextId(ids.last, random))`active, Holder(MsgId.NextId(ids.last, random))`log, Holder(MsgId.NextId(ids.last, random))`freed, Holder(MsgId.NextId(ids.last, random))`kept
      ensures Valid() <==> old(t.msgId !in transactions && Clean(t, MsgId.NextId(ids.last, random)))
      ensures t.active && t.token == t.msgId == ids.last == MsgId.NextId(old(ids.last), random)
      ensures transactions == (old(transactions) - {old(t.msgId)})[t.msgId := t]
      ensures var id := MsgId.NextId(old(ids.last), random);
              victim == if id != old(t.msgId) && id in old(transactions) then old(transactions)[id] else null
      ensures victim != t && !t.freed && (Valid() ==> t.kept == NONE)
      ensures victim != null ==> !victim.active && victim !in timers && victim.freed == victim.shouldDealloc
      ensures victim != null && old(t.msgId) !in old(transactions) ==>
                (victim.kept == NONE <==> old(transactions).Keys == {t.msgId})
      ensures victim != null ==> victim.log == old(victim.log) + if victim.callback then [Invalidated] else []
      ensures t.attemptCount == 0 && !t.waiting && t.lastObserve == 0 && t.nextBlock2 == 0
      ensures t.log == [] && t.listens == t.callback == old(t.callback)
      ensures t.resends == old(t.resends)
      ensures t.expiration == After(now, if expiration < 0 then 271250 else expiration)
      ensures t in timers && (t.resends ==> timers[t] == After(now, 0))
      ensures !t.resends && !t.keepAlive ==> timers[t] == t.expiration
      ensures t.keepAlive ==> Micros(now) <= Micros(timers[t]) <= Micros(now) + 1000 * 45000
      ensures !t.resends && t.keepAlive && 0 <= expiration <= 45000 ==> timers[t] == t.expiration
      ensures !t.resends && t.keepAlive && !(0 <= expiration <= 45000) ==> timers[t] == After(now, 45000)
      ensures t.sent == old(t.sent)
      ensures timers - {t} == old(timers) - ({t} + if victim == null then {} else {victim})
    {
      hide After, Micros, MsgId.NextId, Pending, FirstDelay, Clamped, Valid, Open, Lost, Tree;
      ghost var stale := Prepare(t, expiration, now, random);
      FirstFiring(t, Lifetime(expiration), now);
      assert stale == {} ==> transactions == old(transactions);
      ghost var at := timers[t];
      victim := Enter(t);
      BegunTimers(old(timers), t, at, if victim == null then {} else {victim});
      InOrder(t, stale);
    }

    lemma InOrder(t: Txn, stale: set<Txn>)
      requires forall x | x in stale :: Lost(x)
      requires stale == {} && !broken ==> Open(t) && t.log == [] && t.listens == t.callback && t in timers
      ensures Valid() <==> stale == {} && !broken
      ensures Valid() ==> t.kept == NONE
    {
      hide Valid, Open, Lost;
      if stale != {} {
        var x :| x in stale;
        LostBreaks(x);
      } else if broken {
        BrokenIsNotValid();
      } else {
        Started(t);
        Settled(t);
      }
    }

    // ----- the timer of a transaction fires

    /** Whether a firing asks the user to send the request (again). */
    predicate Resending(t: Txn, now: Timeval)
      reads t
    {
      && (TimeLeft(t.expiration, now) > 0 || t.attemptCount == 0)
      && !(t.attemptCount == 0 && t.waiting && !t.keepAlive)
      && t.resends
    }

    /** What a firing comes to; anything but OK is for the callback. */
    function Outcome(t: Txn, now: Timeval, user: User): Status
      reads t
    {
      if TimeLeft(t.expiration, now) > 0 || t.attemptCount == 0 then
        if Resending(t, now) then (if user.resend == WAIT_FOR_DNS then OK else user.resend)
        else if t.attemptCount == 0 && t.waiting && !t.keepAlive then OK
        else TIMEOUT
      else if t.observe then OK
      else TIMEOUT
    }

    /** The delay until the next firing. */
    function NextDelay(t: Txn, now: Timeval, jitter: uint32, user: User): cms
      reads t
    {
      var left := TimeLeft(t.expiration, now);
      var delay := if t.keepAlive && left > KEEPALIVE_INTERVAL then KEEPALIVE_INTERVAL else left;
      if !Resending(t, now) then delay
      else if user.resend == OK then Min(delay, Delay(t.attemptCount, jitter))
      else if user.resend == WAIT_FOR_DNS then 100
      else delay
    }

    function NextAttempt(t: Txn, now: Timeval, user: User): nat
      reads t
    {
      if !Resending(t, now) then (if t.attemptCount == 0 then 1 else t.attemptCount)
      else if user.resend == OK && t.attemptCount != MAX_ATTEMPTS then t.attemptCount + 1
      else t.attemptCount
    }

    /** What a firing does, case by case. */
    lemma Firings(t: Txn, now: Timeval, jitter: uint32, user: User)
      ensures var late := t.attemptCount > 0 && TimeLeft(t.expiration, now) == 0;
              var waits := t.attemptCount == 0 && t.waiting && !t.keepAlive;
              && (Restarting(t, now) <==> late && t.observe)
              && (Resending(t, now) <==> !late && !waits && t.resends)
              && (late ==> Outcome(t, now, user) == if t.observe then 0 else -8)
              && (!late && waits ==> Outcome(t, now, user) == 0)
              && (!late && !waits && !t.resends ==> Outcome(t, now, user) == -8)
              && (!late && !waits && t.resends ==> Outcome(t, now, user) == if user.resend == -20 then 0 else user.resend)
      ensures Resending(t, now) && user.resend == 0 ==> NextAttempt(t, now, user) == if t.attemptCount == 15 then 15 else t.attemptCount + 1
      ensures Resending(t, now) && user.resend != 0 ==> NextAttempt(t, now, user) == t.attemptCount
      ensures !Resending(t, now) ==> NextAttempt(t, now, user) == if t.attemptCount == 0 then 1 else t.attemptCount
      ensures var next, left := NextDelay(t, now, jitter, user), TimeLeft(t.expiration, now);
              if Resending(t, now) && user.resend == -20 then next == 100
              else
                && next <= left && (t.keepAlive ==> next <= 45000)
                && (Resending(t, now) && user.resend == 0 ==> next <= Delay(t.attemptCount, jitter))
                && (|| next == left || (t.keepAlive && next == 45000)
                    || (Resending(t, now) && user.resend == 0 && next == Delay(t.attemptCount, jitter)))
    {
      hide TimeLeft, Delay;
    }

    method Retry(t: Txn, left: cms, now: Timeval, jitter: uint32, user: User) returns (status: Status, resent: bool)
      requires Open(t) && t !in timers && t.Contract()
      requires left == TimeLeft(t.expiration, now) && (left > 0 || t.attemptCount == 0)
      modifies this`timers, t`attemptCount, t`sent
      ensures Open(t) && t.Contract()
      ensures t.sent == old(t.sent) + if resent then [t.msgId] else []
      ensures status == old(Outcome(t, now, user)) && resent == old(Resending(t, now))
      ensures timers == old(timers)[t := After(now, Clamped(old(NextDelay(t, now, jitter, user))))]
      ensures t.attemptCount == old(NextAttempt(t, now, user))
    {
      hide After, TimeLeft, Delay;
      status := TIMEOUT;
      resent := false;
      var delay := left;
      if t.keepAlive && delay > KEEPALIVE_INTERVAL {
        delay := KEEPALIVE_INTERVAL;
      }
      if delay <= 0 {
        delay := 0;
      }
      if t.attemptCount == 0 && t.waiting && !t.keepAlive {
        status := OK;
      }
      if status == TIMEOUT && t.resends {
        resent := true;
        t.sent := t.sent + [t.msgId];
        status := user.resend;
        if status == OK {
          delay := Min(delay, Delay(t.attemptCount, jitter));
          if t.attemptCount != MAX_ATTEMPTS {
            t.attemptCount := t.attemptCount + 1;
          }
        } else if status == WAIT_FOR_DNS {
          delay := 100;
          status := OK;
        }
      } else {
        t.attemptCount := t.attemptCount + if t.attemptCount == 0 then 1 else 0;
      }
      var scheduled := Schedule(t, delay, now);
    }

    method Clear(t: Txn, now: Timeval)
      requires Open(t) && t.active && t.Contract()
      modifies t`waiting, t`attemptCount, t`lastObserve, t`nextBlock2, t`expiration
      ensures Open(t) && t.Contract()
      ensures !t.waiting && t.attemptCount == 0 && t.lastObserve == 0 && t.nextBlock2 == 0
      ensures t.expiration == After(now, DEFAULT_MAX_AGE)
    {
      hide After, Open;
      FirstAttempt(t, false);
      t.lastObserve := 0;
      t.nextBlock2 := 0;
      t.expiration := ConvertCmsToTimeval(now, DEFAULT_MAX_AGE);
    }

    /** An observation that has expired starts over under a new id. */
    method Restart(t: Txn, now: Timeval, random: uint32) returns (status: Status)
      requires Open(t) && t.active && t !in timers && t.Contract()
      modifies this`broken, this`transactions, this`timers, ids`last
      modifies t`msgId, t`waiting, t`attemptCount, t`lastObserve, t`nextBlock2, t`expiration, t`kept
      modifies (Holder(MsgId.NextId(ids.last, random)) - {t})`active, (Holder(MsgId.NextId(ids.last, random)) - {t})`log, (Holder(MsgId.NextId(ids.last, random)) - {t})`freed, (Holder(MsgId.NextId(ids.last, random)) - {t})`kept
      ensures Open(t) && t.Contract() && status == OK
      ensures t.msgId == ids.last == MsgId.NextId(old(ids.last), random)
      ensures !t.waiting && t.attemptCount == 0 && t.lastObserve == 0 && t.nextBlock2 == 0
      ensures t.expiration == After(now, DEFAULT_MAX_AGE)
      ensures t in timers && timers[t] == After(now, 0)
      ensures forall x | x in old(Holder(MsgId.NextId(ids.last, random)) - {t}) ::
                !x.active && x.log == old(x.log) + if x.callback then [Invalidated] else []
      ensures t.kept == NONE
      ensures timers - {t} == old(timers) - ({t} + old(Holder(MsgId.NextId(ids.last, random))))
    {
      hide After, MsgId.NextId, Open;
      ghost var holder := Holder(MsgId.NextId(ids.last, random));
      RescheduledTimer(timers, holder - {t}, holder, t, After(now, 0));
      Clear(t, now);
      var id := ids.Next(random);
      var victim := NewMsgId(t, id);
      status := Schedule(t, 0, now);
    }

    /** Whether a firing starts an observation over. */
    predicate Restarting(t: Txn, now: Timeval)
      reads t
    {
      TimeLeft(t.expiration, now) <= 0 && t.attemptCount != 0 && t.observe
    }

    /** The timers after the first half of a firing that does not start over: t joins the rest again if it has time left. */
    function NextTimers(rest: map<Txn, Timeval>, t: Txn, now: Timeval, jitter: uint32, user: User): map<Txn, Timeval>
      reads t
    {
      if TimeLeft(t.expiration, now) > 0 || t.attemptCount == 0
      then rest[t := After(now, Clamped(NextDelay(t, now, jitter, user)))]
      else rest
    }

    /** The first half of a firing: try again, start over, or find that the time is up. */
    method TryAgain(t: Txn, now: Timeval, random: uint32, jitter: uint32, user: User) returns (status: Status, resent: bool)
      requires Open(t) && t.active && t !in timers && t.Contract()
      modifies this`broken, this`transactions, this`timers, ids`last
      modifies t`msgId, t`waiting, t`attemptCount, t`lastObserve, t`nextBlock2, t`expiration, t`sent, t`kept
      modifies (Holder(MsgId.NextId(ids.last, random)) - {t})`active, (Holder(MsgId.NextId(ids.last, random)) - {t})`log, (Holder(MsgId.NextId(ids.last, random)) - {t})`freed, (Holder(MsgId.NextId(ids.last, random)) - {t})`kept
      ensures Open(t) && t.active && t.Contract() && (status == OK ==> t in timers)
      ensures status == old(Outcome(t, now, user)) && resent == old(Resending(t, now))
      ensures t.sent == old(t.sent) + if resent then [old(t.msgId)] else []
      ensures !old(Restarting(t, now)) ==>
                && transactions == old(transactions) && ids.last == old(ids.last) && t.msgId == old(t.msgId)
                && t.expiration == old(t.expiration) && t.waiting == old(t.waiting) && t.nextBlock2 == old(t.nextBlock2)
                && forall x | x in old(Holder(MsgId.NextId(ids.last, random)) - {t}) :: unchanged(x)
      ensures !old(Restarting(t, now)) ==>
                && timers == old(NextTimers(timers, t, now, jitter, user))
                && t.attemptCount == old(NextAttempt(t, now, user))
      ensures old(Restarting(t, now)) ==>
                forall x | x in old(Holder(MsgId.NextId(ids.last, random)) - {t}) ::
                  !x.active && x.log == old(x.log) + if x.callback then [Invalidated] else []
      ensures old(Restarting(t, now)) ==>
                && status == OK && t.msgId == ids.last == MsgId.NextId(old(ids.last), random)
                && timers[t] == After(now, 0) && t.expiration == After(now, DEFAULT_MAX_AGE)
                && t.attemptCount == 0 && t.nextBlock2 == 0 && !t.waiting
      ensures timers - {t} == old(timers) - ({t} + if old(Restarting(t, now)) then old(Holder(MsgId.NextId(ids.last, random))) else {})
    {
      hide After, TimeLeft, Delay, Open, MsgId.NextId, NextDelay;
      status, resent := TIMEOUT, false;
      var left := TimeLeft(t.expiration, now);
      if left > 0 || t.attemptCount == 0 {
        status, resent := Retry(t, left, now, jitter, user);
      } else if t.observe {
        status := Restart(t, now, random);
      }
    }

    lemma Settled(t: Txn)
      requires Open(t) && t.Contract() && (t.noAutoEnd || t in timers)
      ensures Valid()
    {
    }

    /** The second half: the time is up, or sending has failed. */
    method GiveUp(t: Txn, status: Status, user: User)
      requires Open(t) && t.active && t.Contract() && current == t
      modifies this`transactions, this`timers, this`current, t`active, t`log, t`freed, t`callback
      ensures Valid() && current == null
      ensures t.active == (t.noAutoEnd && !(old(t.callback) && user.endsItself))
      ensures t.callback == (old(t.callback) && (t.always || t.noAutoEnd))
      ensures t.log == old(t.log)
                         + (if old(t.callback) then [Reported(status)] else [])
                         + (if !t.active && t.callback then [Invalidated] else [])
      ensures transactions == if t.active then old(transactions) else old(transactions) - {t.msgId}
      ensures timers == if t.active then old(timers) else old(timers) - {t}
      ensures t.kept == NONE
    {
      hide Open;
      var drop := !t.always && !t.noAutoEnd;
      Call(t, status, drop, user.endsItself);
      if t != current {
        return;
      }
      if !t.noAutoEnd {
        End(t);
      } else {
        AnsweredIsSettled(t);
      }
      current := null;
    }

    lemma AnsweredIsSettled(t: Txn)
      requires Open(t) && !t.Plain() && (t.noAutoEnd || t in timers)
      ensures Valid()
    {
    }

    lemma TimerOnly(t: Txn, now: Timeval, jitter: uint32, user: User)
      requires t !in timers
      ensures NextTimers(timers, t, now, jitter, user) - {t} == timers
    {
    }

    /** The timer of t, taken off the list already, has fired. */
    method Timeout(t: Txn, now: Timeval, random: uint32, jitter: uint32, user: User) returns (status: Status, resent: bool)
      requires Open(t) && t.active && t !in timers && t.Contract()
      modifies this`broken, this`transactions, this`timers, this`current, ids`last, t
      modifies Holder(MsgId.NextId(ids.last, random))`active, Holder(MsgId.NextId(ids.last, random))`log, Holder(MsgId.NextId(ids.last, random))`freed, Holder(MsgId.NextId(ids.last, random))`kept
      ensures Valid() && current == null
      ensures status == old(Outcome(t, now, user)) && resent == old(Resending(t, now))
      ensures status == OK ==> t.active && t in timers && t.log == old(t.log) && t.callback == old(t.callback)
      ensures !old(Restarting(t, now)) ==>
                && t.attemptCount == old(NextAttempt(t, now, user)) && t.expiration == old(t.expiration)
                && t.msgId == old(t.msgId) && ids.last == old(ids.last)
                && t.waiting == old(t.waiting) && t.resends == old(t.resends) && t.nextBlock2 == old(t.nextBlock2)
      ensures status == OK && !old(Restarting(t, now)) ==>
                timers == old(NextTimers(timers, t, now, jitter, user)) && transactions == old(transactions)
      ensures status != OK ==>
                timers == if t.active then old(NextTimers(timers, t, now, jitter, user)) else old(timers) - {t}
      ensures old(Restarting(t, now)) ==>
                && status == OK && t.msgId == ids.last == MsgId.NextId(old(ids.last), random)
                && timers[t] == After(now, 0) && t.expiration == After(now, DEFAULT_MAX_AGE)
                && t.attemptCount == 0 && t.nextBlock2 == 0 && !t.waiting
      ensures status != OK ==>
                && t.active == (t.noAutoEnd && !(old(t.callback) && user.endsItself))
                && t.callback == (old(t.callback) && (t.always || t.noAutoEnd))
                && t.log == old(t.log)
                          + (if old(t.callback) then [Reported(status)] else [])
                          + (if !t.active && t.callback then [Invalidated] else [])
                && transactions == if t.active then old(transactions) else old(transactions) - {t.msgId}
      ensures t.sent == old(t.sent) + if resent then [old(t.msgId)] else []
      ensures forall x | x in old(Holder(MsgId.NextId(ids.last, random)) - {t}) ::
                if old(Restarting(t, now)) then !x.active && x.log == old(x.log) + (if x.callback then [Invalidated] else [])
                else unchanged(x)
      ensures t.kept == NONE
      ensures timers - {t} == old(timers) - ({t} + if old(Restarting(t, now)) then old(Holder(MsgId.NextId(ids.last, random))) else {})
    {
      hide Outcome, Resending, NextTimers, NextAttempt, After, MsgId.NextId, Clamped, Open, TimeLeft, Restarting, Valid;
      TimerOnly(t, now, jitter, user);
      current := t;
      status, resent := TryAgain(t, now, random, jitter, user);
      if status != OK {
        GiveUp(t, status, user);
      } else {
        Settled(t);
        current := null;
      }
    }

    // ----- a response comes in

    predicate AddressOk(t: Txn, p: Response) {
      t.multicast || t.peer == p.from
    }

    /** The token of a response; 0 when it does not have the length of ours. */
    function TokenOf(p: Response): uint16 {
      if p.tokenLen == 2 then p.tokenId else 0
    }

    /** t is the transaction with the smallest id that has this token. */
    ghost predicate FirstWithToken(t: Txn, token: uint16)
      reads this`transactions, transactions.Values`token, t`token, t`msgId
    {
      && InTree(t) && t.token == token
      && forall id | id in transactions && id < t.msgId :: transactions[id].token != token
    }

    /** Steps through the tree in the order of its ids. */
    method FindViaToken(token: uint16) returns (t: Txn?)
      requires Tree()
      ensures t != null ==> t in known && t.active && FirstWithToken(t, token)
      ensures t == null ==> forall id | id in transactions :: transactions[id].token != token
    {
      var id: int := 0;
      while id < 0x1_0000
        invariant 0 <= id <= 0x1_0000
        invariant forall i | i in transactions && i < id :: transactions[i].token != token
      {
        if id in transactions && transactions[id].token == token {
          return transactions[id];
        }
        id := id + 1;
      }
      t := null;
    }

    /** t is who a response is for: by message id, or else by token. */
    ghost predicate IsFor(p: Response, t: Txn)
      reads this`transactions, transactions.Values`token, t`token, t`msgId
    {
      && AddressOk(t, p)
      && (if p.msgId in transactions then
            transactions[p.msgId] == t && (p.code == EMPTY || t.token == TokenOf(p))
          else
            p.tt < ACK && FirstWithToken(t, TokenOf(p)))
    }

    /**
     A response is for the active transaction with its id if that has its token, or it is empty;
     if there is none with this id, and it is no acknowledgement or reset, it is for the one with
     its token and, among those, the smallest id.  In both cases it must come from its peer.
     */
    lemma ForWhom(p: Response, x: Txn)
      requires Valid() && x in known
      ensures var token := if p.tokenLen == 2 then p.tokenId else 0;
              IsFor(p, x) <==>
                && x.active && (x.multicast || x.peer == p.from)
                && if exists u | u in known && u.active :: u.msgId == p.msgId
                   then x.msgId == p.msgId && (p.code == 0 || x.token == token)
                   else p.tt < 2 && x.token == token
                        && forall u | u in known && u.active && u.token == token && u != x :: x.msgId < u.msgId
    {
      ActiveStand();
      forall id | id in transactions
        ensures transactions[id] in known && transactions[id].active && transactions[id].msgId == id
      {
      }
      if p.msgId !in transactions && x.active && x.token == TokenOf(p) {
        forall id | id in transactions && id < x.msgId && transactions[id].token == TokenOf(p)
          ensures transactions[id] != x
        {
        }
      }
    }

    method FindHandler(p: Response) returns (t: Txn?)
      requires Valid()
      ensures t != null ==> t in known && t.active && InTree(t) && IsFor(p, t)
      ensures t == null ==> forall x | x in known :: !IsFor(p, x)
      ensures t != null ==> t.multicast || t.peer == p.from
      ensures forall x | x in known && x.active && x.msgId == p.msgId && (x.multicast || x.peer == p.from)
                         && (p.code == 0 || x.token == if p.tokenLen == 2 then p.tokenId else 0) :: t == x
    {
      t := null;
      if p.msgId in transactions {
        t := transactions[p.msgId];
        if p.code != EMPTY && TokenOf(p) != t.token {
          t := null;
        }
      } else if p.tt < ACK {
        t := FindViaToken(TokenOf(p));
      }
      if t != null && !AddressOk(t, p) {
        t := null;
      }
    }

    /** What the callback is told about a response. */
    function Told(p: Response): Status {
      if p.tt == RESET_TYPE then RESET else p.code
    }

    /** How long an observed value is fresh: its age limit in milliseconds, cut to 32 bits. */
    function Freshness(p: Response): cms {
      var c := Int32(p.maxAge * MSEC_PER_SEC);
      if c != 0 then c else if p.hasObserve then DISTANT_FUTURE else DEFAULT_MAX_AGE
    }

    function KeptAlive(t: Txn, c: cms): cms {
      if t.keepAlive && c > KEEPALIVE_INTERVAL then KEEPALIVE_INTERVAL else c
    }

    /**
     The next value is waited for as long as the last one is fresh: its age limit, for ever if
     there is none, or 30 s without an option; a kept-alive transaction fires after 45 s.
     */
    lemma AgeLimit(t: Txn, p: Response)
      ensures 0 < p.maxAge <= 2147483 ==> Freshness(p) == 1000 * p.maxAge
      ensures 1000 * p.maxAge % 0x1_0000_0000 != 0 ==> (Freshness(p) - 1000 * p.maxAge) % 0x1_0000_0000 == 0
      ensures 1000 * p.maxAge % 0x1_0000_0000 == 0 ==> Freshness(p) == if p.hasObserve then 0x7fff_ffff else 30000
      ensures !t.keepAlive || Freshness(p) <= 45000 ==> KeptAlive(t, Freshness(p)) == Freshness(p)
      ensures t.keepAlive && Freshness(p) > 45000 ==> KeptAlive(t, Freshness(p)) == 45000
    {
    }

    method Unschedule(t: Txn)
      modifies this`timers
      ensures timers == old(timers) - {t}
      ensures old(Open(t)) ==> Open(t)
    {
      timers := timers - {t};
    }

    /** Waits for the next observed value. */
    method Refresh(t: Txn, p: Response, now: Timeval)
      requires Open(t)
      modifies this`timers, t`expiration
      ensures Open(t)
      ensures t.expiration == After(now, Freshness(p))
      ensures timers == old(timers)[t := After(now, Clamped(KeptAlive(t, Freshness(p))))]
    {
      hide After, Freshness, Open, KeptAlive;
      Unschedule(t);
      t.expiration := ConvertCmsToTimeval(now, Freshness(p));
      var status := Schedule(t, KeptAlive(t, Freshness(p)), now);
    }

    /** An older value arrives after a newer one, by a distance of 24 bits. */
    predicate Stale(t: Txn, p: Response)
      reads t`lastObserve
    {
      p.observeValue <= t.lastObserve && t.lastObserve - p.observeValue > 0x7f_ffff
    }

    /** Starts to count attempts again. */
    method FirstAttempt(t: Txn, waiting: bool)
      requires Open(t) && t.active
      modifies t`attemptCount, t`waiting
      ensures Open(t) && t.attemptCount == 0 && t.waiting == waiting && t.kept == NONE
      ensures old(t.Contract()) ==> t.Contract()
    {
      hide Ok, Tree;
      t.attemptCount := 0;
      t.waiting := waiting;
    }

    /** A response with an Observe option to an observing transaction. */
    method Observed(t: Txn, p: Response, now: Timeval, user: User) returns (status: Status, gone: bool)
      requires Valid() && t in known && t.active && t.callback && t.observe && current == t
      modifies this`transactions, this`timers, this`current, t
      ensures Valid() && gone == !t.active
      ensures t.msgId == old(t.msgId) && t.callback && t.begun
      ensures transactions == if gone then old(transactions) - {t.msgId} else old(transactions)
      ensures old(Stale(t, p)) ==> status == DUPE && !gone && t.log == old(t.log) && timers == old(timers)
      ensures !old(Stale(t, p)) ==>
                && status == user.answer && gone == user.endsItself
                && t.log == old(t.log) + [Reported(Told(p))] + (if gone then [Invalidated] else [])
                && t.lastObserve == p.observeValue
      ensures !old(Stale(t, p)) && !gone ==>
                && t.waiting && t.attemptCount == 0 && t.expiration == After(now, Freshness(p))
                && timers == old(timers)[t := After(now, Clamped(KeptAlive(t, Freshness(p))))]
      ensures t.kept == NONE
      ensures timers - {t} == old(timers) - {t}
    {
      hide After, Freshness, KeptAlive, Open, Valid, Stale, Told, Clamped;
      StillOpen(t);
      gone := false;
      if Stale(t, p) {
        status := DUPE;
        return;
      }
      t.lastObserve := p.observeValue;
      Call(t, Told(p), false, user.endsItself);
      status := user.answer;
      if current == null {
        gone := true;
        return;
      }
      FirstAttempt(t, true);
      Refresh(t, p, now);
      AnsweredIsSettled(t);
    }

    /** More blocks follow, and the user wants them. */
    predicate WantsNextBlock(t: Txn, p: Response, user: User) {
      user.answer == OK && (p.block2 / 8) % 2 == 1 && t.always
    }

    lemma NoDelay()
      ensures Clamped(0) == 0
    {
    }

    /** Asks for the next block under a new id. */
    method NextBlock(t: Txn, p: Response, now: Timeval, random: uint32)
      requires Open(t) && t.always
      modifies this`broken, this`transactions, this`timers, ids`last, t`nextBlock2, t`msgId, t`kept
      modifies (Holder(MsgId.NextId(ids.last, random)) - {t})`active, (Holder(MsgId.NextId(ids.last, random)) - {t})`log, (Holder(MsgId.NextId(ids.last, random)) - {t})`freed, (Holder(MsgId.NextId(ids.last, random)) - {t})`kept
      ensures Valid() && t.active && t in timers && timers[t] == After(now, 0)
      ensures t.nextBlock2 == (p.block2 + 16) % 0x1_0000_0000
      ensures t.msgId == ids.last == MsgId.NextId(old(ids.last), random)
      ensures transactions == (old(transactions) - {old(t.msgId)})[t.msgId := t]
      ensures forall x | x in old(Holder(MsgId.NextId(ids.last, random)) - {t}) ::
                !x.active && x.log == old(x.log) + if x.callback then [Invalidated] else []
      ensures t.kept == NONE
      ensures timers - {t} == old(timers) - ({t} + old(Holder(MsgId.NextId(ids.last, random))))
    {
      hide After, Open, MsgId.NextId, Valid, Clamped;
      NoDelay();
      ghost var holder := Holder(MsgId.NextId(ids.last, random));
      RescheduledTimer(timers, holder - {t}, holder, t, After(now, 0));
      t.nextBlock2 := (p.block2 + 16) % 0x1_0000_0000;
      var id := ids.Next(random);
      var victim := NewMsgId(t, id);
      Unschedule(t);
      var status := Schedule(t, 0, now);
      AnsweredIsSettled(t);
    }

    method Finish(t: Txn)
      requires Open(t) && t.active
      modifies this`transactions, this`timers, this`current, t`resends, t`active, t`log, t`freed
      ensures Valid() && t.active == t.noAutoEnd && !t.resends
      ensures transactions == if t.active then old(transactions) else old(transactions) - {t.msgId}
      ensures timers == if t.active then old(timers) else old(timers) - {t}
      ensures t.log == old(t.log) + if !t.active && t.callback then [Invalidated] else []
    {
      hide Open;
      t.resends := false;
      if !t.noAutoEnd {
        End(t);
      } else {
        AnsweredIsSettled(t);
      }
    }

    /** What happens to a transaction that was answered and has not ended itself. */
    method AfterAnswer(t: Txn, p: Response, now: Timeval, random: uint32, user: User)
      requires Open(t) && t.active
      modifies this`broken, this`transactions, this`timers, this`current, ids`last, t
      modifies Holder(MsgId.NextId(ids.last, random))`active, Holder(MsgId.NextId(ids.last, random))`log, Holder(MsgId.NextId(ids.last, random))`freed, Holder(MsgId.NextId(ids.last, random))`kept
      ensures Valid()
      ensures t.active == (WantsNextBlock(t, p, user) || (user.answer == OK && t.observe) || t.noAutoEnd)
      ensures t.callback == old(t.callback)
      ensures t.log == old(t.log) + if !t.active && t.callback then [Invalidated] else []
      ensures t.attemptCount == 0 && !t.waiting
      ensures WantsNextBlock(t, p, user) ==>
                && t.nextBlock2 == (p.block2 + 16) % 0x1_0000_0000
                && t.msgId == ids.last == MsgId.NextId(old(ids.last), random)
                && transactions == (old(transactions) - {old(t.msgId)})[t.msgId := t]
                && t in timers && timers[t] == After(now, 0) && t.resends == old(t.resends)
      ensures !WantsNextBlock(t, p, user) ==>
                && t.msgId == old(t.msgId) && ids.last == old(ids.last)
                && transactions == if t.active then old(transactions) else old(transactions) - {t.msgId}
      ensures !WantsNextBlock(t, p, user) && user.answer == OK && t.observe ==>
                && t.nextBlock2 == 0 && t.expiration == After(now, Freshness(p)) && t.resends == old(t.resends)
                && timers == old(timers)[t := After(now, Clamped(KeptAlive(t, Freshness(p))))]
      ensures !WantsNextBlock(t, p, user) && !(user.answer == OK && t.observe) ==>
                && !t.resends && timers == if t.active then old(timers) else old(timers) - {t}
      ensures forall x | x in old(Holder(MsgId.NextId(ids.last, random)) - {t}) ::
                if WantsNextBlock(t, p, user) then !x.active && x.log == old(x.log) + (if x.callback then [Invalidated] else [])
                else unchanged(x)
      ensures t.kept == NONE
      ensures timers - {t} == old(timers) - ({t} + if WantsNextBlock(t, p, user) then old(Holder(MsgId.NextId(ids.last, random))) else {})
    {
      hide After, Freshness, KeptAlive, MsgId.NextId, Open, Valid, Clamped;
      FirstAttempt(t, false);
      if WantsNextBlock(t, p, user) {
        NextBlock(t, p, now, random);
      } else if user.answer == OK && t.observe {
        t.nextBlock2 := 0;
        Refresh(t, p, now);
        AnsweredIsSettled(t);
      } else {
        Finish(t);
      }
    }

    /** A response to a transaction that is not observing, or a response without an Observe option. */
    method Answered(t: Txn, p: Response, now: Timeval, random: uint32, user: User) returns (status: Status)
      requires Valid() && t in known && t.active && t.callback && current == t
      modifies this`broken, this`transactions, this`timers, this`current, ids`last, t
      modifies Holder(MsgId.NextId(ids.last, random))`active, Holder(MsgId.NextId(ids.last, random))`log, Holder(MsgId.NextId(ids.last, random))`freed, Holder(MsgId.NextId(ids.last, random))`kept
      ensures Valid() && status == user.answer
      ensures t.active == (!user.endsItself
                           && (WantsNextBlock(t, p, user) || (user.answer == OK && t.observe) || t.noAutoEnd))
      ensures t.callback == (t.always || t.observe)
      ensures t.log == old(t.log) + [Reported(Told(p))] + (if !t.active && t.callback then [Invalidated] else [])
      ensures !user.endsItself ==> t.attemptCount == 0 && !t.waiting
      ensures !user.endsItself && WantsNextBlock(t, p, user) ==>
                && t.nextBlock2 == (p.block2 + 16) % 0x1_0000_0000
                && t.msgId == ids.last == MsgId.NextId(old(ids.last), random)
                && transactions == (old(transactions) - {old(t.msgId)})[t.msgId := t]
                && t in timers && timers[t] == After(now, 0) && t.resends == old(t.resends)
      ensures !(!user.endsItself && WantsNextBlock(t, p, user)) ==>
                && t.msgId == old(t.msgId) && ids.last == old(ids.last)
                && transactions == if t.active then old(transactions) else old(transactions) - {t.msgId}
      ensures t.active && t.observe && user.answer == OK && !WantsNextBlock(t, p, user) ==>
                && t.expiration == After(now, Freshness(p)) && t.nextBlock2 == 0
                && timers == old(timers)[t := After(now, Clamped(KeptAlive(t, Freshness(p))))]
      ensures forall x | x in old(Holder(MsgId.NextId(ids.last, random)) - {t}) ::
                if !user.endsItself && WantsNextBlock(t, p, user) then !x.active && x.log == old(x.log) + (if x.callback then [Invalidated] else [])
                else unchanged(x)
      ensures t.kept == NONE
      ensures timers - {t} == old(timers) - ({t} + if !user.endsItself && WantsNextBlock(t, p, user) then old(Holder(MsgId.NextId(ids.last, random))) else {})
    {
      hide After, Freshness, KeptAlive, MsgId.NextId, Open, WantsNextBlock, Told;
      var msgId := t.msgId;
      StillOpen(t);
      Call(t, Told(p), !t.always && !t.observe, user.endsItself);
      status := user.answer;
      if current == t {
        AfterAnswer(t, p, now, random, user);
      }
    }

    lemma StillOpen(t: Txn)
      requires Valid() && t in known && t.active
      ensures Open(t) && t.Contract() && (t.listens && t.Plain() ==> t.callback)
      ensures t in transactions.Values && !t.freed && t.kept == NONE
    {
    }

    /** Whether the callback of t hears of a response. */
    predicate Hears(t: Txn, p: Response, user: User)
      reads t`lastObserve
    {
      user.auth == OK && !(t.observe && p.hasObserve && Stale(t, p))
    }

    /** What the handling of a response returns. */
    function ReplyStatus(t: Txn, p: Response, user: User): Status
      reads t`lastObserve
    {
      if user.auth != OK then user.auth else if Hears(t, p, user) then user.answer else DUPE
    }

    /** Whether t goes on after a response. */
    predicate StaysActive(t: Txn, p: Response, user: User)
      reads t`lastObserve
    {
      if !Hears(t, p, user) then t.noAutoEnd
      else
        && !user.endsItself
        && (|| t.noAutoEnd
            || (user.answer == OK && t.observe)
            || (WantsNextBlock(t, p, user) && !(t.observe && p.hasObserve)))
    }

    /**
     What comes of a response, case by case: without authentication and for a notification that
     is taken for stale; for a transaction without flags, for one that takes blocks, and for an
     observer.
     */
    lemma Replies(t: Txn, p: Response, user: User)
      ensures var calls, told := NewCalls(t, p, user), [Reported(if p.tt == 3 then -23 else p.code)];
              var stays, status := StaysActive(t, p, user), ReplyStatus(t, p, user);
              var stale := t.observe && p.hasObserve && p.observeValue + 0x80_0000 <= t.lastObserve;
              && (user.auth != 0 || stale ==>
                    && status == (if user.auth != 0 then user.auth else -22)
                    && stays == t.noAutoEnd && calls == if stays then [] else [Invalidated])
              && (user.auth == 0 && !stale ==>
                    && status == user.answer && told <= calls
                    && (user.endsItself ==> !stays)
                    && (calls == told + [Invalidated] <==> !stays && (t.always || t.observe))
                    && (calls == told <==> stays || (!t.always && !t.observe)))
              && (user.auth == 0 && !stale && !user.endsItself ==>
                    && (t.noAutoEnd ==> stays)
                    && (!t.noAutoEnd && !t.always && !t.observe ==> !stays)
                    && (!t.noAutoEnd && t.always && !t.observe ==> (stays <==> user.answer == 0 && p.block2 % 16 >= 8))
                    && (!t.noAutoEnd && t.observe ==> (stays <==> user.answer == 0)))
              && (AsksNext(t, p, user) <==>
                    user.auth == user.answer == 0 && !(t.observe && p.hasObserve) && !user.endsItself
                    && t.always && p.block2 % 16 >= 8)
    {
      assert p.block2 / 8 % 2 == p.block2 % 16 / 8;
    }

    /** What the callback of t is told in the course of it. */
    function NewCalls(t: Txn, p: Response, user: User): (calls: seq<Call>)
      reads t`lastObserve
      ensures |calls| <= 2
    {
      var told := if Hears(t, p, user) then [Reported(Told(p))] else [];
      var kept := !Hears(t, p, user) || t.always || t.observe;
      told + if !StaysActive(t, p, user) && kept then [Invalidated] else []
    }

    lemma AsksAlways(t: Txn, p: Response, user: User)
      ensures AsksNext(t, p, user) ==> t.always
    {
    }

    /** What a transaction with a callback does with a response. */
    method Reply(t: Txn, p: Response, now: Timeval, random: uint32, user: User) returns (status: Status)
      requires Valid() && t in known && t.active && t.callback && current == t
      modifies this`broken, this`transactions, this`timers, this`current, ids`last, t
      modifies Holder(MsgId.NextId(ids.last, random))`active, Holder(MsgId.NextId(ids.last, random))`log, Holder(MsgId.NextId(ids.last, random))`freed, Holder(MsgId.NextId(ids.last, random))`kept
      ensures Valid()
      ensures status == old(ReplyStatus(t, p, user)) && t.active == old(StaysActive(t, p, user))
      ensures t.log == old(t.log) + old(NewCalls(t, p, user))
      ensures AsksNext(t, p, user) ==>
                && t.nextBlock2 == (p.block2 + 16) % 0x1_0000_0000
                && t.msgId == ids.last == MsgId.NextId(old(ids.last), random)
                && transactions == (old(transactions) - {old(t.msgId)})[t.msgId := t]
                && t in timers && timers[t] == After(now, 0) && t.resends == old(t.resends)
                && t.attemptCount == 0 && !t.waiting
      ensures !AsksNext(t, p, user) ==>
                && t.msgId == old(t.msgId) && ids.last == old(ids.last)
                && transactions == if t.active then old(transactions) else old(transactions) - {t.msgId}
      ensures t.active && t.observe && old(Hears(t, p, user)) && user.answer == OK && !AsksNext(t, p, user) ==>
                && t.expiration == After(now, Freshness(p))
                && timers == old(timers)[t := After(now, Clamped(KeptAlive(t, Freshness(p))))]
      ensures AsksNext(t, p, user) ==> forall x | x in old(Holder(MsgId.NextId(ids.last, random)) - {t}) ::
                !x.active && x.log == old(x.log) + (if x.callback then [Invalidated] else [])
      ensures !AsksNext(t, p, user) ==> forall x | x in known && x != t :: unchanged(x)
      ensures t.kept == NONE
      ensures AsksNext(t, p, user) ==> t.callback
      ensures timers - {t} == old(timers) - ({t} + if AsksNext(t, p, user) then old(Holder(MsgId.NextId(ids.last, random))) else {})
    {
      hide After, Freshness, KeptAlive, MsgId.NextId, WantsNextBlock, Told, Valid, Stale;
      StillOpen(t);
      ghost var was := timers;
      WithoutTimer(was, t, now);
      AsksAlways(t, p, user);
      status := user.auth;
      var gone := false;
      if status == OK {
        if t.observe && p.hasObserve {
          status, gone := Observed(t, p, now, user);
        } else {
          status := Answered(t, p, now, random, user);
          gone := true;
        }
      }
      if status != OK && !gone && !t.noAutoEnd {
        StillOpen(t);
        WithoutTimer(timers, t, now);
        End(t);
      }
    }

    /** A response that makes its transaction ask for the next block. */
    predicate AsksNext(t: Txn, p: Response, user: User) {
      user.auth == OK && !(t.observe && p.hasObserve) && !user.endsItself && WantsNextBlock(t, p, user)
    }

    /** An acknowledgement without an answer: that comes later. */
    predicate Acknowledges(t: Txn, p: Response) {
      (p.tt == ACK || p.tt == NONCONFIRMABLE) && p.code == EMPTY && t.sentRequest
    }

    lemma ActiveStand()
      requires Valid()
      ensures forall x | x in known && x.active :: x.msgId in transactions && transactions[x.msgId] == x
    {
    }

    /** Finds who the response is for and gives it to them; a response to nobody may get a reset. */
    method HandleResponse(p: Response, now: Timeval, random: uint32, user: User)
      returns (status: Status, t: Txn?, reset: bool)
      requires Valid()
      modifies this`broken, this`transactions, this`timers, this`current, ids`last, transactions.Values
      ensures Valid()
      ensures t == null ==> forall x | x in known :: !old(IsFor(p, x))
      ensures t != null ==> t in known && old(t.active && IsFor(p, t))
      ensures t != null ==> t.multicast || t.peer == p.from
      ensures forall x | x in known && old(x.active) && old(x.msgId) == p.msgId && (x.multicast || x.peer == p.from)
                         && (p.code == 0 || old(x.token) == if p.tokenLen == 2 then p.tokenId else 0) :: t == x
      ensures reset <==> t == null && p.tt < 2
      ensures t != null && p.code == 0 && p.tt in {1, 2} && t.sentRequest ==>
                t.active && t.waiting && t.log == old(t.log) && timers == old(timers)
      ensures t != null && !(p.code == 0 && p.tt in {1, 2} && t.sentRequest) && old(t.callback) ==>
                t.log == old(t.log) + old(NewCalls(t, p, user))
      ensures t == null ==> status == OK && transactions == old(transactions) && timers == old(timers) && ids.last == old(ids.last)
      ensures t == null ==> forall x | x in known :: unchanged(x)
      ensures t != null && (Acknowledges(t, p) || !old(t.callback)) ==>
                && status == OK && t.log == old(t.log) && t.active
                && t.waiting == (Acknowledges(t, p) || old(t.waiting))
                && transactions == old(transactions) && timers == old(timers)
      ensures t != null && !Acknowledges(t, p) && old(t.callback) ==>
                && status == old(ReplyStatus(t, p, user)) && t.active == old(StaysActive(t, p, user))
                && t.log == old(t.log) + old(NewCalls(t, p, user))
      ensures t != null && !Acknowledges(t, p) && old(t.callback) && AsksNext(t, p, user) ==>
                && t.nextBlock2 == (p.block2 + 16) % 0x1_0000_0000
                && t.msgId == ids.last == MsgId.NextId(old(ids.last), random)
                && transactions == (old(transactions) - {old(t.msgId)})[t.msgId := t]
                && t in timers && timers[t] == After(now, 0)
      ensures t != null && !Acknowledges(t, p) && old(t.callback)
              && t.active && t.observe && old(Hears(t, p, user)) && user.answer == OK && !AsksNext(t, p, user) ==>
                && t.expiration == After(now, Freshness(p))
                && timers == old(timers)[t := After(now, Clamped(KeptAlive(t, Freshness(p))))]
      ensures forall x | x in known && x != t && (t == null || x !in old(Holder(MsgId.NextId(ids.last, random)))) ::
                unchanged(x)
      ensures t != null && !(!Acknowledges(t, p) && old(t.callback) && AsksNext(t, p, user)) ==>
                forall x | x in known && x != t :: unchanged(x)
      ensures t != null && !Acknowledges(t, p) && old(t.callback) && AsksNext(t, p, user) ==>
                forall x | x in old(Holder(MsgId.NextId(ids.last, random))) && x != t ::
                  !x.active && x.callback == old(x.callback) && x.log == old(x.log) + (if x.callback then [Invalidated] else [])
      ensures t != null ==> t.kept == NONE
      ensures t != null && !Acknowledges(t, p) && old(t.callback) ==>
                if AsksNext(t, p, user) then t.callback
                else t.msgId == old(t.msgId) && transactions == if t.active then old(transactions) else old(transactions) - {t.msgId}
      ensures t != null ==>
                timers - {t} == old(timers)
                  - ({t} + if !Acknowledges(t, p) && old(t.callback) && AsksNext(t, p, user) then old(Holder(MsgId.NextId(ids.last, random))) else {})
    {
      hide MsgId.NextId, IsFor, Ok, AsksNext, After, ReplyStatus, StaysActive, NewCalls, Hears, Freshness, KeptAlive;
      status, reset := OK, false;
      t := FindHandler(p);
      if t != null { StillOpen(t); }
      current := t;
      if t == null {
        reset := p.tt in {CONFIRMABLE, NONCONFIRMABLE};
      } else if Acknowledges(t, p) {
        t.waiting := true;
      } else if t.callback {
        status := Reply(t, p, now, random, user);
      }
    }

    /**
     The way of a transaction that is started again after it has been thrown out: d draws the
     id of a and takes its place in the tree, d ends, so that the id is free again, and a is
     started without being set up anew.  If a had children in the tree the engine is not in
     order then, although nothing has the old id of a.
     */
    method ThrownOutAndBack(a: Txn, d: Txn, now: Timeval, first: uint32, second: uint32) returns (ghost kept: Kept)
      requires Valid() && a in known && d in known && a.active && !a.shouldDealloc && transactions.Keys != {a.msgId}
      requires !d.active && !d.freed && d.msgId !in transactions && Clean(d, a.msgId)
      requires a.msgId == MsgId.NextId(ids.last, first)
      requires MsgId.NextId(a.msgId, second) !in transactions
      modifies this`broken, this`transactions, this`timers, this`current, ids`last, known
      ensures kept != NONE && (kept.children ==> !Valid())
    {
      hide MsgId.NextId, After, Valid;
      Standing(a);
      var victim := Begin(d, -1, now, first);
      End(d);
      kept := a.kept;
      victim := Begin(a, -1, now, second);
    }

    lemma Standing(t: Txn)
      requires Valid() && t in known && t.active
      ensures t.msgId in transactions && transactions[t.msgId] == t && transactions.Values <= known && !t.freed
    {
    }

    // ----- whole runs

    /** A transaction that has been set up for this instance. */
    method Init(t: Txn)
      requires Valid() && t !in known && t.Fresh()
      modifies this`known
      ensures Valid() && known == old(known) + {t}
    {
      known := known + {t};
    }

    /** The timer of t fires: it leaves the queue and its function is called. */
    method Fire(t: Txn, now: Timeval, random: uint32, jitter: uint32, user: User) returns (status: Status, resent: bool)
      requires Valid() && t in timers
      modifies this`broken, this`transactions, this`timers, this`current, ids`last, transactions.Values
      ensures Valid()
      ensures status == old(Outcome(t, now, user)) && resent == old(Resending(t, now))
      ensures status == OK ==> t.active && t in timers && t.log == old(t.log)
      ensures status == OK && !old(Restarting(t, now)) ==>
                && timers == old(NextTimers(timers - {t}, t, now, jitter, user))
                && t.attemptCount == old(NextAttempt(t, now, user)) && t.expiration == old(t.expiration)
                && t.msgId == old(t.msgId) && transactions == old(transactions)
                && t.callback == old(t.callback) && t.waiting == old(t.waiting) && t.resends == old(t.resends)
                && t.nextBlock2 == old(t.nextBlock2) && ids.last == old(ids.last)
      ensures status != OK ==>
                && t.active == (t.noAutoEnd && !(old(t.callback) && user.endsItself))
                && t.callback == (old(t.callback) && (t.always || t.noAutoEnd))
                && t.log == old(t.log)
                          + (if old(t.callback) then [Reported(status)] else [])
                          + (if !t.active && t.callback then [Invalidated] else [])
                && t.msgId == old(t.msgId)
                && transactions == if t.active then old(transactions) else old(transactions) - {t.msgId}
      ensures t.sent == old(t.sent) + if resent then [old(t.msgId)] else []
      ensures forall x | x in known && x != t && x !in old(Holder(MsgId.NextId(ids.last, random))) ::
                unchanged(x)
      ensures forall x | x in old(Holder(MsgId.NextId(ids.last, random)) - {t}) ::
                if old(Restarting(t, now)) then !x.active && x.callback == old(x.callback) && x.log == old(x.log) + (if x.callback then [Invalidated] else [])
                else unchanged(x)
      ensures t.kept == NONE
      ensures timers - {t} == old(timers) - ({t} + if old(Restarting(t, now)) then old(Holder(MsgId.NextId(ids.last, random))) else {})
      ensures old(Restarting(t, now)) ==> t.msgId == ids.last == MsgId.NextId(old(ids.last), random)
    {
      hide Outcome, Resending, NextTimers, NextAttempt, After, MsgId.NextId, Clamped, TimeLeft, Restarting, Valid, Open;
      QueuedIsActive(t);
      StillOpen(t);
      Unschedule(t);
      status, resent := Timeout(t, now, random, jitter, user);
    }

    /** A silent firing that is answered by sending again waits no longer than the time that is left, and at most 14 s. */
    lemma NextDelayBounds(t: Txn, now: Timeval, jitter: uint32, user: User)
      requires Resending(t, now) && user.resend == OK
      ensures NextDelay(t, now, jitter, user) <= TimeLeft(t.expiration, now)
      ensures NextDelay(t, now, jitter, user) <= MAX_RETRANSMIT
      ensures t.attemptCount <= 10 ==>
                var least := ACK_TIMEOUT * Pow2(t.attemptCount);
                var delay := NextDelay(t, now, jitter, user);
                delay >= least || delay == TimeLeft(t.expiration, now) || delay >= MAX_RETRANSMIT
    {
      hide TimeLeft, Delay, Pow2;
      if t.attemptCount <= 10 {
        DelayBounds(t.attemptCount, jitter);
      }
    }

    lemma QueuedIsActive(t: Txn)
      requires Valid() && t in timers
      ensures t.active && t in known && transactions.Values <= known
    {
    }

    /** The first firing, after the one at the start, that comes when the time is up. */
    function FirstLate(expiration: Timeval, firings: seq<Firing>, i: nat): (n: nat)
      requires 1 <= i <= |firings|
      ensures i <= n <= |firings|
      ensures forall j | i <= j < n :: TimeLeft(expiration, firings[j].now) > 0
      ensures n < |firings| ==> TimeLeft(expiration, firings[n].now) <= 0
      decreases |firings| - i
    {
      if i == |firings| || TimeLeft(expiration, firings[i].now) <= 0 then i
      else FirstLate(expiration, firings, i + 1)
    }

    /**
     A transaction that hears nothing: it is sent at every firing until the time is up, and
     the first firing after that, if there is one, ends it with a timeout.
     */
    method Silence(t: Txn, firings: seq<Firing>) returns (sent: nat)
      requires Valid() && t in timers && firings != []
      requires t.attemptCount == 0 && !t.waiting && t.resends && t.listens && t.callback
      requires !t.observe && !t.noAutoEnd
      modifies this`broken, this`transactions, this`timers, this`current, ids`last, known
      ensures Valid() && sent == FirstLate(old(t.expiration), firings, 1)
      ensures t.sent == old(t.sent) + seq(sent, _ => old(t.msgId))
      ensures t.active <==> sent == |firings|
      ensures t.active ==> t.log == old(t.log) && t.attemptCount == if sent <= MAX_ATTEMPTS then sent else MAX_ATTEMPTS
      ensures !t.active ==> t.log == old(t.log) + [Reported(TIMEOUT)] + if t.always then [Invalidated] else []
    {
      hide Valid, TimeLeft, Delay, After, MsgId.NextId;
      QueuedIsActive(t);
      sent := 0;
      for i := 0 to |firings|
        invariant Valid() && sent == i && t in timers && t.active
        invariant t.sent == old(t.sent) + seq(sent, _ => old(t.msgId)) && t.msgId == old(t.msgId)
        invariant t.resends && !t.waiting && t.callback && t.log == old(t.log) && t.expiration == old(t.expiration)
        invariant t.attemptCount == if i <= MAX_ATTEMPTS then i else MAX_ATTEMPTS
        invariant forall j | 1 <= j < i :: TimeLeft(old(t.expiration), firings[j].now) > 0
      {
        var f := firings[i];
        QueuedIsActive(t);
        var status, resent := Fire(t, f.now, f.random, f.jitter, User(OK, OK, OK, false));
        if resent {
          sent := sent + 1;
        }
        if status != OK {
          return;
        }
      }
    }

    predicate Allowed(e: Event)
      reads this, ids`last, e.Subject()
    {
      match e
      case Begins(t, _, _, random) =>
        !t.active && !t.freed && t.msgId !in transactions && Clean(t, MsgId.NextId(ids.last, random))
      case Ends(t) => !t.freed
      case Tickles(t, _) => t.active
      case Fires(t, _, _, _, _) => t in timers
      case Responds(_, _, _, _) => true
    }

    /** What a run is about: tree, timers, the last id, and of every transaction what is seen of it. */
    ghost function Now(): Snap
      reads this, ids`last, known
    {
      Snap(transactions, timers, ids.last, map t | t in known :: t.Looks())
    }

    lemma AllowedIsSeen(e: Event)
      requires e.Subject() <= known
      ensures Allowed(e) <==> e.AllowedIn(Now())
    {
    }

    /** One event; one that is not allowed in this state does not happen. */
    method Step(e: Event)
      requires Valid() && e.Subject() <= known
      modifies this`broken, this`transactions, this`timers, this`current, ids`last, known
      ensures Valid()
      ensures if old(Allowed(e)) then e.Happens(old(Now()), Now()) else Now() == old(Now())
      ensures e.Fires? && old(Allowed(e)) ==>
                var status := old(Outcome(e.txn, e.now, e.user));
                e.txn.log == old(e.txn.log)
                  + (if status != OK && old(e.txn.callback) then [Reported(status)] else [])
                  + (if !e.txn.active && e.txn.callback then [Invalidated] else [])
    {
      hide Valid, Now, Outcome, Clean, MsgId.NextId;
      if Allowed(e) {
        match e {
          case Begins(t, expiration, now, random) => StepBegins(t, expiration, now, random);
          case Ends(t) => StepEnds(t);
          case Tickles(t, now) => StepTickles(t, now);
          case Fires(t, now, random, jitter, user) => StepFires(t, now, random, jitter, user);
          case Responds(p, now, random, user) => StepResponds(p, now, random, user);
        }
      } else {
        NothingHappens();
      }
    }

    lemma NothingHappens()
      ensures Now() == Now()
    {
    }

    method StepBegins(t: Txn, expiration: cms, now: Timeval, random: uint32)
      requires Valid() && t in known && Allowed(Event.Begins(t, expiration, now, random))
      modifies this`broken, this`transactions, this`timers, ids`last, known
      ensures Valid() && Event.Begins(t, expiration, now, random).Happens(old(Now()), Now())
    {
      hide MsgId.NextId, After, Valid, Event.Happens, Snap.Same, Snap.Thrown;
      ghost var b := Now();
      ghost var victim := BeginOnly(t, expiration, now, random);
      BeginsHappens(t, expiration, now, random, b, Now(), victim);
    }

    /** A start, and that no other transaction has changed but one that was thrown out. */
    method BeginOnly(t: Txn, expiration: cms, now: Timeval, random: uint32) returns (ghost victim: Txn?)
      requires Valid() && t in known && Allowed(Event.Begins(t, expiration, now, random))
      modifies this`broken, this`transactions, this`timers, ids`last, known
      ensures Valid() && ids.last == MsgId.NextId(old(ids.last), random)
      ensures victim == if ids.last in old(transactions) then old(transactions)[ids.last] else null
      ensures forall x | x in known && x != t ::
                if x == victim then Now().Thrown(old(Now()), x) else Now().Same(old(Now()), x)
      ensures transactions == old(transactions)[ids.last := t]
      ensures t.Looks() == old(t.Looks()).(active := true, msgId := ids.last, kept := NONE, log := [])
      ensures t in timers && (t.resends ==> timers[t] == After(now, 0))
      ensures !t.resends && !t.keepAlive ==> timers[t] == After(now, if expiration < 0 then 271250 else expiration)
    {
      hide MsgId.NextId, After, Micros, Valid;
      ghost var b, was := Now(), timers;
      Members();
      assert transactions - {t.msgId} == transactions;
      victim := Begin(t, expiration, now, random);
      forall x | x in known && x != t
        ensures if x == victim then Now().Thrown(b, x) else Now().Same(b, x)
      {
        OtherTimers(timers, was, t, if victim == null then {} else {victim}, x);
      }
    }

    lemma Members()
      requires Valid()
      ensures transactions.Values <= known && timers.Keys <= known
    {
    }

    method StepEnds(t: Txn)
      requires Valid() && t in known && !t.freed
      modifies this`transactions, this`timers, this`current, known
      ensures Valid() && Event.Ends(t).Happens(old(Now()), Now())
    {
      hide Valid, Event.Happens, Snap.Same;
      ghost var b := Now();
      EndOnly(t);
      EndsHappens(t, b, Now());
    }

    /** An end, and that no other transaction has changed. */
    method EndOnly(t: Txn)
      requires Valid() && t in known && !t.freed
      modifies this`transactions, this`timers, this`current, known
      ensures Valid() && ids.last == old(ids.last) && !t.active
      ensures forall x | x in known && x != t :: Now().Same(old(Now()), x)
      ensures !old(t.active) ==> transactions == old(transactions) && timers == old(timers) && t.Looks() == old(t.Looks())
      ensures old(t.active) ==>
                && transactions == old(transactions) - {old(t.msgId)} && timers == old(timers) - {t}
                && t.log == old(t.log) + if old(t.callback) then [Invalidated] else []
    {
      hide Valid;
      Members();
      if t.active { Standing(t); }
      End(t);
    }

    method StepTickles(t: Txn, now: Timeval)
      requires Valid() && t in known && t.active
      modifies this`timers
      ensures Valid() && Event.Tickles(t, now).Happens(old(Now()), Now())
    {
      hide After;
      Tickle(t, now);
    }

    method StepFires(t: Txn, now: Timeval, random: uint32, jitter: uint32, user: User)
      requires Valid() && t in timers
      modifies this`broken, this`transactions, this`timers, this`current, ids`last, known
      ensures Valid() && Event.Fires(t, now, random, jitter, user).Happens(old(Now()), Now())
      ensures var status := old(Outcome(t, now, user));
              t.log == old(t.log)
                + (if status != OK && old(t.callback) then [Reported(status)] else [])
                + (if !t.active && t.callback then [Invalidated] else [])
    {
      hide MsgId.NextId, Outcome, Valid, Event.Happens, Snap.Only;
      ghost var b := Now();
      QueuedIsActive(t);
      var status := FireOnly(t, now, random, jitter, user);
      ghost var told :=
        (if status != OK && b.of[t].hears then [Reported(status)] else [])
        + (if !t.active && t.callback then [Invalidated] else []);
      assert Now().of[t].log == b.of[t].log + told;
      if t.active { Standing(t); }
      FiresHappens(t, now, random, jitter, user, b, Now(), told);
    }

    /** A firing, and that no other transaction has changed but one that was thrown out. */
    method FireOnly(t: Txn, now: Timeval, random: uint32, jitter: uint32, user: User) returns (status: Status)
      requires Valid() && t in timers
      modifies this`broken, this`transactions, this`timers, this`current, ids`last, known
      ensures Valid() && Now().Only(old(Now()), t, random)
      ensures status == old(Outcome(t, now, user))
      ensures t.log == old(t.log)
                + (if status != OK && old(t.callback) then [Reported(status)] else [])
                + (if !t.active && t.callback then [Invalidated] else [])
      ensures t.sent == old(t.sent) || t.sent == old(t.sent) + [old(t.msgId)]
    {
      hide MsgId.NextId, After, Outcome, NextTimers, NextAttempt, Restarting, Resending, Valid;
      ghost var b, was, holder := Now(), timers, Holder(MsgId.NextId(ids.last, random));
      ghost var restarts := Restarting(t, now);
      Members();
      var resent;
      status, resent := Fire(t, now, random, jitter, user);
      forall x | x in known && x != t
        ensures Now().Same(b, x) || (x in holder && ids.last == MsgId.NextId(b.last, random) && Now().Thrown(b, x))
      {
        OtherTimers(timers, was, t, if restarts then holder else {}, x);
      }
    }

    method StepResponds(p: Response, now: Timeval, random: uint32, user: User)
      requires Valid()
      modifies this`broken, this`transactions, this`timers, this`current, ids`last, known
      ensures Valid() && Event.Responds(p, now, random, user).Happens(old(Now()), Now())
    {
      hide MsgId.NextId, Valid, Event.Happens, Snap.Only;
      ghost var b := Now();
      ghost var t, told := RespondOnly(p, now, random, user);
      if t != null {
        RespondsHappens(t, p, now, random, user, b, Now(), told);
      } else {
        NobodyResponds(p, now, random, user, b, Now());
      }
    }

    /** A response, and that no other transaction has changed but one that was thrown out. */
    method RespondOnly(p: Response, now: Timeval, random: uint32, user: User) returns (ghost t: Txn?, ghost told: seq<Call>)
      requires Valid()
      modifies this`broken, this`transactions, this`timers, this`current, ids`last, known
      ensures Valid()
      ensures t == null ==> Now() == old(Now())
      ensures t != null ==>
                && t in known && old(t.active) && |told| <= 2 && t.log == old(t.log) + told
                && Now().Only(old(Now()), t, random)
    {
      hide MsgId.NextId, After, IsFor, ReplyStatus, StaysActive, AsksNext, Acknowledges, Valid, NewCalls;
      ghost var b, was, holder := Now(), timers, Holder(MsgId.NextId(ids.last, random));
      Members();
      var status, u, reset := HandleResponse(p, now, random, user);
      t, told := u, [];
      if t != null {
        ghost var replies := !Acknowledges(t, p) && old(t.callback);
        told := if replies then old(NewCalls(t, p, user)) else [];
        forall x | x in known && x != t
          ensures Now().Same(b, x) || (x in holder && ids.last == MsgId.NextId(b.last, random) && Now().Thrown(b, x))
        {
          OtherTimers(timers, was, t, if replies && AsksNext(t, p, user) then holder else {}, x);
        }
      }
    }

    /** Any run of events: it goes through states that follow from each other by the events. */
    method Run(events: seq<Event>) returns (ghost states: seq<Snap>)
      requires Valid() && forall i | 0 <= i < |events| :: events[i].Subject() <= known
      modifies this`broken, this`transactions, this`timers, this`current, ids`last, known
      ensures Valid()
      ensures |states| == |events| + 1 && states[0] == old(Now()) && states[|events|] == Now()
      ensures forall i | 0 <= i < |events| :: events[i].Leads(states[i], states[i + 1])
      ensures forall x | x in known && old(!x.active) && NeverStarts(events, x) :: !x.active && x.log == old(x.log)
    {
      hide Valid, Now, Event.Leads, OnlyActive;
      states := [Now()];
      for i := 0 to |events|
        invariant Valid() && |states| == i + 1 && states[0] == old(Now()) && states[i] == Now()
        invariant forall j | 0 <= j < i :: events[j].Leads(states[j], states[j + 1])
        invariant forall x | x in known && old(!x.active) && NeverStarts(events, x) :: !x.active && x.log == old(x.log)
      {
        ghost var b := Now();
        AllowedIsSeen(events[i]);
        SeenAreKnown();
        Step(events[i]);
        StepLeads(events[i], b, Now());
        states := states + [Now()];
        forall x | x in known && old(!x.active) && NeverStarts(events, x)
          ensures !x.active && x.log == old(x.log)
        {
          QuietStays(events[i], b, Now(), x);
          SeenAreKnown();
        }
      }
    }

    lemma SeenAreKnown()
      ensures Now().of.Keys == known
      ensures Valid() ==> OnlyActive(Now())
      ensures forall x | x in known :: Now().of[x].active == x.active && Now().of[x].log == x.log
    {
    }

    /** Ends every transaction; the tree gets empty and so do the timers. */
    method Release()
      requires Valid()
      modifies this`transactions, this`timers, this`current, known`active, known`log, known`freed, known`kept
      ensures Valid() && transactions == map[] && timers == map[]
      ensures forall x | x in known :: !x.active
      ensures forall x | x in known ::
                x.log == old(x.log) + if old(x.active) && x.callback then [Invalidated] else []
    {
      hide Valid, Open;
      while transactions != map[]
        invariant Valid()
        invariant forall x | x in known :: x.active ==> old(x.active)
        invariant forall x | x in known ::
                    x.log == old(x.log) + if old(x.active) && !x.active && x.callback then [Invalidated] else []
        decreases |transactions|
      {
        var id :| id in transactions;
        Listed(id);
        End(transactions[id]);
      }
      EmptyTree();
    }

    lemma Listed(id: uint16)
      requires Valid() && id in transactions
      ensures transactions[id] in known && transactions[id].active && transactions[id].msgId == id && !transactions[id].freed
    {
    }

    lemma EmptyTree()
      requires Valid() && transactions == map[]
      ensures timers == map[] && forall x | x in known :: !x.active
    {
      assert forall x | x in known :: Ok(x);
    }

    /** What the callbacks have been told, in every state that any run can reach. */
    lemma CallbackPromise(t: Txn)
      requires Valid() && t in known && t.begun && t.listens
      ensures t.Plain() ==> |t.log| == if t.active then 0 else 1
      ensures t.always ==> (t.active <==> Invalidated !in t.log)
      ensures t.always && !t.active ==>
                && t.log[|t.log| - 1] == Invalidated
                && forall i | 0 <= i < |t.log| - 1 :: t.log[i] != Invalidated
      ensures t.active ==> Invalidated !in t.log
    {
    }

    /** Exactly the active transactions are in the tree, each under its own id, and those that end by themselves have a timer. */
    lemma TreeAndTimers(t: Txn)
      requires Valid() && t in known
      ensures t.active <==> t in transactions.Values
      ensures forall id | id in transactions && transactions[id] == t :: id == t.msgId
      ensures t in timers ==> t.active
      ensures t.active && !t.noAutoEnd ==> t in timers
      ensures forall u | u in known && t.active && u.active && t.msgId == u.msgId :: t == u
    {
    }
  }

  datatype Firing = Firing(now: Timeval, random: uint32, jitter: uint32)

  datatype Event =
    | Begins(txn: Txn, expiration: cms, now: Timeval, random: uint32)
    | Ends(txn: Txn)
    | Tickles(txn: Txn, now: Timeval)
    | Fires(txn: Txn, now: Timeval, random: uint32, jitter: uint32, user: User)
    | Responds(response: Response, now: Timeval, random: uint32, user: User)
  {
    function Subject(): set<Txn> {
      match this
      case Responds(_, _, _, _) => {}
      case _ => {txn}
    }

    predicate Starts(t: Txn) {
      Begins? && txn == t
    }

    /** Whether the event can happen. */
    ghost predicate AllowedIn(s: Snap)
      requires Subject() <= s.of.Keys
    {
      match this
      case Begins(t, _, _, random) =>
        var id := MsgId.NextId(s.last, random);
        && !s.of[t].active && !s.of[t].freed && s.of[t].msgId !in s.tree
        && (id in s.tree || (!s.of[t].kept.children && (s.tree == map[] ==> !s.of[t].kept.parent)))
      case Ends(t) => !s.of[t].freed
      case Tickles(t, _) => s.of[t].active
      case Fires(t, _, _, _, _) => t in s.timers
      case Responds(_, _, _, _) => true
    }

    /** One step of a run. */
    ghost predicate Leads(b: Snap, a: Snap) {
      Subject() <= b.of.Keys && if AllowedIn(b) then Happens(b, a) else a == b
    }

    /** What the event does. */
    ghost predicate Happens(b: Snap, a: Snap)
      requires Subject() <= b.of.Keys
    {
      && a.of.Keys == b.of.Keys
      && match this
         case Begins(t, expiration, now, random) =>
           var id := MsgId.NextId(b.last, random);
           && a.last == id && a.tree == b.tree[id := t] && t in a.timers
           && a.of[t] == b.of[t].(active := true, msgId := id, kept := NONE, log := [])
           && (b.of[t].resends ==> a.timers[t] == After(now, 0))
           && (!b.of[t].resends && !t.keepAlive ==> a.timers[t] == After(now, if expiration < 0 then 271250 else expiration))
           && forall x | x in b.of && x != t :: if id in b.tree && b.tree[id] == x then a.Thrown(b, x) else a.Same(b, x)
         case Ends(t) =>
           && a.last == b.last && (forall x | x in b.of && x != t :: a.Same(b, x))
           && if !b.of[t].active then a.tree == b.tree && a.timers == b.timers && a.of[t] == b.of[t]
              else
                && !a.of[t].active && a.tree == b.tree - {b.of[t].msgId} && a.timers == b.timers - {t}
                && a.of[t].log == b.of[t].log + if b.of[t].hears then [Invalidated] else []
         case Tickles(t, now) => a == b.(timers := b.timers[t := After(now, 0)])
         case Fires(t, now, random, jitter, user) =>
           && (a.of[t].sent == b.of[t].sent || a.of[t].sent == b.of[t].sent + [b.of[t].msgId])
           && (exists told :: |told| <= 2 && a.of[t].log == b.of[t].log + told)
           && (a.of[t].active ==> t in a.tree.Values)
           && a.Only(b, t, random)
         case Responds(p, now, random, user) =>
           || (a.tree == b.tree && a.timers == b.timers && a.last == b.last && a.of == b.of)
           || exists t | t in b.of && b.of[t].active ::
                && (exists told :: |told| <= 2 && a.of[t].log == b.of[t].log + told)
                && a.Only(b, t, random)
    }
  }

  lemma StepLeads(e: Event, b: Snap, a: Snap)
    requires e.Subject() <= b.of.Keys && if e.AllowedIn(b) then e.Happens(b, a) else a == b
    ensures e.Leads(b, a)
  {
  }

  lemma BeginsHappens(
    t: Txn, expiration: cms, now: Timeval, random: uint32, b: Snap, a: Snap, victim: Txn?
  )
    requires t in b.of && a.of.Keys == b.of.Keys && t in a.timers && b.of[t].msgId !in b.tree
    requires var id := MsgId.NextId(b.last, random);
             a.last == id && a.tree == b.tree[id := t] && victim == if id in b.tree then b.tree[id] else null
    requires a.of[t] == b.of[t].(active := true, msgId := a.last, kept := NONE, log := [])
    requires b.of[t].resends ==> a.timers[t] == After(now, 0)
    requires !b.of[t].resends && !t.keepAlive ==> a.timers[t] == After(now, if expiration < 0 then 271250 else expiration)
    requires forall x | x in b.of && x != t :: if x == victim then a.Thrown(b, x) else a.Same(b, x)
    ensures Event.Begins(t, expiration, now, random).Happens(b, a)
  {
  }

  lemma EndsHappens(t: Txn, b: Snap, a: Snap)
    requires t in b.of && a.of.Keys == b.of.Keys && a.last == b.last
    requires forall x | x in b.of && x != t :: a.Same(b, x)
    requires !b.of[t].active ==> a.tree == b.tree && a.timers == b.timers && a.of[t] == b.of[t]
    requires b.of[t].active ==>
               && !a.of[t].active && a.tree == b.tree - {b.of[t].msgId} && a.timers == b.timers - {t}
               && a.of[t].log == b.of[t].log + if b.of[t].hears then [Invalidated] else []
    ensures Event.Ends(t).Happens(b, a)
  {
  }

  lemma FiresHappens(
    t: Txn, now: Timeval, random: uint32, jitter: uint32, user: User, b: Snap, a: Snap, told: seq<Call>
  )
    requires t in b.of && a.of.Keys == b.of.Keys && (a.of[t].active ==> t in a.tree.Values)
    requires a.of[t].sent == b.of[t].sent || a.of[t].sent == b.of[t].sent + [b.of[t].msgId]
    requires |told| <= 2 && a.of[t].log == b.of[t].log + told && a.Only(b, t, random)
    ensures Event.Fires(t, now, random, jitter, user).Happens(b, a)
  {
  }

  lemma RespondsHappens(
    t: Txn, p: Response, now: Timeval, random: uint32, user: User, b: Snap, a: Snap, told: seq<Call>
  )
    requires t in b.of && b.of[t].active && a.of.Keys == b.of.Keys
    requires |told| <= 2 && a.of[t].log == b.of[t].log + told && a.Only(b, t, random)
    ensures Event.Responds(p, now, random, user).Happens(b, a)
  {
  }

  lemma NobodyResponds(p: Response, now: Timeval, random: uint32, user: User, b: Snap, a: Snap)
    requires a == b
    ensures Event.Responds(p, now, random, user).Happens(b, a)
  {
  }

  predicate NeverStarts(events: seq<Event>, t: Txn) {
    forall i | 0 <= i < |events| :: !events[i].Starts(t)
  }

  /** What can happen in a state: a response at any time, and anything else if its caller may do it. */
  lemma WhatCanHappen(e: Event, s: Snap)
    requires e.Subject() <= s.of.Keys
    ensures e.Responds? ==> e.AllowedIn(s)
    ensures e.Ends? ==> (e.AllowedIn(s) <==> !s.of[e.txn].freed)
    ensures e.Tickles? ==> (e.AllowedIn(s) <==> s.of[e.txn].active)
    ensures e.Fires? ==> (e.AllowedIn(s) <==> e.txn in s.timers)
    ensures e.Begins? && s.of[e.txn].kept == Kept(false, false) ==>
              (e.AllowedIn(s) <==> !s.of[e.txn].active && !s.of[e.txn].freed && s.of[e.txn].msgId !in s.tree)
  {
    hide MsgId.NextId;
  }

  /** In the tree and in the timers there are only active transactions. */
  ghost predicate OnlyActive(s: Snap) {
    && (forall id | id in s.tree :: s.tree[id] in s.of && s.of[s.tree[id]].active)
    && (forall t | t in s.timers :: t in s.of && s.of[t].active)
  }

  /** A transaction that is not active hears nothing, unless it is started. */
  lemma QuietStays(e: Event, b: Snap, a: Snap, x: Txn)
    requires OnlyActive(b) && e.Leads(b, a) && x in b.of && !b.of[x].active && !e.Starts(x)
    ensures x in a.of && !a.of[x].active && a.of[x].log == b.of[x].log
  {
    hide MsgId.NextId;
  }

  /** What is seen of a transaction. */
  datatype Look = Look(
    active: bool, msgId: uint16, freed: bool, kept: Kept, hears: bool, resends: bool, log: seq<Call>, sent: seq<uint16>)

  datatype Snap = Snap(tree: map<uint16, Txn>, timers: map<Txn, Timeval>, last: uint16, of: map<Txn, Look>) {

    ghost predicate Same(b: Snap, x: Txn)
      requires x in b.of
    {
      x in of && of[x] == b.of[x] && (x in timers <==> x in b.timers) && (x in timers ==> timers[x] == b.timers[x])
    }

    /** x has been thrown out of the tree, and told so. */
    ghost predicate Thrown(b: Snap, x: Txn)
      requires x in b.of
    {
      && x in of && !of[x].active && x !in timers
      && of[x].log == b.of[x].log + if b.of[x].hears then [Invalidated] else []
    }

    /** Nothing but t has changed, except that t may have thrown out the one that had the next id. */
    ghost predicate Only(b: Snap, t: Txn, random: uint32) {
      forall x | x in b.of && x != t ::
        var id := MsgId.NextId(b.last, random);
        Same(b, x) || (id in b.tree && b.tree[id] == x && last == id && Thrown(b, x))
    }
  }
}
