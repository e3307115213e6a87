/**
 The client of a block transfer is a transaction: a relation between the engine and the
 protocol that every step of either of them keeps.
 */
module BlockClient {
  import opened TimeVal
  import opened Block2
  import opened BlockTransfer
  import opened Transactions
  import MsgId
  import Options

  type byte = Options.byte
  type uint32 = MsgId.uint32

  /**
     The engine stands where the protocol stands: t is its only transaction, it is active as
     long as the protocol is, asks for the same block under the same id, and its callback has
     been called once for every block.
     */
  ghost predicate Simulates(e: Engine, t: Txn, w: Setting, s: State)
    reads e, e.ids, e.known, t
  {
    && e.Valid() && t in e.known
    && t.always && !t.observe && !t.noAutoEnd
    && BlockTransfer.Fits(w) && w.first == Whole && Inv(w, s)
    && match s.phase
       case Active => At(e, t, w, s)
       case Complete => e.transactions == map[] && |t.log| == s.blocks + 1
       case Ended => e.transactions == map[]
  }

  /** t is where the protocol is. */
  ghost predicate At(e: Engine, t: Txn, w: Setting, s: State)
    reads e, e.ids, t
  {
    && t.active && t.callback && e.transactions == map[t.msgId := t]
    && 1 <= |s.asks| <= |w.ids| && t.msgId == e.ids.last == w.ids[|s.asks| - 1]
    && s.asks[|s.asks| - 1] == AskFor(t.nextBlock2)
    && |t.log| == s.blocks
  }

  /** What the callback has been given, and, at the end, in how many blocks. */
  lemma SimulationIsExact(e: Engine, t: Txn, w: Setting, s: State)
    requires Simulates(e, t, w, s)
    ensures s.delivered <= w.resource
    ensures s.phase == Complete ==>
              && s.delivered == w.resource && s.size > 0
              && |t.log| - 1 == (|w.resource| + s.size - 1) / s.size
  {
    hide Inv;
    CompleteIsAll(w, s);
  }

  /** The transaction starts. */
  method Starts(e: Engine, t: Txn, w: Setting, expiration: cms, now: Timeval, random: uint32)
    requires e.Valid() && e.transactions == map[] && t in e.known && !t.active && !t.freed && t.kept == NONE
    requires t.always && !t.observe && !t.noAutoEnd && t.callback
    requires BlockTransfer.Fits(w) && w.first == Whole && w.ids[0] == MsgId.NextId(e.ids.last, random)
    modifies e`broken, e`transactions, e`timers, e.ids`last, t
    ensures Simulates(e, t, w, Start(w))
  {
    hide After, MsgId.NextId, Inv;
    StartHolds(w);
    var victim := e.Begin(t, expiration, now, random);
  }

  /** A firing that sends the request. */
  method SendsRequest(e: Engine, t: Txn, w: Setting, s: State, now: Timeval, random: uint32, jitter: uint32)
    requires Simulates(e, t, w, s) && s.phase == Active && e.Resending(t, now)
    modifies e`broken, e`transactions, e`timers, e`current, e.ids`last, e.transactions.Values
    ensures Enabled(w, s, Send) && Simulates(e, t, w, Do(w, s, Send))
    ensures t.sent == old(t.sent) + [w.ids[|s.asks| - 1]]
  {
    hide After, MsgId.NextId, Inv, BlockTransfer.Fits, TimeLeft, e.NextTimers, e.NextAttempt;
    StepKeeps(w, s, Send);
    e.TreeAndTimers(t);
    var status, resent := e.Fire(t, now, random, jitter, User(OK, OK, OK, false));
  }

  /** A firing that finds the time up, or cannot send. */
  method Expires(e: Engine, t: Txn, w: Setting, s: State, now: Timeval, random: uint32, jitter: uint32, user: User)
    requires Simulates(e, t, w, s) && s.phase == Active && e.Outcome(t, now, user) != OK
    modifies e`broken, e`transactions, e`timers, e`current, e.ids`last, e.transactions.Values
    ensures Enabled(w, s, GiveUp) && Simulates(e, t, w, Do(w, s, GiveUp))
  {
    hide After, MsgId.NextId, Inv, BlockTransfer.Fits, TimeLeft, e.NextTimers, e.NextAttempt;
    StepKeeps(w, s, GiveUp);
    e.TreeAndTimers(t);
    var status, resent := e.Fire(t, now, random, jitter, user);
  }

  /** The server answers a request, which the client does not notice. */
  lemma ServerWorks(e: Engine, t: Txn, w: Setting, s: State, id: uint16, asked: Asked, room: nat, space: nat)
    requires Simulates(e, t, w, s) && Enabled(w, s, ServerAnswers(id, asked, room, space))
    ensures Simulates(e, t, w, Do(w, s, ServerAnswers(id, asked, room, space)))
  {
    hide Inv, BlockTransfer.Fits, Serve, Endless;
    StepKeeps(w, s, ServerAnswers(id, asked, room, space));
  }

  /** A piggybacked response with this id and, if it has one, this block; one without a block has no option. */
  ghost predicate Carries(e: Engine, t: Txn, p: Response, id: uint16, reply: Reply)
    reads t
  {
    && p.tt == ACK && p.code != EMPTY && p.msgId == id
    && (id == t.msgId ==> e.TokenOf(p) == t.token && e.AddressOk(t, p))
    && p.block2 == if reply.Content? then reply.option else 0
  }

  /** A response is delivered: to the current request it is answered, and any other is ignored. */
  method Delivers(
    e: Engine, t: Txn, w: Setting, s: State, id: uint16, reply: Reply, p: Response, now: Timeval, random: uint32
  )
    requires Simulates(e, t, w, s) && Enabled(w, s, Deliver(id, reply)) && Carries(e, t, p, id, reply)
    requires |s.asks| < |w.ids| ==> w.ids[|s.asks|] == MsgId.NextId(e.ids.last, random)
    modifies e`broken, e`transactions, e`timers, e`current, e.ids`last, e.transactions.Values
    ensures Simulates(e, t, w, Do(w, s, Deliver(id, reply)))
  {
    hide After, MsgId.NextId, Inv, BlockTransfer.Fits, BlockSize, e.Freshness, e.KeptAlive;
    StepKeeps(w, s, Deliver(id, reply));
    if s.phase == Active && id == t.msgId {
      TakesBlock(e, t, w, s, reply, p, now, random);
    } else {
      NotForAnyone(e, p);
      var status, u, reset := e.HandleResponse(p, now, random, User(OK, OK, OK, false));
    }
  }

  lemma NotForAnyone(e: Engine, p: Response)
    requires p.msgId !in e.transactions && p.tt == ACK
    ensures forall u: Txn :: !e.IsFor(p, u)
  {
  }

  /** The response to the current request. */
  method TakesBlock(e: Engine, t: Txn, w: Setting, s: State, reply: Reply, p: Response, now: Timeval, random: uint32)
    requires e.Valid() && t in e.known && t.always && !t.observe && !t.noAutoEnd
    requires s.phase == Active && At(e, t, w, s) && Carries(e, t, p, t.msgId, reply)
    requires reply.Content? && More(reply.option) ==> |s.asks| < |w.ids| && w.ids[|s.asks|] == MsgId.NextId(e.ids.last, random)
    modifies e`broken, e`transactions, e`timers, e`current, e.ids`last, e.transactions.Values
    ensures e.Valid()
    ensures var after := Accept(s, reply);
            match after.phase
            case Active => At(e, t, w, after)
            case Complete => e.transactions == map[] && |t.log| == after.blocks + 1
            case Ended => e.transactions == map[]
  {
    hide After, MsgId.NextId, BlockSize, e.Freshness, e.KeptAlive;
    IsForOnly(e, t, p);
    assert e.transactions - {t.msgId} == map[];
    var status, u, reset := e.HandleResponse(p, now, random, User(OK, OK, OK, false));
  }

  lemma IsForOnly(e: Engine, t: Txn, p: Response)
    requires e.transactions == map[t.msgId := t] && p.msgId == t.msgId && e.TokenOf(p) == t.token && e.AddressOk(t, p)
    ensures e.IsFor(p, t) && forall u: Txn :: e.IsFor(p, u) ==> u == t
  {
  }
}
