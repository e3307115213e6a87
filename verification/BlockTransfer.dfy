/**
 A transfer over a network that loses, duplicates and reorders: the client half of a
 transaction asks a server that keeps no state for one block after the other, every one
 under a fresh message id.
 */
module BlockTransfer {
  import MsgId
  import opened Options
  import opened Block2
  import opened Power

  datatype Message =
    | Request(id: uint16, asked: Asked)
    | Answer(id: uint16, reply: Reply)

  datatype Phase = Active | Complete | Ended

  /**
     The network holds every message that was ever sent: one that is lost is never taken
     from it, one that is duplicated is taken again.  `asks` are the requests of the
     transaction, the last of them is current; `blocks` counts the payloads that were
     given to the callback, and `size` is the block size of the last one.
     */
  datatype State = State(asks: seq<Asked>, delivered: seq<byte>, blocks: nat, size: nat, phase: Phase, net: set<Message>)

  datatype Step =
    | Send
    | ServerAnswers(id: uint16, asked: Asked, room: nat, space: nat)
    | Deliver(id: uint16, reply: Reply)
    | GiveUp

  /** What a transfer is about: the resource, the message ids in the order in which they come, and the first request. */
  datatype Setting = Setting(resource: seq<byte>, ids: seq<uint16>, first: Asked)

  ghost predicate Fits(w: Setting) {
    && |w.resource| + 2048 <= WORD
    && (forall i, j | 0 <= i < j < |w.ids| :: w.ids[i] != w.ids[j])
    && |w.ids| > 0
    && (w.first.Block? ==> w.first.option < 16)
  }

  function Start(w: Setting): State {
    State([w.first], [], 0, 0, Active, {})
  }

  /** The option of the next request; a value of 0 is not sent. */
  function AskFor(next: uint32): Asked {
    if next == 0 then Whole else Block(next)
  }

  /** The callback gets the payload; if more blocks follow, the transaction asks for the next one. */
  function Accept(s: State, reply: Reply): State {
    match reply
    case Failed => s.(phase := Ended)
    case Content(option, payload) =>
      var got := s.(delivered := s.delivered + payload, blocks := s.blocks + 1, size := BlockSize(option));
      if More(option) then got.(asks := s.asks + [AskFor((option + 16) % WORD)])
      else got.(phase := Complete)
  }

  /** A response is taken by the message id of the current request; all others are ignored. */
  predicate Matches(w: Setting, s: State, id: uint16) {
    s.phase == Active && 1 <= |s.asks| <= |w.ids| && id == w.ids[|s.asks| - 1]
  }

  predicate Enabled(w: Setting, s: State, step: Step) {
    match step
    case Send => s.phase == Active && 1 <= |s.asks| <= |w.ids|
    case ServerAnswers(id, asked, room, space) => Request(id, asked) in s.net && !Endless(asked)
    case Deliver(id, reply) =>
      && Answer(id, reply) in s.net
      && (Matches(w, s, id) && reply.Content? && More(reply.option) ==> |s.asks| < |w.ids|)
    case GiveUp => s.phase == Active
  }

  function Do(w: Setting, s: State, step: Step): State
    requires Enabled(w, s, step)
  {
    match step
    case Send => s.(net := s.net + {Request(w.ids[|s.asks| - 1], s.asks[|s.asks| - 1])})
    case ServerAnswers(id, asked, room, space) =>
      s.(net := s.net + {Answer(id, Serve(w.resource, asked, room, space))})
    case Deliver(id, reply) => if Matches(w, s, id) then Accept(s, reply) else s
    case GiveUp => s.(phase := Ended)
  }

  /** The ids that an instance makes from one seed on, up to the next zero, serve for a transfer. */
  lemma IdsFromOneSeed(last: uint16, randoms: seq<uint32>, ids: seq<uint16>, i: nat, j: nat, resource: seq<byte>)
    requires MsgId.IsRun(last, randoms, ids) && i < j <= |ids|
    requires forall k | i <= k < j - 1 :: ids[k] != 0
    requires |resource| + 2048 <= WORD
    ensures Fits(Setting(resource, ids[i..j], Whole))
  {
    hide MsgId.IsRun;
    var own := ids[i..j];
    forall m, n | 0 <= m < n < |own|
      ensures own[m] != own[n]
    {
      MsgId.IdsBetweenSeedsDiffer(last, randoms, ids, i + m, i + n);
    }
  }

  // ----- what every step keeps

  /** Request k asks for block k, in blocks of one size. */
  ghost predicate AsksInOrder(w: Setting, s: State) {
    && 1 <= |s.asks| <= |w.ids|
    && s.asks[0] == w.first
    && (|s.asks| > 1 ==> s.size >= 16)
    && forall k | 1 <= k < |s.asks| ::
         s.asks[k].Block? && s.asks[k].option / 16 == k && BlockSize(s.asks[k].option) == s.size && k * s.size < |w.resource|
  }

  ghost predicate Asked'(w: Setting, s: State, id: uint16, asked: Asked, k: nat) {
    k < |s.asks| && k < |w.ids| && id == w.ids[k] && asked == s.asks[k]
  }

  ghost predicate Answered(w: Setting, s: State, id: uint16, reply: Reply, k: nat) {
    && k < |s.asks| && k < |w.ids| && id == w.ids[k]
    && exists room, space :: !Endless(s.asks[k]) && reply == Serve(w.resource, s.asks[k], room, space)
  }

  ghost predicate Honest(w: Setting, s: State) {
    && (forall id, asked | Request(id, asked) in s.net :: exists k :: Asked'(w, s, id, asked, k))
    && (forall id, reply | Answer(id, reply) in s.net :: exists k :: Answered(w, s, id, reply, k))
  }

  ghost predicate Exact(w: Setting, s: State) {
    match s.phase
    case Active =>
      && s.blocks == |s.asks| - 1
      && s.blocks * s.size <= |w.resource|
      && s.delivered == w.resource[..s.blocks * s.size]
    case Complete =>
      && s.delivered == w.resource
      && s.blocks > 0 && (s.blocks - 1) * s.size < |w.resource| <= s.blocks * s.size
    case Ended => s.delivered <= w.resource
  }

  ghost predicate Inv(w: Setting, s: State) {
    AsksInOrder(w, s) && Honest(w, s) && Exact(w, s)
  }

  // ----- one block

  lemma {:induction false} ShrinkFirst(option: uint32, room: nat)
    requires option < 16
    ensures Shrink(option, room) < 16
    decreases option
  {
    hide BlockSize, BlockStart;
    if option > 0 {
      ShrinkFirst(option - 1, room);
    }
  }

  lemma StartAt(option: uint32, k: nat)
    requires option / 16 == k && k * BlockSize(option) + 2048 < WORD
    ensures BlockStart(option) == k * BlockSize(option)
    ensures BlockStop(option) == k * BlockSize(option) + BlockSize(option) != 0
  {
    hide BlockSize;
    var size := BlockSize(option);
    StopIsAhead(option);
  }

  /** The lowest four bits of an option: the flag and the size exponent. */
  lemma Bits(option: uint32)
    ensures var q, r := option / 16, option % 16;
            && option / MORE % 2 == r / MORE && option % 8 == r % 8
            && (r < 8 ==> (option + MORE) / 16 == q && (option + MORE) % 16 == r + MORE)
            && (r >= 8 ==> (option - MORE) / 16 == q && (option - MORE) % 16 == r - MORE)
  {
    var q, r := option / 16, option % 16;
    assert option == 8 * (2 * q + r / 8) + r % 8;
  }

  lemma MoreKeeps(option: uint32, more: bool)
    ensures SetMore(option, more) / 16 == option / 16
    ensures BlockSize(SetMore(option, more)) == BlockSize(option)
    ensures More(SetMore(option, more)) <==> more
  {
    Bits(option);
    Bits(SetMore(option, more));
  }

  /** A request for block k. */
  predicate AsksFor(asked: Asked, k: nat, length: nat) {
    if k == 0 then asked.Block? ==> asked.option < 16
    else asked.Block? && asked.option / 16 == k && k * BlockSize(asked.option) < length
  }

  /** The block that the server chooses for it. */
  lemma ShrunkBlock(asked: Asked, k: nat, length: nat, room: nat)
    requires AsksFor(asked, k, length) && length + 2048 <= WORD
    ensures var option := Shrink(Wanted(asked), room);
            && option / 16 == k
            && (k > 0 ==> option == asked.option)
            && k * BlockSize(option) + 2048 < WORD
            && !Endless(asked)
  {
    hide BlockSize, BlockStart, BlockStop;
    var option := Shrink(Wanted(asked), room);
    if k == 0 {
      ShrinkFirst(Wanted(asked), room);
    } else {
      StartAt(asked.option, k);
      PositiveTimes(k, BlockSize(asked.option));
    }
    StartAt(option, k);
  }

  lemma PositiveTimes(k: nat, size: nat)
    requires k > 0 && size > 0
    ensures k * size > 0
  {
  }

  /** Block k of a resource that is divided into blocks of one size. */
  function BlockOf(resource: seq<byte>, k: nat, size: nat): seq<byte> {
    Cut(resource, k * size, size)
  }

  /** At most `length` bytes from `start` on. */
  function Cut(s: seq<byte>, start: nat, length: nat): seq<byte> {
    if start >= |s| then [] else if start + length < |s| then s[start..start + length] else s[start..]
  }

  /** The answer to a request for block k is block k, and it tells whether more blocks follow. */
  lemma ServesBlock(resource: seq<byte>, asked: Asked, k: nat, room: nat, space: nat)
    requires AsksFor(asked, k, |resource|) && |resource| + 2048 <= WORD
    ensures !Endless(asked)
    ensures var reply := Serve(resource, asked, room, space);
            reply.Content? ==>
              var size := BlockSize(reply.option);
              && reply.option / 16 == k
              && (k > 0 ==> size == BlockSize(asked.option))
              && k * size < |resource|
              && (More(reply.option) <==> k * size + size < |resource|)
              && reply.payload == BlockOf(resource, k, size)
  {
    hide BlockSize, BlockStart, BlockStop, Shrink, More, SetMore;
    var option := Shrink(Wanted(asked), room);
    ShrunkBlock(asked, k, |resource|, room);
    StartAt(option, k);
    MoreKeeps(option, BlockStop(option) < |resource|);
    StopIsAhead(option);
  }

  /** The size of the block that is answered to a request for block k, as an exponent. */
  predicate Sized(asked: Asked, k: nat, room: nat, e: nat) {
    var size := BlockSize(Wanted(asked));
    if k > 0 || size <= room then e == Wanted(asked) % 8
    else Pow2(e + 4) <= room < Pow2(e + 5) || (room < 16 && e == 0)
  }

  /**
     When and how the server answers a request for block k.  The size is the one that was asked
     for, or for the first block the largest that there is room for; it answers exactly if the
     block exists and there is more space than it takes.
     */
  lemma ServesExactly(resource: seq<byte>, asked: Asked, k: nat, room: nat, space: nat, e: nat)
    requires AsksFor(asked, k, |resource|) && |resource| + 2048 <= WORD && e < 8 && Sized(asked, k, room, e)
    ensures !Endless(asked)
    ensures var size := Pow2(e + 4);
            Serve(resource, asked, room, space) ==
              if k * size < |resource| && size < space
              then Content(16 * k + (if k * size + size < |resource| then 8 else 0) + e, BlockOf(resource, k, size))
              else Failed
  {
    hide BlockSize, BlockStart, BlockStop, Shrink, More, SetMore, Pow2;
    var option := Shrink(Wanted(asked), room);
    ShrunkBlock(asked, k, |resource|, room);
    ShrunkExponent(asked, k, room, e);
    SizeIsPower(option);
    StartAt(option, k);
    StopIsAhead(option);
    var reply := Serve(resource, asked, room, space);
    if reply.Content? {
      ServesBlock(resource, asked, k, room, space);
      MoreKeeps(option, BlockStop(option) < |resource|);
      OptionParts(reply.option);
      SameExponent(option, BlockStop(option) < |resource|);
    }
  }

  lemma OptionParts(option: uint32)
    ensures option == 16 * (option / 16) + (if More(option) then 8 else 0) + option % 8
  {
    Bits(option);
  }

  lemma SameExponent(option: uint32, more: bool)
    ensures SetMore(option, more) % 8 == option % 8
  {
    Bits(option);
    Bits(SetMore(option, more));
  }

  lemma ShrunkExponent(asked: Asked, k: nat, room: nat, e: nat)
    requires (if k == 0 then Wanted(asked) < 16 else asked.Block? && Shrink(Wanted(asked), room) == Wanted(asked))
    requires e < 8 && Sized(asked, k, room, e)
    ensures Shrink(Wanted(asked), room) % 8 == e
  {
    hide BlockSize, Pow2;
    var option := Shrink(Wanted(asked), room);
    if k == 0 && room < BlockSize(Wanted(asked)) {
      ShrunkSize(Wanted(asked), room);
      SizeIsPower(option);
      OnePower(option % 8, e, room);
    }
  }

  /** Between two powers of two that follow each other there is no third. */
  lemma OnePower(d: nat, e: nat, room: nat)
    requires Pow2(e + 4) <= room < Pow2(e + 5) || (room < 16 && e == 0)
    requires Pow2(d + 4) <= room < 2 * Pow2(d + 4) || (room < 16 && Pow2(d + 4) == 16)
    ensures d == e
  {
    assert Pow2(4) == 16;
    Pow2Grows(4, d + 4);
    Pow2Grows(4, e + 4);
    if d < e {
      Pow2Grows(d + 5, e + 4);
    } else if e < d {
      Pow2Grows(e + 5, d + 4);
    }
  }

  // ----- every step keeps the invariant

  lemma StartHolds(w: Setting)
    requires Fits(w)
    ensures Inv(w, Start(w))
  {
    assert w.resource[..0] == [];
  }

  lemma CurrentAsks(w: Setting, s: State, k: nat)
    requires Fits(w) && AsksInOrder(w, s) && k < |s.asks|
    ensures AsksFor(s.asks[k], k, |w.resource|)
  {
    hide BlockSize;
  }

  /** No request that is ever made keeps the server in its loop. */
  lemma ServerAlwaysAnswers(w: Setting, s: State, id: uint16, asked: Asked)
    requires Fits(w) && Inv(w, s) && Request(id, asked) in s.net
    ensures !Endless(asked)
  {
    var k :| Asked'(w, s, id, asked, k);
    CurrentAsks(w, s, k);
    ShrunkBlock(asked, k, |w.resource|, 0);
  }

  lemma HonestGrows(w: Setting, s: State, t: State)
    requires Honest(w, s) && s.asks <= t.asks && s.net == t.net
    ensures Honest(w, t)
  {
    hide Serve, Endless;
    forall id, asked | Request(id, asked) in t.net
      ensures exists k :: Asked'(w, t, id, asked, k)
    {
      var k :| Asked'(w, s, id, asked, k);
      assert Asked'(w, t, id, asked, k);
    }
    forall id, reply | Answer(id, reply) in t.net
      ensures exists k :: Answered(w, t, id, reply, k)
    {
      var k :| Answered(w, s, id, reply, k);
      assert Answered(w, t, id, reply, k);
    }
  }

  lemma SendKeeps(w: Setting, s: State)
    requires Fits(w) && Inv(w, s) && Enabled(w, s, Send)
    ensures Inv(w, Do(w, s, Send))
  {
    hide Serve, Endless, BlockSize;
    var t := Do(w, s, Send);
    var n := |s.asks| - 1;
    forall id, asked | Request(id, asked) in t.net
      ensures exists k :: Asked'(w, t, id, asked, k)
    {
      if Request(id, asked) in s.net {
        var k :| Asked'(w, s, id, asked, k);
        assert Asked'(w, t, id, asked, k);
      } else {
        assert Asked'(w, t, id, asked, n);
      }
    }
    forall id, reply | Answer(id, reply) in t.net
      ensures exists k :: Answered(w, t, id, reply, k)
    {
      var k :| Answered(w, s, id, reply, k);
      assert Answered(w, t, id, reply, k);
    }
  }

  lemma AnswerKeeps(w: Setting, s: State, id: uint16, asked: Asked, room: nat, space: nat)
    requires Fits(w) && Inv(w, s) && Enabled(w, s, ServerAnswers(id, asked, room, space))
    ensures Inv(w, Do(w, s, ServerAnswers(id, asked, room, space)))
  {
    hide Serve, Endless, BlockSize;
    var t := Do(w, s, ServerAnswers(id, asked, room, space));
    var n :| Asked'(w, s, id, asked, n);
    forall id', asked' | Request(id', asked') in t.net
      ensures exists k :: Asked'(w, t, id', asked', k)
    {
      var k :| Asked'(w, s, id', asked', k);
      assert Asked'(w, t, id', asked', k);
    }
    forall id', reply | Answer(id', reply) in t.net
      ensures exists k :: Answered(w, t, id', reply, k)
    {
      if Answer(id', reply) in s.net {
        var k :| Answered(w, s, id', reply, k);
        assert Answered(w, t, id', reply, k);
      } else {
        assert Answered(w, t, id', reply, n);
      }
    }
  }

  /** The message id of a response that is taken tells which block it answers: the current one. */
  lemma AnswersCurrent(w: Setting, s: State, id: uint16, reply: Reply)
    requires Fits(w) && Inv(w, s) && Answer(id, reply) in s.net && Matches(w, s, id)
    ensures Answered(w, s, id, reply, |s.asks| - 1)
  {
    hide Serve, Endless, BlockSize;
    var k: nat :| Answered(w, s, id, reply, k);
    var n := |s.asks| - 1;
    assert w.ids[k] == w.ids[n];
  }

  lemma NextIsAsked(option: uint32, k: nat, length: nat)
    requires option / 16 == k && More(option) && k * BlockSize(option) + BlockSize(option) < length && length + 2048 <= WORD
    ensures var asked := AskFor((option + 16) % WORD);
            asked.Block? && asked.option / 16 == k + 1 && BlockSize(asked.option) == BlockSize(option)
  {
    hide BlockSize;
    TimesGrows(k, 16, BlockSize(option));
    SizeOfNext(option);
  }

  lemma TimesGrows(k: nat, a: nat, b: nat)
    requires a <= b
    ensures k * a <= k * b
  {
  }

  lemma SizeOfNext(option: uint32)
    requires option + 16 < WORD
    ensures BlockSize(option + 16) == BlockSize(option)
  {
  }

  lemma DeliverKeeps(w: Setting, s: State, id: uint16, reply: Reply)
    requires Fits(w) && Inv(w, s) && Enabled(w, s, Deliver(id, reply))
    ensures Inv(w, Do(w, s, Deliver(id, reply)))
  {
    hide Serve, Endless, BlockSize, More;
    if Matches(w, s, id) {
      var k := |s.asks| - 1;
      AnswersCurrent(w, s, id, reply);
      var room, space :| !Endless(s.asks[k]) && reply == Serve(w.resource, s.asks[k], room, space);
      CurrentAsks(w, s, k);
      ServesBlock(w.resource, s.asks[k], k, room, space);
      AcceptKeeps(w, s, reply);
    }
  }

  lemma JoinCut(s: seq<byte>, start: nat, length: nat)
    requires start <= |s|
    ensures s[..start] + Cut(s, start, length) == if start + length < |s| then s[..start + length] else s
  {
  }

  /** Taking block k when blocks 0 to k - 1 have been taken. */
  lemma AcceptKeeps(w: Setting, s: State, reply: Reply)
    requires Fits(w) && Inv(w, s) && s.phase == Active
    requires reply.Content? ==>
               var k := |s.asks| - 1;
               var size := BlockSize(reply.option);
               && (More(reply.option) ==> |s.asks| < |w.ids|)
               && reply.option / 16 == k
               && (k > 0 ==> size == BlockSize(s.asks[k].option))
               && k * size < |w.resource|
               && (More(reply.option) <==> k * size + size < |w.resource|)
               && reply.payload == BlockOf(w.resource, k, size)
    ensures Inv(w, Accept(s, reply))
  {
    hide BlockSize, More, Answered, Asked', Serve, Endless, Shrink;
    var t := Accept(s, reply);
    HonestGrows(w, s, t);
    if reply.Content? {
      var k := |s.asks| - 1;
      var size := BlockSize(reply.option);
      if More(reply.option) {
        NextIsAsked(reply.option, k, |w.resource|);
      }
      MsgId.MulAdd(size, k, 1);
      MsgId.MulAssoc(size, k, 1);
      MsgId.MulAssoc(size, k + 1, 1);
      JoinCut(w.resource, k * size, size);
    }
  }

  /** Every step keeps what was delivered exact. */
  lemma StepKeeps(w: Setting, s: State, step: Step)
    requires Fits(w) && Inv(w, s) && Enabled(w, s, step)
    ensures Inv(w, Do(w, s, step))
    ensures s.delivered <= Do(w, s, step).delivered
  {
    hide Inv, Serve, BlockSize, More;
    match step
    case Send => SendKeeps(w, s);
    case ServerAnswers(id, asked, room, space) => AnswerKeeps(w, s, id, asked, room, space);
    case Deliver(id, reply) => DeliverKeeps(w, s, id, reply);
    case GiveUp => GiveUpKeeps(w, s);
  }

  lemma GiveUpKeeps(w: Setting, s: State)
    requires Fits(w) && Inv(w, s) && Enabled(w, s, GiveUp)
    ensures Inv(w, Do(w, s, GiveUp))
  {
    HonestGrows(w, s, Do(w, s, GiveUp));
  }

  // ----- whole runs

  /** A sequence of steps, each of them possible where it is made, and the states it goes through. */
  ghost predicate Run(w: Setting, steps: seq<Step>, states: seq<State>) {
    && |states| == |steps| + 1
    && states[0] == Start(w)
    && forall i | 0 <= i < |steps| :: Enabled(w, states[i], steps[i]) && states[i + 1] == Do(w, states[i], steps[i])
  }

  lemma {:induction false} RunKeeps(w: Setting, steps: seq<Step>, states: seq<State>, i: nat)
    requires Fits(w) && Run(w, steps, states) && i < |states|
    ensures Inv(w, states[i])
  {
    hide Inv, Do, Enabled;
    if i == 0 {
      StartHolds(w);
    } else {
      RunKeeps(w, steps, states, i - 1);
      StepKeeps(w, states[i - 1], steps[i - 1]);
    }
  }

  lemma CompleteIsAll(w: Setting, s: State)
    requires Fits(w) && Inv(w, s)
    ensures s.delivered <= w.resource
    ensures s.phase == Complete ==> s.delivered == w.resource
    ensures s.phase == Complete ==> s.size > 0 && s.blocks == (|w.resource| + s.size - 1) / s.size
  {
    hide AsksInOrder, Honest;
    if s.phase == Complete {
      RoundedUp(|w.resource|, s.size, s.blocks);
    }
  }

  /**
     However the network behaves, in every state the callback has been given a prefix of the
     resource.  When the transfer is complete it has been given all of it, in as many blocks
     as the resource has, rounded up.
     */
  lemma {:induction false} TransferIsExact(w: Setting, steps: seq<Step>, states: seq<State>, i: nat)
    requires Fits(w) && Run(w, steps, states) && i < |states|
    ensures states[i].delivered <= w.resource
    ensures states[i].phase == Complete ==> states[i].delivered == w.resource
    ensures states[i].phase == Complete ==>
              states[i].size > 0 && states[i].blocks == (|w.resource| + states[i].size - 1) / states[i].size
  {
    hide Inv, Run;
    RunKeeps(w, steps, states, i);
    CompleteIsAll(w, states[i]);
  }

  /** No request of any run keeps the server in its loop. */
  lemma {:induction false} ServerAnswersInRuns(
    w: Setting, steps: seq<Step>, states: seq<State>, i: nat, id: uint16, asked: Asked
  )
    requires Fits(w) && Run(w, steps, states) && i < |states|
    requires Request(id, asked) in states[i].net
    ensures !Endless(asked)
    ensures AskedBy(OnWire(asked)) == asked && forall v | v in OnWire(asked) :: Countable(v)
  {
    hide Inv, Run, Endless;
    AskedOnWire(asked);
    RunKeeps(w, steps, states, i);
    ServerAlwaysAnswers(w, states[i], id, asked);
  }

  lemma RoundedUp(length: nat, size: nat, blocks: nat)
    requires blocks > 0 && (blocks - 1) * size < length <= blocks * size
    ensures size > 0 && blocks == (length + size - 1) / size
  {
    if size > 0 {
      var r := length - (blocks - 1) * size - 1;
      assert length + size - 1 == size * blocks + r;
      MsgId.ModIs(length + size - 1, size, blocks, r);
    }
  }

  // ----- the transfer can always go on

  ghost predicate CanGo(w: Setting, s: State, steps: seq<Step>)
    decreases |steps|
  {
    steps == [] || (Enabled(w, s, steps[0]) && CanGo(w, Do(w, s, steps[0]), steps[1..]))
  }

  ghost function GoTo(w: Setting, s: State, steps: seq<Step>): State
    requires CanGo(w, s, steps)
    decreases |steps|
  {
    if steps == [] then s else GoTo(w, Do(w, s, steps[0]), steps[1..])
  }

  /** The server's answers stand in packets of 1032 bytes, with its other options and a token of two bytes. */
  predicate InPacket(w: Setting, step: Step) {
    step.ServerAnswers? ==>
      && step.room == RoomOf(2)
      && step.space == SpaceOf(2, Replied(step.asked, step.room, |w.resource|))
  }

  /** In such packets, blocks have up to 512 bytes. */
  ghost predicate Small(w: Setting, s: State) {
    && (|s.asks| > 1 ==> s.size <= 512)
    && forall id, reply | Answer(id, reply) in s.net && reply.Content? :: BlockSize(reply.option) <= 512
  }

  /** The exponent of the blocks that a request for block k is answered with. */
  lemma SizeInPacket(asked: Asked, k: nat, room: nat) returns (e: nat)
    requires 1013 <= room < 1024 && (k > 0 ==> BlockSize(Wanted(asked)) <= 512)
    ensures e < 6 && Sized(asked, k, room, e)
  {
    hide Pow2, BlockSize;
    var size := BlockSize(Wanted(asked));
    SizeIsPower(Wanted(asked));
    Powers();
    if k > 0 || size <= room {
      e := Wanted(asked) % 8;
      if e >= 6 { Pow2Grows(10, e + 4); }
    } else {
      e := 5;
    }
  }

  lemma Powers()
    ensures Pow2(9) == 512 && Pow2(10) == 1024
  {
    assert Pow2(5) == 32;
  }

  lemma UpTo512(e: nat)
    requires e < 6
    ensures 16 <= Pow2(e + 4) <= 512
  {
    Pow2Grows(4, e + 4);
    Pow2Grows(e + 4, 9);
    Powers();
    assert Pow2(4) == 16;
  }

  /** In a packet there is enough space for every such block. */
  lemma ServesContent(w: Setting, asked: Asked, k: nat)
    requires Fits(w) && AsksFor(asked, k, |w.resource|) && |w.resource| > 0 && (k > 0 ==> BlockSize(asked.option) <= 512)
    ensures !Endless(asked)
    ensures var room := RoomOf(2);
            var reply := Serve(w.resource, asked, room, SpaceOf(2, Replied(asked, room, |w.resource|)));
            reply.Content? && BlockSize(reply.option) <= 512
  {
    hide BlockSize, Serve, Endless, Replied, Pow2, More;
    var room := RoomOf(2);
    var space := SpaceOf(2, Replied(asked, room, |w.resource|));
    var e := SizeInPacket(asked, k, room);
    UpTo512(e);
    SizeIsPower(Wanted(asked));
    ServesExactly(w.resource, asked, k, room, space, e);
    ServesBlock(w.resource, asked, k, room, space);
    SizeIsPower(Serve(w.resource, asked, room, space).option);
    OptionIs(k, k * Pow2(e + 4) + Pow2(e + 4) < |w.resource|, e);
  }

  lemma OptionIs(k: nat, more: bool, e: nat)
    requires e < 8
    ensures (16 * k + (if more then 8 else 0) + e) % 8 == e
  {
  }

  /** A request, its answer and its delivery make one block of progress. */
  lemma OneBlock(w: Setting, s: State) returns (steps: seq<Step>)
    requires Fits(w) && Inv(w, s) && s.phase == Active && |w.resource| > 0 && |w.ids| > |w.resource| / 16
    requires |s.asks| > 1 ==> s.size <= 512
    ensures CanGo(w, s, steps) && forall i | 0 <= i < |steps| :: InPacket(w, steps[i])
    ensures var t := GoTo(w, s, steps);
            && Inv(w, t) && (|t.asks| > 1 ==> t.size <= 512)
            && (t.phase == Complete || (t.phase == Active && |t.asks| == |s.asks| + 1 && |s.asks| < |w.resource|))
  {
    hide Inv, BlockSize, Serve, Endless, More, Replied, AsksFor, BlockOf, EncodeUint;
    var k := |s.asks| - 1;
    AsksExist(w, s);
    var id, asked := w.ids[k], s.asks[k];
    var room := RoomOf(2);
    var space := SpaceOf(2, Replied(asked, room, |w.resource|));
    ServesContent(w, asked, k);
    ServesBlock(w.resource, asked, k, room, space);
    var reply := Serve(w.resource, asked, room, space);
    var size := BlockSize(reply.option);
    TimesGrows(k, 16, size);
    var s1 := Do(w, s, Send);
    StepKeeps(w, s, Send);
    var answer := ServerAnswers(id, asked, room, space);
    assert Enabled(w, s1, answer);
    var s2 := Do(w, s1, answer);
    StepKeeps(w, s1, answer);
    var deliver := Deliver(id, reply);
    assert Enabled(w, s2, deliver);
    StepKeeps(w, s2, deliver);
    steps := [Send, answer, deliver];
    ThreeSteps(w, s, Send, answer, deliver);
  }

  lemma AsksExist(w: Setting, s: State)
    requires Fits(w) && Inv(w, s)
    ensures 1 <= |s.asks| <= |w.ids| && AsksFor(s.asks[|s.asks| - 1], |s.asks| - 1, |w.resource|)
    ensures |s.asks| > 1 ==> BlockSize(s.asks[|s.asks| - 1].option) == s.size
  {
    CurrentAsks(w, s, |s.asks| - 1);
  }

  lemma StepFirst(w: Setting, s: State, a: Step, rest: seq<Step>)
    requires Enabled(w, s, a) && CanGo(w, Do(w, s, a), rest)
    ensures CanGo(w, s, [a] + rest) && GoTo(w, s, [a] + rest) == GoTo(w, Do(w, s, a), rest)
  {
    hide Enabled, Do;
    assert ([a] + rest)[1..] == rest;
  }

  lemma ThreeSteps(w: Setting, s: State, a: Step, b: Step, c: Step)
    requires Enabled(w, s, a) && Enabled(w, Do(w, s, a), b) && Enabled(w, Do(w, Do(w, s, a), b), c)
    ensures CanGo(w, s, [a, b, c]) && GoTo(w, s, [a, b, c]) == Do(w, Do(w, Do(w, s, a), b), c)
  {
    hide Enabled, Do;
    var s1 := Do(w, s, a);
    var s2 := Do(w, s1, b);
    StepFirst(w, s2, c, []);
    StepFirst(w, s1, b, [c] + []);
    StepFirst(w, s, a, [b] + ([c] + []));
    assert [a, b, c] == [a] + ([b] + ([c] + []));
  }

  lemma {:induction false} GoOn(w: Setting, s: State, first: seq<Step>, rest: seq<Step>)
    requires CanGo(w, s, first) && CanGo(w, GoTo(w, s, first), rest)
    ensures CanGo(w, s, first + rest) && GoTo(w, s, first + rest) == GoTo(w, GoTo(w, s, first), rest)
    decreases |first|
  {
    hide Enabled, Do;
    if first == [] {
      assert first + rest == rest;
    } else {
      GoOn(w, Do(w, s, first[0]), first[1..], rest);
      assert (first + rest)[1..] == first[1..] + rest;
    }
  }

  /** Whatever has been lost so far, a transfer of a resource that is not empty can still be completed in packets. */
  lemma {:induction false} CanFinish(w: Setting, s: State) returns (steps: seq<Step>)
    requires Fits(w) && Inv(w, s) && s.phase == Active && |w.resource| > 0 && |w.ids| > |w.resource| / 16
    requires |s.asks| > 1 ==> s.size <= 512
    ensures CanGo(w, s, steps) && GoTo(w, s, steps).phase == Complete
    ensures forall i | 0 <= i < |steps| :: InPacket(w, steps[i])
    decreases |w.resource| - |s.asks|
  {
    hide Inv, CanGo, GoTo, InPacket;
    steps := OneBlock(w, s);
    var t := GoTo(w, s, steps);
    if t.phase != Complete {
      var rest := CanFinish(w, t);
      GoOn(w, s, steps, rest);
      steps := steps + rest;
    }
  }

  /** When all answers stand in packets, blocks stay small. */
  lemma StaysSmall(w: Setting, s: State, step: Step)
    requires Fits(w) && Inv(w, s) && Enabled(w, s, step) && Small(w, s) && InPacket(w, step) && |w.resource| > 0
    ensures Small(w, Do(w, s, step))
  {
    hide BlockSize, Serve, Endless, More, Replied;
    if step.ServerAnswers? {
      var k: nat :| Asked'(w, s, step.id, step.asked, k);
      CurrentAsks(w, s, k);
      ServesContent(w, step.asked, k);
    }
  }

  lemma {:induction false} RunStaysSmall(w: Setting, steps: seq<Step>, states: seq<State>, i: nat)
    requires Fits(w) && Run(w, steps, states) && i < |states| && |w.resource| > 0
    requires forall j | 0 <= j < |steps| :: InPacket(w, steps[j])
    ensures Small(w, states[i])
  {
    hide Inv, Do, Enabled, InPacket;
    if i > 0 {
      RunKeeps(w, steps, states, i - 1);
      RunStaysSmall(w, steps, states, i - 1);
      StaysSmall(w, states[i - 1], steps[i - 1]);
    }
  }

  /** In any run on packets, in every state in which the transfer is active it can be completed. */
  lemma RunsCanFinish(w: Setting, steps: seq<Step>, states: seq<State>, i: nat) returns (rest: seq<Step>)
    requires Fits(w) && Run(w, steps, states) && i < |states| && states[i].phase == Active
    requires forall j | 0 <= j < |steps| :: InPacket(w, steps[j])
    requires |w.resource| > 0 && |w.ids| > |w.resource| / 16
    ensures CanGo(w, states[i], rest) && GoTo(w, states[i], rest).phase == Complete
    ensures forall j | 0 <= j < |rest| :: InPacket(w, rest[j])
  {
    hide Run, Inv, CanGo, GoTo, InPacket;
    RunKeeps(w, steps, states, i);
    RunStaysSmall(w, steps, states, i);
    rest := CanFinish(w, states[i]);
  }

  /** A block behind the first one that was asked for in 1024 bytes or more is never served in a packet. */
  lemma LargeBlocksFail(resource: seq<byte>, asked: Asked, k: nat, tokenLen: nat)
    requires k > 0 && AsksFor(asked, k, |resource|) && |resource| + 2048 <= WORD && tokenLen <= 8
    requires BlockSize(asked.option) >= 1024
    ensures !Endless(asked)
    ensures var room := RoomOf(tokenLen);
            Serve(resource, asked, room, SpaceOf(tokenLen, Replied(asked, room, |resource|))) == Failed
  {
    hide BlockSize, Serve, Endless, Replied, Pow2;
    SizeIsPower(asked.option);
    var room := RoomOf(tokenLen);
    ServesExactly(resource, asked, k, room, SpaceOf(tokenLen, Replied(asked, room, |resource|)), asked.option % 8);
  }

  /** The network may deliver what it has at any later time and any number of times. */
  lemma StaysDeliverable(w: Setting, s: State, step: Step, message: Message)
    requires Enabled(w, s, step) && message in s.net
    ensures message in Do(w, s, step).net
    ensures var t := Do(w, s, step);
            match message
            case Request(id, asked) => forall room, space | !Endless(asked) :: Enabled(w, t, ServerAnswers(id, asked, room, space))
            case Answer(id, reply) => |t.asks| < |w.ids| ==> Enabled(w, t, Deliver(id, reply))
  {
    hide Serve, Endless, BlockSize, More;
  }

  /** An empty resource is never transferred: the server refuses its first block. */
  lemma {:induction false} EmptyNeverCompletes(w: Setting, steps: seq<Step>, states: seq<State>, i: nat)
    requires Fits(w) && Run(w, steps, states) && i < |states| && w.resource == []
    ensures states[i].phase != Complete
  {
    hide Run;
    RunKeeps(w, steps, states, i);
  }
}
