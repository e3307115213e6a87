/**
 The answer of the plug-test server in a packet: the room that it has there, and what the
 client reads of it.
 */
module BlockAnswer {
  import opened Options
  import opened Outbound
  import opened Inbound
  import opened Block2
  import opened BlockTransfer
  import opened BlockRequest
  import opened Power

  /** The options of an answer: plain text, fresh for an hour, and the block. */
  function AnswerOptions(option: uint32): seq<Opt> {
    FirstOptions() + [Opt(23, EncodeUint(option))]
  }

  function FirstOptions(): seq<Opt> {
    [Opt(12, []), Opt(14, [14, 16])]
  }

  /** An option that follows the others closely is put behind them, with a header of one byte. */
  lemma OneMore(opts: seq<Opt>, o: Opt)
    requires WellFormed(0, opts) && Sorted(opts) == opts
    requires LastKey(0, opts) <= o.key < LastKey(0, opts) + 13 && o.key <= INVALID_KEY && |o.value| < 13
    ensures WellFormed(0, opts + [o]) && Sorted(opts + [o]) == opts + [o]
    ensures |EncodeList(0, opts + [o])| == |EncodeList(0, opts)| + 1 + |o.value|
  {
    hide EncodeList, Sorted, Insert, WellFormed;
    OneOption(LastKey(0, opts), o);
    WellFormedSplit(0, opts, [o]);
    EncodeSplit(0, opts, [o]);
    SortedMore(opts, o);
    forall i | 0 <= i < |opts|
      ensures opts[i].key <= o.key
    {
      KeysAscend(0, opts, i, |opts| - 1);
    }
    InsertedLast(opts, o);
  }

  lemma {:induction false} InsertedLast(opts: seq<Opt>, o: Opt)
    requires forall i | 0 <= i < |opts| :: opts[i].key <= o.key
    ensures Insert(opts, o) == opts + [o]
  {
    if opts != [] {
      InsertedLast(opts[1..], o);
      assert opts == [opts[0]] + opts[1..];
    }
  }

  lemma NoneSorted()
    ensures Sorted([]) == [] && WellFormed(0, []) && EncodeList(0, []) == []
  {
  }

  lemma FirstSorted()
    ensures Sorted([]) == [] && EncodeList(0, []) == []
    ensures WellFormed(0, [Opt(12, [])]) && |EncodeList(0, [Opt(12, [])])| == 1 && Sorted([Opt(12, [])]) == [Opt(12, [])]
    ensures WellFormed(0, FirstOptions()) && |EncodeList(0, FirstOptions())| == 4 && Sorted(FirstOptions()) == FirstOptions()
  {
    hide EncodeList, Sorted, WellFormed;
    var a, b := Opt(12, []), Opt(14, [14, 16]);
    NoneSorted();
    OneMore([], a);
    assert [] + [a] == [a] && [a] + [b] == FirstOptions();
    OneMore([a], b);
  }

  lemma AllSorted(option: uint32)
    ensures Sorted(AnswerOptions(option)) == AnswerOptions(option)
    ensures WellFormed(0, AnswerOptions(option)) && |EncodeList(0, AnswerOptions(option))| == 5 + |EncodeUint(option)|
  {
    hide EncodeUint, EncodeList, Sorted, WellFormed;
    ShortOption(option);
    FirstSorted();
    OneMore(FirstOptions(), Opt(23, EncodeUint(option)));
  }

  lemma OneOption(prev: nat, o: Opt)
    requires prev <= o.key < prev + 13 && o.key <= INVALID_KEY && |o.value| < 13
    ensures WellFormed(prev, [o]) && |EncodeList(prev, [o])| == 1 + |o.value|
  {
    HeaderForms(o.key - prev, |o.value|);
  }

  /** The packet that a client gets, if the server's handler comes to one. */
  method Answer(tt: nat, msgId: nat, token: array<byte>, isGet: bool, values: seq<seq<byte>>, length: uint32)
      returns (b: Builder?)
    requires tt < 4 && msgId < 65536 && token.Length <= 8
    requires (forall v | v in values :: Countable(v)) && !Endless(AskedBy(values))
    ensures var asked, room := AskedBy(values), RoomOf(token.Length);
            match Serve(Text(length), asked, room, SpaceOf(token.Length, Replied(asked, room, length)))
            case Failed => b == null
            case Content(option, payload) =>
              if !isGet then b == null
              else
                && b != null && fresh(b) && fresh(b.packet) && b.Valid()
                && b.header == AnswerHeader(tt, msgId, token.Length) && b.token == token[..]
                && b.added == AnswerOptions(option) && b.content == payload
  {
    hide EncodeList, WellFormed, Sorted, Shrink, BlockStart, BlockStop, BlockSize, SetMore, Text, EncodeUint, Serve, Endless, Replied, AskedBy, AnswerHeader;
    b := null;
    if !isGet {
      return;
    }
    var c := Begin(tt, msgId, token);
    var ready := AddFirst(c);
    assert ready;
    var room := c.SpaceRemaining() - 2;
    TextLength(length);
    ServeIs(length, AskedBy(values), room);
    var ok, option, start, stop := Choose(isGet, values, length, room);
    if !ok {
      return;
    }
    ready := AddBlock(c, option);
    assert ready;
    if c.SpaceRemaining() <= stop - start {
      return;
    }
    FillPacket(c, length, start, stop);
    b := c;
  }

  method Begin(tt: nat, msgId: nat, token: array<byte>) returns (c: Builder)
    requires tt < 4 && msgId < 65536 && token.Length <= 8
    ensures fresh(c) && fresh(c.packet) && c.Valid() && c.added == [] && c.content == [] && c.token == token[..]
    ensures c.header == AnswerHeader(tt, msgId, token.Length)
  {
    c := new Builder(69, tt, msgId, token);
  }

  /** A response with content: version 1, code 2.05. */
  function AnswerHeader(tt: nat, msgId: nat, tokenLen: nat): seq<byte>
    requires tt < 4 && msgId < 65536 && tokenLen <= 8
  {
    [64 + 16 * tt + tokenLen, 69, msgId % 256, msgId / 256]
  }

  lemma ServeIs(length: uint32, asked: Asked, room: nat)
    requires !Endless(asked)
    ensures var o := Shrink(Wanted(asked), room);
            var start, stop := BlockStart(o), BlockStart(o) + BlockSize(o);
            && Replied(asked, room, length) == SetMore(o, stop < length)
            && forall space: nat ::
                 Serve(Text(length), asked, room, space) ==
                   if start >= |Text(length)| || space <= stop - start then Failed
                   else Content(Replied(asked, room, length), Text(length)[start..if stop < length then stop else length])
  {
    hide Shrink, BlockStart, BlockStop, BlockSize, SetMore, ByteAt;
    var o := Shrink(Wanted(asked), room);
    EndlessIff(asked, room);
    StopIsAhead(o);
  }

  method AddFirst(c: Builder) returns (ok: bool)
    requires c.Valid() && c.added == [] && c.content == []
    modifies c, c.packet
    ensures c.Valid() && ok && c.added == FirstOptions() && c.content == []
    ensures c.header == old(c.header) && c.token == old(c.token) && c.SpaceRemaining() == RoomOf(|c.token|) + 2
  {
    hide EncodeList, WellFormed, Sorted, Insert;
    FirstSorted();
    var none := new byte[0];
    var hour := new byte[2](i => if i == 0 then 14 else 16);
    assert none[..] == [] && hour[..] == [14, 16] && [] + [Opt(12, [])] == [Opt(12, [])];
    var status := c.AddOption(12, none);
    ok := status.Ok?;
    status := c.AddOption(14, hour);
    ok := ok && status.Ok?;
  }

  method AddBlock(c: Builder, option: uint32) returns (ok: bool)
    requires c.Valid() && c.added == FirstOptions() && c.content == [] && c.SpaceRemaining() == RoomOf(|c.token|) + 2
    modifies c, c.packet
    ensures c.Valid() && ok && c.added == AnswerOptions(option) && c.content == []
    ensures c.header == old(c.header) && c.token == old(c.token) && c.SpaceRemaining() == SpaceOf(|c.token|, option)
  {
    hide EncodeList, WellFormed, Sorted, Insert, EncodeUint, DecodeUint;
    AllSorted(option);
    ShortOption(option);
    var be := BigEndian(option);
    BigEndianDecodes(option);
    var size := UintSize(be);
    var value := be[4 - size..];
    var bytes := new byte[size](i requires 0 <= i < size => value[i]);
    assert bytes[..] == value;
    var status := c.AddOption(23, bytes);
    ok := status.Ok?;
  }

  method FillPacket(c: Builder, length: uint32, start: uint32, stop: uint32)
    requires c.Valid() && c.content == [] && start <= stop && stop - start < c.SpaceRemaining() && start < length
    modifies c, c.packet
    ensures c.Valid() && c.header == old(c.header) && c.token == old(c.token) && c.added == old(c.added)
    ensures c.content == Text(length)[start..if stop < length then stop else length]
  {
    hide EncodeList, WellFormed, Sorted, ByteAt;
    var content := new byte[c.SpaceRemaining()];
    var n := Fill(content, length, start, stop);
    var value := new byte[n](i requires 0 <= i < n reads content => content[i]);
    assert value[..] == content[..n];
    var status := c.AppendContent(value);
  }

  /**
     A request for block k of the text, answered in a packet: the client reads block k, whether
     there are more, and the size, which is what was asked for, or 512 if the first block was
     asked for in more.
     */
  method BlockArrives(tt: nat, msgId: nat, token: array<byte>, asked: Asked, k: nat, length: uint32, e: nat)
      returns (got: seq<byte>, seen: seq<Opt>, content: seq<byte>)
    requires tt < 4 && msgId < 65536 && token.Length <= 8
    requires AsksFor(asked, k, length) && length > 0 && length + 2048 <= WORD && e < 6
    requires Pow2(e + 4) == BlockSize(Wanted(asked)) || (k == 0 && e == 5 && 512 < BlockSize(Wanted(asked)))
    ensures got == token[..]
    ensures var more := k * Pow2(e + 4) + Pow2(e + 4) < length;
            seen == AnswerOptions(16 * k + (if more then 8 else 0) + e)
    ensures content == BlockOf(Text(length), k, Pow2(e + 4))
  {
    hide EncodeUint, BlockSize, BlockOf, Text, Pow2, Sorted, UpToInvalid, AsksFor;
    var b := BlockSent(tt, msgId, token, asked, k, length, e);
    AllSorted(16 * k + (if k * Pow2(e + 4) + Pow2(e + 4) < length then 8 else 0) + e);
    var accepted;
    accepted, got, seen, content := Transfer(b);
  }

  /** The packet with that answer. */
  method BlockSent(tt: nat, msgId: nat, token: array<byte>, asked: Asked, k: nat, length: uint32, e: nat)
      returns (b: Builder)
    requires tt < 4 && msgId < 65536 && token.Length <= 8
    requires AsksFor(asked, k, length) && length > 0 && length + 2048 <= WORD && e < 6
    requires Pow2(e + 4) == BlockSize(Wanted(asked)) || (k == 0 && e == 5 && 512 < BlockSize(Wanted(asked)))
    ensures b.Valid() && b.header == AnswerHeader(tt, msgId, token.Length) && b.token == token[..]
    ensures b.content == BlockOf(Text(length), k, Pow2(e + 4))
    ensures var more := k * Pow2(e + 4) + Pow2(e + 4) < length;
            var option := 16 * k + (if more then 8 else 0) + e;
            option < WORD && b.added == AnswerOptions(option)
  {
    hide Serve, Endless, Shrink, BlockStart, BlockStop, BlockSize, SetMore, Text, EncodeUint, Replied, BlockOf, Sorted, Pow2, AskedBy, OnWire, AnswerOptions, AnswerHeader;
    var room := RoomOf(token.Length);
    ghost var space := SpaceOf(token.Length, Replied(asked, room, length));
    TextLength(length);
    AskedOnWire(asked);
    InTheRoom(asked, k, room, e);
    UpTo512(e);
    ServesExactly(Text(length), asked, k, room, space, e);
    b := Answer(tt, msgId, token, true, OnWire(asked), length);
  }

  lemma TextLength(length: uint32)
    ensures |Text(length)| == length
  {
  }

  lemma InTheRoom(asked: Asked, k: nat, room: nat, e: nat)
    requires 1013 <= room < 1024 && e < 6
    requires Pow2(e + 4) == BlockSize(Wanted(asked)) || (k == 0 && e == 5 && 512 < BlockSize(Wanted(asked)))
    ensures Sized(asked, k, room, e)
    ensures Pow2(e + 4) == BlockSize(Wanted(asked)) ==> e == Wanted(asked) % 8
  {
    hide Pow2, BlockSize;
    var d := Wanted(asked) % 8;
    SizeIsPower(Wanted(asked));
    Powers();
    UpTo512(e);
    if d < e {
      PowerBelow(d + 4, e + 4);
    } else if e < d {
      PowerBelow(e + 4, d + 4);
      if d > 5 { Pow2Grows(10, d + 4); }
    }
  }

  lemma PowerBelow(m: nat, n: nat)
    requires m < n
    ensures 2 * Pow2(m) <= Pow2(n)
  {
    Pow2Grows(m + 1, n);
  }
}
