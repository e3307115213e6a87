/**
 Transfer of a resource in blocks: the Block2 option, a server that keeps no state, and the
 client half of a transaction, over a network that loses, duplicates and reorders.
 */
module Block2 {
  import MsgId
  import opened Power
  import opened Options

  type uint16 = MsgId.uint16
  type uint32 = MsgId.uint32

  const WORD := 0x1_0000_0000
  const MORE := 8

  // ----- unsigned integers as option values

  /** The big-endian bytes of v without leading zeros; none at all for 0. */
  function EncodeUint(v: nat): seq<byte> {
    if v == 0 then [] else EncodeUint(v / 256) + [v % 256]
  }

  /** Bytes shifted in from the right into 32 bits. */
  function DecodeUint(s: seq<byte>): (v: uint32) {
    if s == [] then 0 else (DecodeUint(s[..|s| - 1]) * 256 + s[|s| - 1]) % WORD
  }

  function Pow256(n: nat): (p: nat)
    ensures p > 0
  {
    if n == 0 then 1 else 256 * Pow256(n - 1)
  }

  lemma One256()
    ensures Pow256(0) == 1
  {
  }

  lemma FitsInWord(n: nat, d: nat, b: byte)
    requires 1 <= n <= 4 && d < Pow256(n - 1)
    ensures d * 256 + b < Pow256(n)
    ensures (d * 256 + b) % WORD == d * 256 + b
  {
    assert Pow256(2) == 0x1_0000;
    assert Pow256(n) <= WORD;
  }

  lemma NoBytes()
    ensures EncodeUint(0) == [] && DecodeUint([]) == 0
  {
  }

  lemma DecodeJoin(t: seq<byte>, b: byte)
    requires DecodeUint(t) * 256 + b < WORD
    ensures DecodeUint(t + [b]) == DecodeUint(t) * 256 + b
  {
    assert (t + [b])[..|t|] == t;
  }

  /** The option value of an integer is read back as that integer. */
  lemma {:induction false} UintRoundTrip(v: uint32)
    ensures DecodeUint(EncodeUint(v)) == v
  {
    hide DecodeUint;
    NoBytes();
    if v > 0 {
      UintRoundTrip(v / 256);
      DecodeJoin(EncodeUint(v / 256), v % 256);
    }
  }

  /** It takes no more bytes than the integer needs. */
  lemma {:induction false} UintLength(v: nat, n: nat)
    ensures v < Pow256(n) <==> |EncodeUint(v)| <= n
  {
    if n > 0 && v > 0 {
      UintLength(v / 256, n - 1);
    }
  }

  /** Bytes that start with no zero are the encoding of what they decode to. */
  lemma {:induction false} DecodeThenEncode(s: seq<byte>)
    requires |s| <= 4 && (s != [] ==> s[0] != 0)
    ensures DecodeUint(s) < Pow256(|s|) && EncodeUint(DecodeUint(s)) == s
  {
    hide Pow256, EncodeUint, DecodeUint;
    NoBytes();
    One256();
    if s != [] {
      var t := s[..|s| - 1];
      DecodeThenEncode(t);
      var d, b := DecodeUint(t), s[|s| - 1];
      DecodeLast(s);
      if t == [] {
        assert b > 0;
      } else {
        assert d > 0;
      }
      EncodeLast(d, b);
      assert s == t + [b];
    }
  }

  lemma DecodeLast(s: seq<byte>)
    requires s != []
    ensures var d, b := DecodeUint(s[..|s| - 1]), s[|s| - 1];
            1 <= |s| <= 4 && d < Pow256(|s| - 1) ==> DecodeUint(s) == d * 256 + b < Pow256(|s|)
  {
    var d, b := DecodeUint(s[..|s| - 1]), s[|s| - 1];
    if |s| <= 4 && d < Pow256(|s| - 1) {
      FitsInWord(|s|, d, b);
    }
  }

  lemma EncodeLast(d: nat, b: byte)
    requires d * 256 + b > 0
    ensures EncodeUint(d * 256 + b) == EncodeUint(d) + [b]
  {
  }

  lemma {:induction false} LeadingZero(s: seq<byte>)
    ensures DecodeUint([0] + s) == DecodeUint(s)
  {
    if s == [] {
      assert ([0] + s)[..0] == [];
    } else {
      var t := s[..|s| - 1];
      LeadingZero(t);
      assert ([0] + s)[..|s|] == [0] + t;
    }
  }

  lemma {:induction false} SkipZeros(s: seq<byte>, k: nat)
    requires k <= |s| && forall i | 0 <= i < k :: s[i] == 0
    ensures DecodeUint(s[k..]) == DecodeUint(s)
  {
    if k == 0 {
      assert s[0..] == s;
    } else {
      SkipZeros(s, k - 1);
      LeadingZero(s[k..]);
      assert s[k - 1..] == [0] + s[k..];
    }
  }

  /** The number of bytes that the value needs, from its four big-endian bytes. */
  method UintSize(be: seq<byte>) returns (size: nat)
    requires |be| == 4
    ensures size <= 4 && be[4 - size..] == EncodeUint(DecodeUint(be))
  {
    size := if be[0] != 0 then 4 else if be[1] != 0 then 3 else if be[2] != 0 then 2 else if be[3] != 0 then 1 else 0;
    SkipZeros(be, 4 - size);
    DecodeThenEncode(be[4 - size..]);
  }

  lemma ReadOneMore(s: seq<byte>, i: nat)
    requires i < |s|
    ensures DecodeUint(s[..i + 1]) == (DecodeUint(s[..i]) * 256 % WORD + s[i]) % WORD
  {
    assert s[..i + 1][..i] == s[..i] && s[..i + 1][i] == s[i];
    AddWrapped(DecodeUint(s[..i]) * 256, s[i]);
  }

  lemma AddWrapped(a: nat, b: nat)
    ensures (a % WORD + b) % WORD == (a + b) % WORD
  {
    assert a == a / WORD * WORD + a % WORD;
  }

  /** The length is counted in 8 bits: a longer value is read by its length modulo 256. */
  method DecodeUint32(value: seq<byte>) returns (r: uint32)
    ensures r == DecodeUint(value[..|value| % 256])
  {
    var len: byte := |value| % 256;
    ghost var read := value[..len];
    var next: nat := 0;
    r := 0;
    while len != 0
      invariant next + len == |read| && r == DecodeUint(read[..next])
      decreases len
    {
      ReadOneMore(read, next);
      r := r * 256 % WORD;
      r := (r + value[next]) % WORD;
      next := next + 1;
      len := len - 1;
    }
    assert read[..next] == read;
  }

  // ----- the Block2 option

  /** The size exponent is in the lowest three bits. */
  function BlockSize(option: uint32): (size: nat)
    ensures size in {16, 32, 64, 128, 256, 512, 1024, 2048}
  {
    var e := option % 8;
    if e == 0 then 16 else if e == 1 then 32 else if e == 2 then 64 else if e == 3 then 128
    else if e == 4 then 256 else if e == 5 then 512 else if e == 6 then 1024 else 2048
  }

  /** From 16 on, every further exponent doubles the size. */
  lemma SizeIsPower(option: uint32)
    ensures BlockSize(option) == Pow2(option % 8 + 4)
  {
    assert Pow2(4) == 16 && Pow2(5) == 32 && Pow2(6) == 64 && Pow2(7) == 128;
    assert Pow2(8) == 256 && Pow2(9) == 512 && Pow2(10) == 1024 && Pow2(11) == 2048;
  }

  function BlockStart(option: uint32): uint32 {
    (option / 16 * BlockSize(option)) % WORD
  }

  function BlockStop(option: uint32): uint32 {
    (BlockStart(option) + BlockSize(option)) % WORD
  }

  predicate More(option: uint32) {
    option / MORE % 2 == 1
  }

  function SetMore(option: uint32, more: bool): uint32 {
    if more == More(option) then option else if more then option + MORE else option - MORE
  }

  // ----- the server

  /** Where a message carries no Block2 option its value is not looked at. */
  datatype Asked = Whole | Block(option: uint32)

  datatype Reply = Content(option: uint32, payload: seq<byte>) | Failed

  /** The last of the Block2 options counts. */
  function AskedBy(values: seq<seq<byte>>): Asked {
    if values == [] then Whole else Block(DecodeUint(values[|values| - 1]))
  }

  /** The Block2 options that a request carries on the wire. */
  function OnWire(asked: Asked): seq<seq<byte>> {
    if asked.Whole? then [] else [EncodeUint(asked.option)]
  }

  /** The server reads what the client asks, and can count through it. */
  lemma AskedOnWire(asked: Asked)
    ensures AskedBy(OnWire(asked)) == asked
    ensures forall v | v in OnWire(asked) :: Countable(v)
  {
    if asked.Block? {
      UintRoundTrip(asked.option);
      UintLength(asked.option, 4);
      assert Pow256(2) == 0x1_0000 && Pow256(4) == WORD;
    }
  }

  const DEFAULT_OPTION: uint32 := 3

  /** The block is made smaller until it fits, as long as it is the first one. */
  function Shrink(option: uint32, room: nat): (r: uint32)
    decreases option
  {
    if room < BlockSize(option) && option != 0 && BlockStart(option) == 0 then Shrink(option - 1, room) else option
  }

  function Wanted(asked: Asked): uint32 {
    if asked.Whole? then DEFAULT_OPTION else asked.option
  }

  /** The server would try a block that ends at 2^32, where the stop wraps to 0, for ever. */
  predicate Endless(asked: Asked) {
    BlockStart(Wanted(asked)) == WORD - BlockSize(Wanted(asked))
  }

  lemma Aligned(n: nat, size: nat, k: nat)
    requires size * k == WORD
    ensures (n * size) % WORD == size * (n % k) && size * (n % k) + size <= WORD
  {
    var q, r := n / k, n % k;
    assert n * size == WORD * q + size * r by {
      assert n == q * k + r;
      assert (q * k + r) * size == q * (k * size) + r * size;
    }
    assert size * r + size <= size * k by { MsgId.MulAdd(size, r, k - r); MsgId.MulAdd(size, 1, k - r - 1); }
    MsgId.ModIs(n * size, WORD, q, size * r);
  }

  lemma StopIsAhead(option: uint32)
    ensures BlockStart(option) + BlockSize(option) <= WORD
    ensures BlockStop(option) == 0 <==> BlockStart(option) + BlockSize(option) == WORD
    ensures BlockStop(option) != 0 ==> BlockStop(option) == BlockStart(option) + BlockSize(option)
  {
    Aligned(option / 16, BlockSize(option), WORD / BlockSize(option));
  }

  lemma HalfSize(option: uint32)
    requires option % 8 != 0
    ensures BlockSize(option) == 2 * BlockSize(option - 1) && (option - 1) / 16 == option / 16
  {
    OneLess(option / 8, option % 8);
  }

  lemma OneLess(q: nat, e: nat)
    requires 0 < e < 8
    ensures (8 * q + e - 1) % 8 == e - 1 && (8 * q + e - 1) / 16 == q / 2 == (8 * q + e) / 16
  {
  }

  /** Half of a multiple of 2^32 is one, or 2^31 away from one. */
  lemma HalfWord(n: nat, half: nat)
    requires (n * (2 * half)) % WORD == 0
    ensures (n * half) % WORD in {0, WORD / 2}
  {
    var p := n * half;
    assert n * (2 * half) == 2 * p by { MsgId.MulAssoc(2, n, half); MsgId.MulAssoc(n, 2, half); }
  }

  lemma SmallestNeverWraps(option: uint32)
    requires option % 8 == 0 && BlockStart(option) == 0
    ensures option < 16
  {
    assert BlockStart(option) == option / 16 * 16;
  }

  /** A step of the loop does not come to a block that ends at 2^32. */
  lemma StepStaysClear(option: uint32)
    requires option > 0 && BlockStart(option) == 0
    ensures BlockStop(option - 1) != 0
  {
    hide BlockSize;
    StopIsAhead(option - 1);
    if option % 8 == 0 {
      SmallestNeverWraps(option);
    } else {
      HalfSize(option);
      HalfWord(option / 16, BlockSize(option - 1));
    }
  }

  /** Where the loop ends, the stop is not 0, unless it was 0 from the start. */
  lemma {:induction false} ShrunkStop(option: uint32, room: nat)
    ensures BlockStop(Shrink(option, room)) == 0 <==> BlockStart(option) == WORD - BlockSize(option)
    decreases option
  {
    hide BlockSize, BlockStart, BlockStop;
    StopIsAhead(option);
    if room < BlockSize(option) && option != 0 && BlockStart(option) == 0 {
      StepStaysClear(option);
      StopIsAhead(option - 1);
      ShrunkStop(option - 1, room);
    }
  }

  /**
     The loop goes on for ever exactly when the wanted block ends at 2^32, whatever room there
     is: then its body changes nothing, and otherwise the stop it comes to is not 0.
     */
  lemma EndlessIff(asked: Asked, room: nat)
    ensures Endless(asked) <==> BlockStop(Shrink(Wanted(asked), room)) == 0
    ensures Endless(asked) ==> Shrink(Wanted(asked), room) == Wanted(asked)
  {
    hide BlockSize, BlockStart, BlockStop;
    ShrunkStop(Wanted(asked), room);
    StopIsAhead(Wanted(asked));
  }

  /** Offsets wrap, so more than one block number is such a block. */
  lemma EndlessBlocks()
    ensures Endless(Block(0xffff_fff7)) && Endless(Block(0x01ff_fff7))
  {
    MsgId.ModIs(0xfff_ffff * 2048, WORD, 0x7f, WORD - 2048);
    assert 0xffff_fff7 / 16 == 0xfff_ffff && 0x01ff_fff7 / 16 == 0x1f_ffff;
  }

  /** Of the options for the first block that come before the wanted one, the loop takes the last that fits. */
  lemma {:induction false} ShrinkFits(option: uint32, room: nat)
    requires option < 16
    ensures var r := Shrink(option, room);
            && r <= option && (r == 0 || BlockSize(r) <= room)
            && forall o: uint32 | r < o <= option :: room < BlockSize(o)
    decreases option
  {
    hide BlockSize;
    if option > 0 && room < BlockSize(option) {
      ShrinkFits(option - 1, room);
    }
  }

  /** Without room for the wanted first block the loop takes the largest size that there is room for, or else the smallest. */
  lemma {:induction false} ShrunkSize(option: uint32, room: nat)
    requires option < 16 && room < BlockSize(option)
    ensures var size := BlockSize(Shrink(option, room));
            size <= room < 2 * size || (room < 16 && size == 16)
    decreases option
  {
    hide Shrink;
    ShrinkOnce(option, room);
    if option > 0 {
      SmallerSize(option);
      if room < BlockSize(option - 1) {
        ShrunkSize(option - 1, room);
      } else {
        ShrinkOnce(option - 1, room);
      }
    }
  }

  lemma ShrinkOnce(option: uint32, room: nat)
    requires option < 16
    ensures Shrink(option, room) == if room < BlockSize(option) && option != 0 then Shrink(option - 1, room) else option
  {
  }

  lemma SmallerSize(option: uint32)
    requires 0 < option < 16
    ensures if option == 8 then BlockSize(option) == 16 && BlockSize(option - 1) == 2048 else BlockSize(option) == 2 * BlockSize(option - 1)
  {
  }

  /** The option of the answer. */
  function Replied(asked: Asked, room: nat, length: nat): uint32 {
    var option := Shrink(Wanted(asked), room);
    SetMore(option, BlockStop(option) < length)
  }

  /** What the server answers when `room` bytes are left before the Block2 option is added and `space` after. */
  function Serve(resource: seq<byte>, asked: Asked, room: nat, space: nat): Reply
    requires !Endless(asked)
  {
    var option := Shrink(Wanted(asked), room);
    EndlessIff(asked, room);
    StopIsAhead(option);
    var start, stop := BlockStart(option), BlockStop(option);
    if start >= |resource| || space <= stop - start then Failed
    else Content(Replied(asked, room, |resource|), resource[start..if stop < |resource| then stop else |resource|])
  }

  // ----- the room in a packet

  /** What the server takes for the room: all but two of the 1032 bytes behind header, token, marker and its first two options. */
  function RoomOf(tokenLen: nat): nat
    requires tokenLen <= 8
  {
    1021 - tokenLen
  }

  /** What is left behind the Block2 option. */
  function SpaceOf(tokenLen: nat, option: uint32): (space: nat)
    requires tokenLen <= 8
    ensures 1018 - tokenLen <= space <= 1022 - tokenLen
  {
    ShortOption(option);
    1022 - tokenLen - |EncodeUint(option)|
  }

  lemma ShortOption(option: uint32)
    ensures |EncodeUint(option)| <= 4
  {
    UintLength(option, 4);
    assert Pow256(2) == 0x1_0000 && Pow256(4) == WORD;
  }

  // ----- the handler

  function ByteAt(i: nat): byte {
    if (i + 1) % 64 == 0 then 10 else 48 + i % 10
  }

  /** The digits 0 to 9 in turn, and every 64th byte ends a line. */
  lemma Letters()
    ensures forall i: nat :: ByteAt(i) == if i % 64 == 63 then 10 else 48 + i % 10
  {
  }

  /** The text that the plug-test server serves. */
  function Text(length: nat): seq<byte> {
    seq(length, (i: nat) => ByteAt(i))
  }

  /** A value that an 8-bit counter can be counted through. */
  predicate Countable(value: seq<byte>) {
    |value| < 256
  }

  /** The 8-bit counter after n rounds of a loop. */
  function CounterAt(n: nat): byte {
    n % 256
  }

  /** In some round the counter reaches the length of a value exactly when the value is countable. */
  lemma CounterEnds(value: seq<byte>)
    ensures Countable(value) <==> exists n: nat :: CounterAt(n) >= |value|
  {
    if Countable(value) {
      assert CounterAt(|value|) >= |value|;
    }
  }

  /** 256 zero bytes ask for an ordinary block, but are not countable. */
  lemma LongValue(value: seq<byte>)
    requires |value| == 256 && forall i | 0 <= i < 256 :: value[i] == 0
    ensures !Countable(value) && !Endless(AskedBy([value]))
  {
    SkipZeros(value, 256);
    NoBytes();
    assert value[256..] == [];
  }

  /** The loop over the bytes of one value; its counter has 8 bits. */
  method ReadValue(value: seq<byte>) returns (option: uint32)
    requires Countable(value)
    ensures option == DecodeUint(value)
  {
    option := 0;
    var i: byte := 0;
    while i < |value|
      invariant i <= |value| && option == DecodeUint(value[..i])
      decreases |value| - i
    {
      assert value[..i + 1][..i] == value[..i];
      option := (option * 256 + value[i]) % WORD;
      i := (i + 1) % 256;
    }
    assert value[..|value|] == value;
  }

  /** The loop over the options of the request. */
  method ReadOption(values: seq<seq<byte>>) returns (option: uint32)
    requires forall v | v in values :: Countable(v)
    ensures option == Wanted(AskedBy(values))
    ensures option == if values == [] then 3 else DecodeUint(values[|values| - 1])
  {
    option := DEFAULT_OPTION;
    for i := 0 to |values|
      invariant option == Wanted(AskedBy(values[..i]))
    {
      option := ReadValue(values[i]);
      assert values[..i + 1][|values[..i + 1]| - 1] == values[i];
    }
    assert values[..|values|] == values;
  }

  /** The loop that makes the first block smaller until it fits. */
  method FitBlock(wanted: uint32, room: nat) returns (option: uint32, start: uint32, stop: uint32)
    requires BlockStart(wanted) != WORD - BlockSize(wanted)
    ensures option == Shrink(wanted, room) && start == BlockStart(option) && stop == BlockStop(option)
    ensures stop == start + BlockSize(option)
  {
    hide BlockSize, BlockStart, BlockStop;
    option, start, stop := wanted, 0, 0;
    ShrunkStop(wanted, room);
    var again := true;
    while again
      invariant Shrink(option, room) == Shrink(wanted, room)
      invariant !again ==> Shrink(option, room) == option && start == BlockStart(option) && stop == BlockStop(option)
      decreases again, option
    {
      start := BlockStart(option);
      stop := BlockStop(option);
      StopIsAhead(option);
      if room < stop - start && option != 0 && start == 0 {
        option := option - 1;
        stop := 0;
      }
      again := stop == 0;
    }
    StopIsAhead(option);
  }

  /** The block from `start` to `stop`, written also where it lies behind the end of the text. */
  method FillContent(content: array<byte>, start: uint32, stop: uint32)
    requires start <= stop && stop - start <= content.Length
    modifies content
    ensures forall k | start <= k < stop :: content[k - start] == ByteAt(k)
  {
    hide ByteAt;
    for i := start to stop
      invariant forall k | start <= k < i :: content[k - start] == ByteAt(k)
    {
      content[i - start] := ByteAt(i);
    }
  }

  /**
     The request handler of the plug-test server.  `values` are the Block2 options of the
     request; `content` is the room that is left for the answer.
     */
  method LargeHandler(isGet: bool, values: seq<seq<byte>>, length: uint32, room: nat, content: array<byte>)
      returns (ok: bool, option: uint32, contentLen: nat)
    requires (forall v | v in values :: Countable(v)) && !Endless(AskedBy(values))
    modifies content
    ensures !isGet ==> !ok
    ensures isGet ==> match Serve(Text(length), AskedBy(values), room, content.Length)
                      case Content(o, p) => ok && option == o && contentLen <= content.Length && content[..contentLen] == p
                      case Failed => !ok
  {
    hide BlockSize, BlockStart, BlockStop, ByteAt, Shrink, SetMore;
    option, contentLen := DEFAULT_OPTION, 0;
    var start, stop;
    ok, option, start, stop := Choose(isGet, values, length, room);
    if ok {
      ok := content.Length > stop - start;
      if ok {
        contentLen := Fill(content, length, start, stop);
      }
    }
  }

  /** The first half: which block is answered, if any. */
  method Choose(isGet: bool, values: seq<seq<byte>>, length: uint32, room: nat)
      returns (ok: bool, option: uint32, start: uint32, stop: uint32)
    requires (forall v | v in values :: Countable(v)) && !Endless(AskedBy(values))
    ensures var o := Shrink(Wanted(AskedBy(values)), room);
            && start == (if isGet then BlockStart(o) else 0) && (isGet ==> stop == BlockStop(o) == start + BlockSize(o))
            && (ok <==> isGet && start < length)
            && (ok ==> option == SetMore(o, stop < length))
  {
    hide BlockSize, BlockStart, BlockStop, Shrink, SetMore;
    ok, option, start, stop := false, DEFAULT_OPTION, 0, 0;
    if isGet {
      option := ReadOption(values);
      option, start, stop := FitBlock(option, room);
      if start < length {
        ok := true;
        option := SetMore(option, stop < length);
      }
    }
  }

  /** The second half: the content. */
  method Fill(content: array<byte>, length: uint32, start: uint32, stop: uint32) returns (contentLen: nat)
    requires start <= stop && stop - start < content.Length && start < length
    modifies content
    ensures contentLen <= content.Length
    ensures content[..contentLen] == Text(length)[start..if stop < length then stop else length]
    ensures forall i | 0 <= i < contentLen :: content[i] == if (start + i) % 64 == 63 then 10 else 48 + (start + i) % 10
  {
    hide ByteAt;
    Letters();
    FillContent(content, start, stop);
    contentLen := if stop - start < length - start then stop - start else length - start;
    forall k | 0 <= k < contentLen
      ensures content[..contentLen][k] == Text(length)[start..start + contentLen][k]
      ensures content[k] == ByteAt(start + k)
    {
      assert content[(start + k) - start] == ByteAt(start + k);
    }
    assert content[..contentLen] == Text(length)[start..start + contentLen];
  }
}
