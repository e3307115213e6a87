/**
 The Block2 option that the message builder puts into the requests of a transaction by
 itself, in front of the first option with a higher number.
 */
module BlockRequest {
  import opened Options
  import opened OptionBuffer
  import opened Outbound
  import opened Block2

  const BLOCK2: nat := 23

  /** The four bytes of an integer in network order. */
  function BigEndian(v: uint32): seq<byte> {
    [v / 256 / 256 / 256, v / 256 / 256 % 256, v / 256 % 256, v % 256]
  }

  lemma BigEndianDecodes(v: uint32)
    ensures DecodeUint(BigEndian(v)) == v
  {
    hide DecodeUint;
    var x, y, z := v / 256, v / 256 / 256, v / 256 / 256 / 256;
    NoBytes();
    DecodeNext([], 0, z);
    assert [] + [z % 256] == [z];
    DecodeNext([z], z, y);
    assert [z] + [y % 256] == [z, y % 256];
    DecodeNext([z, y % 256], y, x);
    assert [z, y % 256] + [x % 256] == [z, y % 256, x % 256];
    DecodeNext([z, y % 256, x % 256], x, v);
    assert [z, y % 256, x % 256] + [v % 256] == BigEndian(v);
  }

  lemma DecodeNext(s: seq<byte>, d: uint32, v: uint32)
    requires DecodeUint(s) == d == v / 256
    ensures DecodeUint(s + [v % 256]) == v
  {
    hide DecodeUint;
    DecodeJoin(s, v % 256);
  }

  /** While a next block is asked for, the packet has its option exactly if the options have come so far. */
  ghost predicate AsksOnce(b: Builder, next: uint32)
    reads b
  {
    next != 0 ==>
      WithKey(b.added, BLOCK2) == if b.lastOptionKey >= BLOCK2 then [Opt(BLOCK2, EncodeUint(next))] else []
  }

  /** The options once the automatic one is in, if it comes before an option with this number. */
  function UpTo(added: seq<Opt>, last: nat, key: nat, next: uint32): seq<Opt> {
    added + if next != 0 && last < BLOCK2 < key then [Opt(BLOCK2, EncodeUint(next))] else []
  }

  /** Adds the option before an option with a higher number is added. */
  method AddUpTo(b: Builder, key: nat, next: uint32) returns (status: Status)
    requires b.Valid() && AsksOnce(b, next)
    modifies b, b.packet
    ensures b.Valid() && AsksOnce(b, next)
    ensures b.added == if status.Ok? then UpTo(old(b.added), old(b.lastOptionKey), key, next) else old(b.added)
    ensures !status.Ok? ==> next != 0 && old(b.lastOptionKey) < 23 < key && b.SpaceRemaining() < |EncodeUint(next)| + 8
    ensures status.Ok? && next != 0 && key > BLOCK2 ==> b.lastOptionKey >= BLOCK2
    ensures next == 0 ==> status.Ok? && b.added == old(b.added)
  {
    hide b.Valid, EncodeUint, DecodeUint;
    status := Ok;
    if next != 0 && b.lastOptionKey < BLOCK2 && key > BLOCK2 {
      var be := BigEndian(next);
      BigEndianDecodes(next);
      var size := UintSize(be);
      var value := be[4 - size..];
      var bytes := new byte[size](i requires 0 <= i < size => value[i]);
      assert bytes[..] == value;
      WithKeySplit(b.added, [Opt(BLOCK2, value)], BLOCK2);
      status := b.AddOption(BLOCK2, bytes);
    }
  }

  /** Adds an option of the user's; a Block2 option of theirs is dropped when a next block is asked for. */
  method AddRequestOption(b: Builder, key: nat, value: array<byte>, next: uint32) returns (status: Status)
    requires b.Valid() && AsksOnce(b, next) && key <= INVALID_KEY && value != b.packet
    modifies b, b.packet
    ensures b.Valid() && AsksOnce(b, next)
    ensures status.Ok? ==>
              b.added == UpTo(old(b.added), old(b.lastOptionKey), key, next)
                         + if key == BLOCK2 && next != 0 then [] else [Opt(key, old(value[..]))]
    ensures !status.Ok? ==>
              || (&& b.added == old(b.added) && next != 0 && old(b.lastOptionKey) < 23 < key
                  && b.SpaceRemaining() < |EncodeUint(next)| + 8)
              || (&& b.added == UpTo(old(b.added), old(b.lastOptionKey), key, next) && !(key == 23 && next != 0)
                  && b.SpaceRemaining() < value.Length + 8)
  {
    hide b.Valid, EncodeUint;
    status := AddUpTo(b, key, next);
    if !status.Ok? {
      return;
    }
    if key == BLOCK2 && next != 0 {
      return;
    }
    OtherKey(b.added, Opt(key, value[..]));
    status := b.AddOption(key, value);
  }

  lemma OtherKey(added: seq<Opt>, o: Opt)
    ensures o.key != BLOCK2 ==> WithKey(added + [o], BLOCK2) == WithKey(added, BLOCK2)
  {
    WithKeySplit(added, [o], BLOCK2);
    if o.key != BLOCK2 {
      NoneWithKey([o], BLOCK2);
    }
  }

  /** The values of some options. */
  function ValuesOf(opts: seq<Opt>): seq<seq<byte>> {
    seq(|opts|, i requires 0 <= i < |opts| => opts[i].value)
  }

  /**
     The end of the options of a request.  If there was room for the option, the server reads
     from the packet, whose options stand sorted, exactly what the transaction asks for.
     */
  method FinishOptions(b: Builder, next: uint32) returns (status: Status)
    requires b.Valid() && AsksOnce(b, next)
    requires next == 0 ==> WithKey(b.added, BLOCK2) == []
    modifies b, b.packet
    ensures b.Valid()
    ensures b.added == if status.Ok? then UpTo(old(b.added), old(b.lastOptionKey), INVALID_KEY, next) else old(b.added)
    ensures !status.Ok? ==> next != 0 && old(b.lastOptionKey) < 23 && b.SpaceRemaining() < |EncodeUint(next)| + 8
    ensures status.Ok? ==>
              AskedBy(ValuesOf(WithKey(Sorted(b.added), 23))) == if next == 0 then Whole else Block(next)
  {
    hide b.Valid, EncodeUint, Sorted, WithKey;
    status := AddUpTo(b, INVALID_KEY, next);
    SortedIsStableSort(b.added);
    UintRoundTrip(next);
    assert ValuesOf([Opt(BLOCK2, EncodeUint(next))]) == [EncodeUint(next)];
  }
}
