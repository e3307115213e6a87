/**
 Building a packet: options may be added in any order, then content.  The options always
 stand sorted in the packet buffer.
 */
module Outbound {
  import opened Options
  import opened OptionBuffer
  import opened Packet
  import opened Inbound

  const MAX_PACKET := 1032

  datatype Status = Ok | MessageTooBig

  // ----- the order of the options

  /** The options after adding `added` one by one. */
  function Sorted(added: seq<Opt>): seq<Opt> {
    if added == [] then [] else Insert(Sorted(added[..|added| - 1]), added[|added| - 1])
  }

  lemma SortedMore(added: seq<Opt>, o: Opt)
    ensures Sorted(added + [o]) == Insert(Sorted(added), o)
  {
    assert (added + [o])[..|added|] == added;
  }

  predicate Ascending(opts: seq<Opt>) {
    forall i, j :: 0 <= i < j < |opts| ==> opts[i].key <= opts[j].key
  }

  /** The options with number `key`, in their order. */
  function WithKey(opts: seq<Opt>, key: nat): seq<Opt> {
    if opts == [] then [] else (if opts[0].key == key then [opts[0]] else []) + WithKey(opts[1..], key)
  }

  lemma {:induction false} WithKeySplit(a: seq<Opt>, b: seq<Opt>, key: nat)
    ensures WithKey(a + b, key) == WithKey(a, key) + WithKey(b, key)
  {
    if a == [] {
      assert a + b == b;
    } else {
      assert (a + b)[1..] == a[1..] + b;
      WithKeySplit(a[1..], b, key);
      Assoc(if a[0].key == key then [a[0]] else [], WithKey(a[1..], key), WithKey(b, key));
    }
  }

  lemma {:induction false} NoneWithKey(a: seq<Opt>, key: nat)
    requires forall i :: 0 <= i < |a| ==> a[i].key != key
    ensures WithKey(a, key) == []
  {
    if a != [] { NoneWithKey(a[1..], key); }
  }

  lemma InsertAscends(opts: seq<Opt>, o: Opt)
    requires Ascending(opts)
    ensures Ascending(Insert(opts, o))
  {
    hide Insert, Rank;
    RankBounds(opts, o.key);
    InsertAtRank(opts, o);
  }

  lemma {:induction false} InsertPermutes(opts: seq<Opt>, o: Opt)
    ensures multiset(Insert(opts, o)) == multiset(opts) + multiset{o}
  {
    if opts != [] {
      assert opts == [opts[0]] + opts[1..];
      InsertPermutes(opts[1..], o);
    }
  }

  lemma InsertIsStable(opts: seq<Opt>, o: Opt, key: nat)
    requires Ascending(opts)
    ensures WithKey(Insert(opts, o), key) == WithKey(opts, key) + WithKey([o], key)
  {
    hide Insert, Rank, WithKey;
    var r := Rank(opts, o.key);
    RankBounds(opts, o.key);
    InsertAtRank(opts, o);
    var a, b := opts[..r], opts[r..];
    assert opts == a + b;
    WithKeySplit(a, b, key);
    assert a + [o] + b == a + ([o] + b);
    WithKeySplit(a, [o] + b, key);
    WithKeySplit([o], b, key);
    if key == o.key { NoneWithKey(b, key); } else { NoneWithKey([o], key); }
  }

  /** `Sorted` is the stable sort by option number: ascending, a permutation, and options
      with one number keep the order in which they were added. */
  lemma {:induction false} SortedIsStableSort(added: seq<Opt>)
    ensures Ascending(Sorted(added)) && multiset(Sorted(added)) == multiset(added)
    ensures forall key :: WithKey(Sorted(added), key) == WithKey(added, key)
  {
    if added != [] {
      var init, last := added[..|added| - 1], added[|added| - 1];
      assert added == init + [last];
      SortedIsStableSort(init);
      forall key ensures WithKey(Sorted(added), key) == WithKey(added, key) {
        InsertIsStable(Sorted(init), last, key);
        WithKeySplit(init, [last], key);
      }
      InsertAscends(Sorted(init), last);
      InsertPermutes(Sorted(init), last);
    }
  }

  /** Nothing else has these properties. */
  lemma {:induction false} StableSortIsUnique(a: seq<Opt>, b: seq<Opt>)
    requires Ascending(a) && Ascending(b) && forall key :: WithKey(a, key) == WithKey(b, key)
    ensures a == b
  {
    EmptyTogether(a, b);
    EmptyTogether(b, a);
    if a != [] {
      SameFirst(a, b);
      forall key ensures WithKey(a[1..], key) == WithKey(b[1..], key) {
        var n := if a[0].key == key then 1 else 0;
        assert WithKey(a, key)[n..] == WithKey(a[1..], key);
        assert WithKey(b, key)[n..] == WithKey(b[1..], key);
      }
      StableSortIsUnique(a[1..], b[1..]);
      assert a == [a[0]] + a[1..] && b == [b[0]] + b[1..];
    }
  }

  lemma EmptyTogether(a: seq<Opt>, b: seq<Opt>)
    requires forall key :: WithKey(a, key) == WithKey(b, key)
    ensures b != [] ==> a != []
  {
    if b != [] { assert WithKey(b, b[0].key) != []; }
  }

  lemma {:induction false} FirstKey(a: seq<Opt>, key: nat)
    requires a != [] && Ascending(a) && WithKey(a, key) != []
    ensures a[0].key <= key
  {
    if a[0].key != key { FirstKey(a[1..], key); }
  }

  lemma SameFirst(a: seq<Opt>, b: seq<Opt>)
    requires a != [] && b != [] && Ascending(a) && Ascending(b)
    requires forall key :: WithKey(a, key) == WithKey(b, key)
    ensures a[0] == b[0]
  {
    FirstKey(a, b[0].key);
    FirstKey(b, a[0].key);
    assert WithKey(a, a[0].key)[0] == a[0];
    assert WithKey(b, a[0].key)[0] == b[0];
  }

  // ----- the packet under construction

  /** The packet buffer: a header, the token, the options, a content marker, the content. */
  class Builder {
    const packet: array<byte>
    var contentPtr: nat
    var contentLen: nat
    var lastOptionKey: nat
    ghost var header: seq<byte>
    ghost var token: seq<byte>
    ghost var added: seq<Opt>
    ghost var content: seq<byte>

    ghost predicate Valid()
      reads this, packet
    {
      && packet.Length == MAX_PACKET + 1
      && |header| == 4 && header[0] / 64 == VERSION && header[0] % 16 == |token| <= 8
      && WellFormed(0, Sorted(added)) && (forall o :: o in added ==> o.key <= lastOptionKey)
      && contentLen == |content| && contentPtr + contentLen <= MAX_PACKET
      && contentPtr == 4 + |token| + |EncodeList(0, Sorted(added))| + 1
      && packet[..contentPtr] == header + token + EncodeList(0, Sorted(added)) + [MARKER]
      && packet[contentPtr..contentPtr + contentLen] == content
    }

    /** Starts a packet.  The token is the one of the request that is answered, the one of the
        current transaction, or empty. */
    constructor (code: byte, tt: nat, msgId: nat, token: array<byte>)
      requires tt < 4 && msgId < 65536 && token.Length <= 8
      ensures Valid() && fresh(packet) && added == [] && content == [] && this.token == token[..]
      ensures header == [VERSION * 64 + tt * 16 + token.Length, code, msgId % 256, msgId / 256]
    {
      packet := new byte[MAX_PACKET + 1];
      contentPtr := 4 + token.Length + 1;
      contentLen, lastOptionKey := 0, 0;
      header := [VERSION * 64 + tt * 16 + token.Length, code, msgId % 256, msgId / 256];
      this.token, added, content := token[..], [], [];
      new;
      packet[0] := VERSION * 64 + tt * 16 + token.Length;
      packet[1] := code;
      packet[2] := msgId % 256;
      packet[3] := msgId / 256;
      forall i | 0 <= i < token.Length {
        packet[4 + i] := token[i];
      }
      packet[4 + token.Length] := MARKER;
      assert packet[..contentPtr] == header + this.token + [] + [MARKER];
    }

    function SpaceRemaining(): nat
      reads this
    {
      if MAX_PACKET > contentPtr + contentLen then MAX_PACKET - (contentPtr + contentLen) else 0
    }

    /** Removes the marker, inserts the option and sets the marker again. */
    method PlaceOption(key: nat, value: array<byte>)
      requires Valid() && key <= INVALID_KEY && value != packet
      requires SpaceRemaining() >= value.Length + 8
      modifies this`contentPtr, packet
      ensures var opts := Insert(Sorted(added), Opt(key, old(value[..])));
        && WellFormed(0, opts)
        && contentPtr == 4 + |token| + |EncodeList(0, opts)| + 1 <= old(contentPtr) + value.Length + 5
        && packet[..contentPtr] == header + token + EncodeList(0, opts) + [MARKER]
        && forall i | contentPtr <= i < packet.Length :: packet[i] == old(packet[i])
    {
      hide EncodeList, WellFormed, Insert, Sorted;
      ghost var o, front, s := Opt(key, value[..]), header + token, packet[..];
      ghost var opts := Sorted(added);
      var start := 4 + packet[0] % 16;
      FrontOf(s, header, token, EncodeList(0, opts), contentPtr);
      contentPtr := contentPtr - 1;
      assert value[0..value.Length] == value[..];
      var growth := InsertOption(packet, start, contentPtr, key, value, 0, value.Length, opts);
      contentPtr := contentPtr + growth;
      ghost var filled, e := packet[..], EncodeList(0, Insert(opts, o));
      packet[contentPtr] := MARKER;
      MarkerBehind(s, filled, packet[..], front, e, contentPtr);
      contentPtr := contentPtr + 1;
    }

    /** Adds an option.  Content that has been written already does not move: the options grow
        into it, and the same number of bytes from behind the options is the content then. */
    method AddOption(key: nat, value: array<byte>) returns (status: Status)
      requires Valid() && key <= INVALID_KEY && value != packet
      modifies this, packet
      ensures Valid() && header == old(header) && token == old(token)
      ensures contentLen == old(contentLen)
      ensures |content| == contentLen && forall i | 0 <= i < contentLen :: content[i] == old(packet[..])[contentPtr + i]
      ensures old(content) == [] || contentPtr == old(contentPtr) ==> content == old(content)
      ensures status.Ok? <==> old(SpaceRemaining()) >= value.Length + 8
      ensures status.Ok? <==> old(contentPtr + contentLen) + value.Length + 8 <= 1032
      ensures added == if status.Ok? then old(added) + [Opt(key, old(value[..]))] else old(added)
      ensures !status.Ok? ==> contentPtr == old(contentPtr) && lastOptionKey == old(lastOptionKey)
      ensures status.Ok? ==> lastOptionKey == if key > old(lastOptionKey) then key else old(lastOptionKey)
    {
      hide Valid, Sorted;
      ContentStands();
      if SpaceRemaining() < value.Length + 8 {
        return MessageTooBig;
      }
      ghost var was, before, at := content, packet[..], contentPtr;
      status := Ok;
      AddFitting(key, value);
      if contentPtr == at {
        SameContent(was, content, before, at);
      }
    }

    lemma ContentStands()
      requires Valid()
      ensures |content| == contentLen && contentPtr + contentLen <= packet.Length
      ensures forall i | 0 <= i < contentLen :: content[i] == packet[..][contentPtr + i]
    {
      assert packet[contentPtr..contentPtr + contentLen] == packet[..][contentPtr..contentPtr + contentLen];
    }

    /** Adds an option for which there is room. */
    method AddFitting(key: nat, value: array<byte>)
      requires Valid() && key <= INVALID_KEY && value != packet && SpaceRemaining() >= value.Length + 8
      modifies this, packet
      ensures Valid() && header == old(header) && token == old(token)
      ensures contentLen == old(contentLen) == |content|
      ensures forall i | 0 <= i < contentLen :: content[i] == old(packet[..])[contentPtr + i]
      ensures added == old(added) + [Opt(key, old(value[..]))]
      ensures lastOptionKey == if key > old(lastOptionKey) then key else old(lastOptionKey)
    {
      hide EncodeList, WellFormed, Insert, Sorted;
      ghost var o := Opt(key, value[..]);
      SortedMore(added, o);
      PlaceOption(key, value);
      if key > lastOptionKey {
        lastOptionKey := key;
      }
      added := added + [o];
      content := packet[contentPtr..contentPtr + contentLen];
    }

    /** Appends to the content. */
    method AppendContent(value: array<byte>) returns (status: Status)
      requires Valid() && value != packet
      modifies this, packet
      ensures Valid() && header == old(header) && token == old(token) && added == old(added)
      ensures status.Ok? <==> old(SpaceRemaining()) > value.Length
      ensures status.Ok? <==> old(contentPtr + contentLen) + value.Length < 1032
      ensures content == if status.Ok? then old(content) + old(value[..]) else old(content)
    {
      if SpaceRemaining() <= value.Length {
        return MessageTooBig;
      }
      hide EncodeList, WellFormed;
      status := Ok;
      var dest := contentPtr + contentLen;
      ghost var front, before := packet[..contentPtr], packet[contentPtr..dest];
      forall i | 0 <= i < value.Length {
        packet[dest + i] := value[i];
      }
      contentLen := contentLen + value.Length;
      content := content + value[..];
      assert packet[..contentPtr] == front;
      assert packet[contentPtr..contentPtr + contentLen] == before + value[..];
    }

    /** The number of bytes that are sent: a marker without content is not. */
    method SendLength() returns (n: nat)
      requires Valid()
      ensures n <= MAX_PACKET && packet[..n] == Message(header, token, Sorted(added), content)
    {
      hide EncodeList, WellFormed;
      var headerLen := contentPtr;
      if contentLen == 0 {
        headerLen := headerLen - 1;
      }
      n := headerLen + contentLen;
      ghost var m := header + token + EncodeList(0, Sorted(added));
      if contentLen == 0 {
        assert packet[..n] == packet[..contentPtr][..n] == (m + [MARKER])[..n] == m + [];
      } else {
        assert packet[..n] == packet[..contentPtr] + packet[contentPtr..n] == m + [MARKER] + content;
        assert m + [MARKER] + content == m + ([MARKER] + content);
      }
    }
  }

  /** The marker has been set behind the options; what lies behind it is as before. */
  lemma MarkerBehind(s: seq<byte>, filled: seq<byte>, now: seq<byte>, front: seq<byte>, e: seq<byte>, at: nat)
    requires at == |front + e| < |s| && filled == front + e + s[at..] && now == filled[at := MARKER]
    ensures now[..at + 1] == front + e + [MARKER] && |now| == |s|
    ensures forall i | at < i < |s| :: now[i] == s[i]
  {
    assert filled[..at] == front + e;
  }

  lemma SameContent(a: seq<byte>, b: seq<byte>, s: seq<byte>, at: nat)
    requires |a| == |b| && at + |a| <= |s|
    requires forall i | 0 <= i < |a| :: a[i] == s[at + i] && b[i] == s[at + i]
    ensures a == b
  {
  }

  lemma FrontOf(s: seq<byte>, header: seq<byte>, token: seq<byte>, e: seq<byte>, contentPtr: nat)
    requires |header| == 4 && contentPtr == 4 + |token| + |e| + 1 <= |s|
    requires s[..contentPtr] == header + token + e + [MARKER]
    ensures s[0] == header[0] && s[..4 + |token|] == header + token && s[4 + |token|..contentPtr - 1] == e
  {
    var m := header + token + e + [MARKER];
    var at := 4 + |token|;
    assert s[0] == s[..contentPtr][0];
    assert m[..at] == header + token && m[at..contentPtr - 1] == e;
    CutAgain(s, at, contentPtr);
    assert s[..contentPtr][at..contentPtr - 1] == s[at..contentPtr - 1];
  }

  /** Sends what has been built to a receiver's buffer.  If the packet has a code, and no
      option uses the reserved number, the receiver accepts the packet and reads back the
      options, stably sorted by number, with the same token and the same content. */
  method Transfer(b: Builder) returns (accepted: bool, token: seq<byte>, seen: seq<Opt>, content: seq<byte>)
    requires b.Valid()
    ensures accepted <==> b.header[1] != 0 || (b.token == [] && b.added == [] && b.content == [])
    ensures accepted ==> token == b.token && seen == UpToInvalid(Sorted(b.added))
    ensures accepted && (forall o :: o in b.added ==> o.key != INVALID_KEY) ==>
      seen == Sorted(b.added) && content == b.content
  {
    hide EncodeList, Walk, Parse, ParseEnd, ContentFrom, Sorted, WellFormed, UpToInvalid, Message, HasOptions;
    ghost var opts := Sorted(b.added);
    var n := b.SendLength();
    var mem := new byte[n + 4];
    forall i | 0 <= i < n {
      mem[i] := b.packet[i];
    }
    ghost var p := Message(b.header, b.token, opts, b.content);
    assert mem[..n] == b.packet[..n] == p;
    MessageParses(b.header, b.token, opts, b.content);
    SameOptions(b.added);
    SeesAll(opts);
    accepted, token, seen, content := Receive(mem, n);
    assert mem[..n] == p;
  }

  lemma SameOptions(added: seq<Opt>)
    ensures Sorted(added) == [] <==> added == []
    ensures forall o :: o in Sorted(added) <==> o in added
  {
    SortedIsStableSort(added);
    assert |multiset(Sorted(added))| == |Sorted(added)| && |multiset(added)| == |added|;
    forall o ensures o in Sorted(added) <==> o in added {
      assert o in multiset(Sorted(added)) <==> o in multiset(added);
    }
  }
}
