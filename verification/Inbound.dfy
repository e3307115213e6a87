/**
 Reading a packet: the option iterator of an instance and the scan that splits a packet
 into options and content.
 */
module Inbound {
  import opened Options
  import opened Packet

  /** The options a reader sees that stops at the first option with the reserved number. */
  function UpToInvalid(opts: seq<Opt>): seq<Opt> {
    if opts == [] || opts[0].key == INVALID_KEY then [] else [opts[0]] + UpToInvalid(opts[1..])
  }

  /** The reader sees every option exactly if none has the reserved number. */
  lemma {:induction false} SeesAll(opts: seq<Opt>)
    ensures UpToInvalid(opts) == opts <==> forall o :: o in opts ==> o.key != INVALID_KEY
  {
    if opts != [] {
      SeesAll(opts[1..]);
      assert opts == [opts[0]] + opts[1..];
      if opts[0].key != INVALID_KEY && UpToInvalid(opts) == opts {
        assert UpToInvalid(opts)[1..] == UpToInvalid(opts[1..]);
      }
    }
  }

  /** It sees exactly what stands before the first option with the reserved number. */
  lemma {:induction false} SeesUpTo(a: seq<Opt>, o: Opt, b: seq<Opt>)
    requires o.key == 65535 && forall x | x in a :: x.key != 65535
    ensures UpToInvalid(a + [o] + b) == a
  {
    var all := a + [o] + b;
    if a != [] {
      SeesUpTo(a[1..], o, b);
      assert all[1..] == a[1..] + [o] + b;
    }
  }

  class Reader {
    const packet: array<byte>
    const packetLen: nat
    var lastOptionKey: nat
    var thisOption: nat
    var contentPtr: nat
    var contentLen: nat

    constructor (packet: array<byte>, packetLen: nat)
      requires packetLen <= packet.Length
      ensures this.packet == packet && this.packetLen == packetLen
    {
      this.packet, this.packetLen := packet, packetLen;
      lastOptionKey, thisOption, contentPtr, contentLen := 0, 0, 0, 0;
    }

    ghost function Bytes(): seq<byte>
      requires packetLen <= packet.Length
      reads packet
    {
      packet[..packetLen]
    }

    /** The packet has been accepted and the iterator stands between two of its options. */
    ghost predicate Valid()
      reads this, packet
    {
      packetLen <= packet.Length && Acceptable(Bytes()) && Walk(Bytes(), thisOption) && thisOption <= packetLen
    }

    /** The options that are still to come. */
    ghost function Rest(): seq<Opt>
      requires Valid()
      reads this, packet
    {
      Parse(Bytes(), thisOption, lastOptionKey)
    }

    method ResetNextOption()
      requires packetLen <= packet.Length && Acceptable(Bytes())
      modifies this
      ensures Valid() && lastOptionKey == 0 && thisOption == OptionsStart(Bytes())
      ensures contentPtr == old(contentPtr) && contentLen == old(contentLen)
    {
      WalkIsHasOptions(Bytes(), OptionsStart(Bytes()));
      lastOptionKey := 0;
      thisOption := 4 + packet[0] % 16;
    }

    /** Steps over one option.  At the end of the options the reserved number is returned. */
    method NextOption() returns (key: nat, valueAt: nat, len: nat)
      requires Valid()
      modifies this`lastOptionKey, this`thisOption
      ensures Valid()
      ensures old(Rest()) == [] ==> key == lastOptionKey == INVALID_KEY && thisOption == old(thisOption)
      ensures old(Rest()) != [] ==>
        && key == lastOptionKey == old(Rest())[0].key && Rest() == old(Rest())[1..]
        && valueAt + len == thisOption <= packetLen && packet[valueAt..valueAt + len] == old(Rest())[0].value
        && old(thisOption) < thisOption
        && ParseEnd(Bytes(), old(thisOption)) == ParseEnd(Bytes(), thisOption)
    {
      hide Decode;
      key, valueAt, len := INVALID_KEY, 0, 0;
      if thisOption < packetLen && packet[thisOption] != MARKER {
        NextIsLater(Bytes(), thisOption);
        DecodeInPrefix(packet[..], packetLen, thisOption);
        var g := Decode(packet[..], thisOption);
        DecodedLen(packet[..], thisOption);
        assert packet[g.valueAt..g.next] == Bytes()[g.valueAt..g.next];
        lastOptionKey := lastOptionKey + g.delta;
        thisOption := g.next;
        valueAt, len := g.valueAt, g.len;
      } else {
        lastOptionKey := INVALID_KEY;
      }
      key := lastOptionKey;
    }

    /** The scan over all options of an accepted packet.  `seen` lists the options in the order
        in which the iterator gave them. */
    method ScanOptions() returns (seen: seq<Opt>)
      requires packetLen <= packet.Length && Acceptable(Bytes())
      modifies this
      ensures Valid() && Walk(Bytes(), OptionsStart(Bytes()))
      ensures seen == UpToInvalid(Parse(Bytes(), OptionsStart(Bytes()), 0))
      ensures seen == Parse(Bytes(), OptionsStart(Bytes()), 0) ==>
        thisOption == ParseEnd(Bytes(), OptionsStart(Bytes()))
    {
      hide Decode, ParseEnd, Walk, Parse, Readable, HasOptions, UpToInvalid;
      ResetNextOption();
      ghost var all, end := Rest(), ParseEnd(Bytes(), thisOption);
      seen := [];
      while true
        invariant Valid() && ParseEnd(Bytes(), thisOption) == end
        invariant all == seen + Rest() && UpToInvalid(all) == seen + UpToInvalid(Rest())
        decreases packetLen - thisOption
      {
        ghost var rest := Rest();
        if rest == [] { AtEnd(Bytes(), thisOption, lastOptionKey); }
        var key, valueAt, len := NextOption();
        if key == INVALID_KEY {
          StopsAt(rest);
          break;
        }
        SeenMore(all, seen, rest);
        assert rest[0] == Opt(key, packet[valueAt..valueAt + len]);
        seen := seen + [Opt(key, packet[valueAt..valueAt + len])];
      }
      assert seen == all ==> thisOption == end;
    }

    /** The scan, and the split of the content behind the options. */
    method Scan() returns (seen: seq<Opt>)
      requires packetLen <= packet.Length && Acceptable(Bytes())
      modifies this
      ensures Walk(Bytes(), OptionsStart(Bytes()))
      ensures seen == UpToInvalid(Parse(Bytes(), OptionsStart(Bytes()), 0))
      ensures seen == Parse(Bytes(), OptionsStart(Bytes()), 0) ==>
        && contentPtr + contentLen <= packetLen
        && packet[contentPtr..contentPtr + contentLen] == ContentFrom(Bytes(), ParseEnd(Bytes(), OptionsStart(Bytes())))
      ensures Valid() && thisOption == OptionsStart(Bytes()) && lastOptionKey == 0
    {
      hide Decode, ParseEnd, Walk, Parse, UpToInvalid;
      seen := ScanOptions();
      contentPtr := thisOption;
      contentLen := packetLen - contentPtr;
      assert packet[thisOption..packetLen] == Bytes()[thisOption..];
      if contentLen != 0 {
        contentPtr := contentPtr + 1;
        contentLen := contentLen - 1;
        assert packet[contentPtr..packetLen] == Bytes()[contentPtr..];
      }
      ResetNextOption();
    }
  }

  lemma SeenMore(all: seq<Opt>, seen: seq<Opt>, rest: seq<Opt>)
    requires rest != [] && rest[0].key != INVALID_KEY
    requires all == seen + rest && UpToInvalid(all) == seen + UpToInvalid(rest)
    ensures all == (seen + [rest[0]]) + rest[1..]
    ensures UpToInvalid(all) == (seen + [rest[0]]) + UpToInvalid(rest[1..])
  {
    assert UpToInvalid(rest) == [rest[0]] + UpToInvalid(rest[1..]);
    Assoc(seen, [rest[0]], UpToInvalid(rest[1..]));
  }

  lemma StopsAt(rest: seq<Opt>)
    requires rest == [] || rest[0].key == INVALID_KEY
    ensures UpToInvalid(rest) == []
  {
  }

  lemma AtEnd(p: seq<byte>, at: nat, key: nat)
    requires Walk(p, at) && Parse(p, at, key) == []
    ensures OptionsEnd(p, at) && ParseEnd(p, at) == at
  {
  }

  lemma DecodedLen(mem: seq<byte>, at: nat)
    requires Readable(mem, at) && Decode(mem, at).Good?
    ensures var g := Decode(mem, at); g.valueAt + g.len == g.next
  {
  }

  /** The way of a packet through the receiver: check, scan, split. */
  method Receive(mem: array<byte>, size: nat)
      returns (accepted: bool, token: seq<byte>, seen: seq<Opt>, content: seq<byte>)
    requires size + 4 <= mem.Length
    ensures accepted <==> Acceptable(mem[..size])
    ensures accepted ==> var p := mem[..size]; var at := OptionsStart(p);
      && at <= size && token == p[4..at] && Walk(p, at) && seen == UpToInvalid(Parse(p, at, 0))
      && (seen == Parse(p, at, 0) ==> content == ContentFrom(p, ParseEnd(p, at)))
  {
    hide Walk, Parse, ParseEnd, ContentFrom, UpToInvalid, HasOptions;
    token, seen, content := [], [], [];
    accepted := VerifyPacket(mem, size);
    if accepted {
      var r := new Reader(mem, size);
      seen := r.Scan();
      token := mem[4..r.thisOption];
      assert token == mem[..size][4..r.thisOption];
      if r.contentPtr + r.contentLen <= size {
        content := mem[r.contentPtr..r.contentPtr + r.contentLen];
      }
    }
  }
}
