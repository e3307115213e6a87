/**
 Whole messages (section 3 of RFC 7252): which byte strings are accepted as packets, and
 which options and content they carry.
 */
module Packet {
  import opened Options

  const VERSION := 1
  const MAX_MESSAGE_SIZE := 1240
  const MARKER: byte := 0xFF

  // ----- the structure of a packet

  /** There is an option from `a` up to `b`, all of it inside the packet. */
  predicate OptionAt(p: seq<byte>, a: nat, b: nat) {
    Readable(p, a) && p[a] != MARKER && Decode(p, a).Good? && Decode(p, a).next == b <= |p|
  }

  /** The options end here: at the end of the packet or at the content marker. */
  predicate OptionsEnd(p: seq<byte>, at: nat) {
    at == |p| || (at < |p| && p[at] == MARKER)
  }

  /** The positions `cuts` divide the bytes from the first to the last one into options. */
  ghost predicate Divides(p: seq<byte>, cuts: seq<nat>) {
    cuts != [] && (forall i :: 0 <= i < |cuts| - 1 ==> OptionAt(p, cuts[i], cuts[i + 1]))
  }

  /** Options follow each other from `at` to the end of the packet or to a content marker. */
  ghost predicate HasOptions(p: seq<byte>, at: nat) {
    exists cuts :: Divides(p, cuts) && cuts[0] == at && OptionsEnd(p, cuts[|cuts| - 1])
  }

  ghost predicate HeaderOk(p: seq<byte>) {
    && 4 <= |p| <= MAX_MESSAGE_SIZE && p[0] / 64 == VERSION && p[0] % 16 <= 8
    && (p[1] == 0 ==> |p| == 4)
  }

  function OptionsStart(p: seq<byte>): nat
    requires p != []
  {
    4 + p[0] % 16
  }

  ghost predicate Acceptable(p: seq<byte>) {
    HeaderOk(p) && HasOptions(p, OptionsStart(p))
  }

  /** The same, found by walking over the options. */
  predicate Walk(p: seq<byte>, at: nat)
    decreases |p| - at
  {
    if at >= |p| || p[at] == MARKER then OptionsEnd(p, at)
    else Readable(p, at) && Decode(p, at).Good? && Decode(p, at).next <= |p| && Walk(p, Decode(p, at).next)
  }

  lemma {:induction false} WalkFindsCuts(p: seq<byte>, at: nat) returns (cuts: seq<nat>)
    requires Walk(p, at)
    ensures Divides(p, cuts) && cuts[0] == at && OptionsEnd(p, cuts[|cuts| - 1])
    decreases |p| - at
  {
    if OptionsEnd(p, at) {
      cuts := [at];
    } else {
      var rest := WalkFindsCuts(p, Decode(p, at).next);
      cuts := [at] + rest;
      assert forall i :: 1 <= i < |cuts| - 1 ==> cuts[i] == rest[i - 1] && cuts[i + 1] == rest[i];
    }
  }

  lemma {:induction false} CutsAreWalked(p: seq<byte>, cuts: seq<nat>)
    requires Divides(p, cuts) && OptionsEnd(p, cuts[|cuts| - 1])
    ensures Walk(p, cuts[0])
    decreases |cuts|
  {
    if |cuts| > 1 {
      var rest := cuts[1..];
      forall i | 0 <= i < |rest| - 1 ensures OptionAt(p, rest[i], rest[i + 1]) {
        assert OptionAt(p, cuts[i + 1], cuts[i + 2]);
      }
      CutsAreWalked(p, rest);
      assert OptionAt(p, cuts[0], cuts[1]);
    }
  }

  lemma WalkIsHasOptions(p: seq<byte>, at: nat)
    ensures Walk(p, at) <==> HasOptions(p, at)
  {
    if Walk(p, at) {
      var cuts := WalkFindsCuts(p, at);
    }
    if HasOptions(p, at) {
      var cuts :| Divides(p, cuts) && cuts[0] == at && OptionsEnd(p, cuts[|cuts| - 1]);
      CutsAreWalked(p, cuts);
    }
  }

  // ----- checking a packet

  /** What lies behind the packet does not change how an option inside it decodes. */
  lemma DecodeInPrefix(mem: seq<byte>, size: nat, at: nat)
    requires at < size <= |mem| && Readable(mem, at)
    ensures var p := mem[..size];
      && (Readable(p, at) ==> Decode(p, at) == Decode(mem, at))
      && (!Readable(p, at) && Decode(mem, at).Good? ==> Decode(mem, at).next > size)
  {
  }

  /** Checks a packet of `size` bytes at the front of `mem`.  Header bytes of a cut-off option
      may be read up to four bytes behind the packet; the verdict does not depend on them. */
  method VerifyPacket(mem: array<byte>, size: nat) returns (ok: bool)
    requires size + 4 <= mem.Length
    ensures ok <==> Acceptable(mem[..size])
    ensures ok <==>
              && 4 <= size <= 1240 && mem[0] / 64 == 1 && mem[0] % 16 <= 8 && (mem[1] == 0 ==> size == 4)
              && HasOptions(mem[..size], 4 + mem[0] % 16)
  {
    hide Decode, HasOptions;
    ghost var p := mem[..size];
    if size < 4 { return false; }
    if mem[0] / 64 != VERSION { return false; }
    if size > MAX_MESSAGE_SIZE { return false; }
    if mem[0] % 16 > 8 { return false; }
    if mem[1] == 0 && size != 4 { return false; }
    var at := 4 + mem[0] % 16;
    WalkIsHasOptions(p, at);
    while at < size && mem[at] != MARKER
      invariant Walk(p, at) <==> HasOptions(p, OptionsStart(p))
      decreases size - at
    {
      DecodeInPrefix(mem[..], size, at);
      assert p[at] == mem[at];
      var g := Decode(mem[..], at);
      if g.Bad? { return false; }
      if g.next > size { return false; }
      NextIsLater(mem[..], at);
      at := g.next;
    }
    if at > size { return false; }
    if at < size && mem[at] != MARKER { return false; }
    ok := true;
  }

  lemma NextIsLater(p: seq<byte>, at: nat)
    requires Readable(p, at) && Decode(p, at).Good?
    ensures at < Decode(p, at).valueAt <= Decode(p, at).next
  {
  }

  // ----- what a packet carries

  /** The options from `at` on, the first of them counted from number `key`. */
  function Parse(p: seq<byte>, at: nat, key: nat): seq<Opt>
    requires Walk(p, at)
    decreases |p| - at
  {
    if OptionsEnd(p, at) then []
    else
      var g := Decode(p, at);
      [Opt(key + g.delta, p[g.valueAt..g.next])] + Parse(p, g.next, key + g.delta)
  }

  /** Where the options end. */
  function ParseEnd(p: seq<byte>, at: nat): (end: nat)
    requires Walk(p, at)
    ensures at <= end <= |p| && OptionsEnd(p, end)
    decreases |p| - at
  {
    if OptionsEnd(p, at) then at else ParseEnd(p, Decode(p, at).next)
  }

  /** The content, without its marker; a marker with nothing behind it is empty content. */
  function ContentFrom(p: seq<byte>, end: nat): seq<byte>
    requires end <= |p|
  {
    if end == |p| then [] else p[end + 1..]
  }

  /** A message in the wire format: four header bytes, the token, the options, and the
      content behind its marker if there is any. */
  function Message(header: seq<byte>, token: seq<byte>, opts: seq<Opt>, content: seq<byte>): seq<byte>
    requires WellFormed(0, opts)
  {
    header + token + EncodeList(0, opts) + (if content == [] then [] else [MARKER] + content)
  }

  /** A stretch of encoded options in a packet parses to these options. */
  lemma {:induction false} ParseEncoded(p: seq<byte>, at: nat, prev: nat, opts: seq<Opt>)
    requires WellFormed(prev, opts)
    requires at + |EncodeList(prev, opts)| <= |p|
    requires p[at..at + |EncodeList(prev, opts)|] == EncodeList(prev, opts)
    requires OptionsEnd(p, at + |EncodeList(prev, opts)|)
    ensures Walk(p, at) && Parse(p, at, prev) == opts && ParseEnd(p, at) == at + |EncodeList(prev, opts)|
    decreases opts
  {
    hide Decode, EncodeOpt, Header;
    if opts != [] {
      var o, rest := opts[0], EncodeList(opts[0].key, opts[1..]);
      FirstOption(p, at, o.key - prev, o.value, rest);
      var g := Decode(p, at);
      ParseEncoded(p, g.next, o.key, opts[1..]);
      assert opts == [o] + opts[1..];
    }
  }

  lemma FirstOption(p: seq<byte>, at: nat, delta: nat, v: seq<byte>, rest: seq<byte>)
    requires delta < 65536 && |v| <= MAX_VALUE_SIZE
    requires at + |EncodeOpt(delta, v) + rest| <= |p|
    requires p[at..at + |EncodeOpt(delta, v) + rest|] == EncodeOpt(delta, v) + rest
    ensures at < |p| && p[at] != MARKER && Readable(p, at) && Decode(p, at).Good?
    ensures var g := Decode(p, at);
      && g.delta == delta && g.next == at + |EncodeOpt(delta, v)| <= |p|
      && g.valueAt <= g.next && p[g.valueAt..g.next] == v
      && p[g.next..g.next + |rest|] == rest
  {
    hide Decode, Header;
    var h := Header(delta, |v|);
    var n := |h + v + rest|;
    Embedded(p, at, [], h, v, rest);
    HeaderDecodes(p, at, delta, |v|);
    HeaderBytes(delta, |v|);
    assert (h + v + rest)[|h + v|..n] == rest;
    SliceOfSlice(p, at, n, |h + v|, n);
  }

  /** A message is accepted as a packet exactly if its header is in order, and then it is read
      back as it was put together. */
  lemma MessageParses(header: seq<byte>, token: seq<byte>, opts: seq<Opt>, content: seq<byte>)
    requires |header| == 4 && |token| <= 8 && header[0] / 64 == VERSION && header[0] % 16 == |token|
    requires WellFormed(0, opts) && |Message(header, token, opts, content)| <= MAX_MESSAGE_SIZE
    ensures var p := Message(header, token, opts, content);
      && (Acceptable(p) <==> header[1] != 0 || (token == [] && opts == [] && content == []))
      && p[..4] == header && p[4..4 + |token|] == token && OptionsStart(p) == 4 + |token|
      && Walk(p, 4 + |token|)
      && Parse(p, 4 + |token|, 0) == opts
      && ContentFrom(p, ParseEnd(p, 4 + |token|)) == content
  {
    hide HasOptions, EncodeList, Decode, Parse, ParseEnd, Walk, WellFormed;
    var p, e := Message(header, token, opts, content), EncodeList(0, opts);
    var at := 4 + |token|;
    var end := at + |e|;
    MessageSlices(header, token, e, content);
    ParseEncoded(p, at, 0, opts);
    WalkIsHasOptions(p, at);
    EncodedEmpty(opts);
  }

  lemma EncodedEmpty(opts: seq<Opt>)
    requires WellFormed(0, opts)
    ensures EncodeList(0, opts) == [] <==> opts == []
  {
  }

  lemma MessageSlices(header: seq<byte>, token: seq<byte>, e: seq<byte>, content: seq<byte>)
    requires |header| == 4
    ensures var p := header + token + e + (if content == [] then [] else [MARKER] + content);
      var at := 4 + |token|;
      && p[..4] == header && p[4..at] == token && p[at..at + |e|] == e
      && p[0] == header[0] && p[1] == header[1]
      && OptionsEnd(p, at + |e|) && ContentFrom(p, at + |e|) == content
      && |p| == at + |e| + (if content == [] then 0 else 1 + |content|)
  {
  }
}
