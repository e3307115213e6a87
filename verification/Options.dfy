/**
 CoAP option encoding (section 3.1 of RFC 7252): the byte format of a list of options and
 what a decoder sees at one position of a buffer.
 */
module Options {

  type byte = i: int | 0 <= i < 256

  const MAX_VALUE_SIZE := 1034
  const INVALID_KEY := 65535

  datatype Opt = Opt(key: nat, value: seq<byte>)

  // ----- the format

  /** The four-bit field for a delta or a length. */
  function Nibble(n: nat): (nibble: nat)
    ensures nibble < 15
  {
    if n < 13 then n else if n < 269 then 13 else 14
  }

  /** The extension bytes for a delta or a length. */
  function Ext(n: nat): seq<byte>
    requires n < 269 + 65536
  {
    if n < 13 then [] else if n < 269 then [n - 13] else [(n - 269) / 256, (n - 269) % 256]
  }

  function ExtSize(nibble: nat): nat {
    if nibble == 13 then 1 else if nibble == 14 then 2 else 0
  }

  function Header(delta: nat, len: nat): (h: seq<byte>)
    requires delta < 65536 && len <= MAX_VALUE_SIZE
    ensures 1 <= |h| <= 5
  {
    [Nibble(delta) * 16 + Nibble(len)] + Ext(delta) + Ext(len)
  }

  function EncodeOpt(delta: nat, value: seq<byte>): (b: seq<byte>)
    requires delta < 65536 && |value| <= MAX_VALUE_SIZE
    ensures |value| < |b| <= |value| + 5
  {
    Header(delta, |value|) + value
  }

  /** Options a sender can write after an option with number `prev`. */
  predicate WellFormed(prev: nat, opts: seq<Opt>)
    decreases opts
  {
    opts != [] ==>
      prev <= opts[0].key <= INVALID_KEY && |opts[0].value| <= MAX_VALUE_SIZE && WellFormed(opts[0].key, opts[1..])
  }

  function EncodeList(prev: nat, opts: seq<Opt>): seq<byte>
    requires WellFormed(prev, opts)
    decreases opts
  {
    if opts == [] then []
    else EncodeOpt(opts[0].key - prev, opts[0].value) + EncodeList(opts[0].key, opts[1..])
  }

  function LastKey(prev: nat, opts: seq<Opt>): nat {
    if opts == [] then prev else opts[|opts| - 1].key
  }

  // ----- decoding at a position

  datatype Decoded = Bad | Good(delta: nat, valueAt: nat, len: nat, next: nat)

  function HeaderSize(b: byte): nat {
    1 + ExtSize(b / 16) + ExtSize(b % 16)
  }

  predicate Readable(mem: seq<byte>, pos: nat) {
    pos < |mem| && pos + HeaderSize(mem[pos]) <= |mem|
  }

  function ExtValue(mem: seq<byte>, at: nat, nibble: nat): nat
    requires at + ExtSize(nibble) <= |mem|
  {
    if nibble == 13 then 13 + mem[at]
    else if nibble == 14 then 269 + mem[at] * 256 + mem[at + 1]
    else nibble
  }

  /** What the decoder makes of the bytes at `pos`.  The length is a 16-bit number. */
  function Decode(mem: seq<byte>, pos: nat): Decoded
    requires Readable(mem, pos)
  {
    var d, l := mem[pos] / 16, mem[pos] % 16;
    if d == 15 || l == 15 then Bad
    else
      var len := ExtValue(mem, pos + 1 + ExtSize(d), l) % 65536;
      var valueAt := pos + HeaderSize(mem[pos]);
      Good(ExtValue(mem, pos + 1, d), valueAt, len, valueAt + len)
  }

  /** The first bytes of an option as the standard has them: a field of four bits, and extensions from 13 and 269 on. */
  lemma HeaderForms(delta: nat, len: nat)
    requires delta < 65536 && len <= MAX_VALUE_SIZE
    ensures delta < 13 && len < 13 ==> Header(delta, len) == [16 * delta + len]
    ensures 13 <= delta < 269 && len < 13 ==> Header(delta, len) == [16 * 13 + len, delta - 13]
    ensures 269 <= delta && len < 13 ==> Header(delta, len) == [16 * 14 + len, (delta - 269) / 256, (delta - 269) % 256]
    ensures delta < 13 && 13 <= len < 269 ==> Header(delta, len) == [16 * delta + 13, len - 13]
    ensures delta < 13 && 269 <= len ==> Header(delta, len) == [16 * delta + 14, (len - 269) / 256, (len - 269) % 256]
    ensures delta >= 13 && len >= 13 ==> Header(delta, len)[1..] == Header(delta, 0)[1..] + Header(0, len)[1..]
    ensures Header(delta, len)[0] == Header(delta, 0)[0] + Header(0, len)[0]
  {
  }

  // ----- an encoded option decodes to itself

  lemma HeaderBytes(delta: nat, len: nat)
    requires delta < 65536 && len <= MAX_VALUE_SIZE
    ensures var h := Header(delta, len);
      && |h| == 1 + |Ext(delta)| + |Ext(len)| && h[0] == Nibble(delta) * 16 + Nibble(len)
      && h[0] / 16 == Nibble(delta) && h[0] % 16 == Nibble(len) && |h| == HeaderSize(h[0]) <= 5
      && h[0] != 0xFF
  {
  }

  lemma ExtDecodes(mem: seq<byte>, at: nat, n: nat)
    requires n < 65536 && at + |Ext(n)| <= |mem| && mem[at..at + |Ext(n)|] == Ext(n)
    ensures ExtSize(Nibble(n)) == |Ext(n)| && ExtValue(mem, at, Nibble(n)) == n
  {
    if n >= 13 { assert mem[at] == mem[at..at + |Ext(n)|][0]; }
    if n >= 269 { assert mem[at + 1] == mem[at..at + |Ext(n)|][1]; }
  }

  /** Decoding at a header gives back delta and length, whatever surrounds it. */
  lemma HeaderDecodes(mem: seq<byte>, pos: nat, delta: nat, len: nat)
    requires delta < 65536 && len <= MAX_VALUE_SIZE
    requires pos + |Header(delta, len)| <= |mem| && mem[pos..pos + |Header(delta, len)|] == Header(delta, len)
    ensures Readable(mem, pos) && mem[pos] != 0xFF
    ensures var v := pos + |Header(delta, len)|; Decode(mem, pos) == Good(delta, v, len, v + len)
  {
    hide Ext, Nibble;
    HeaderBytes(delta, len);
    var h := Header(delta, len);
    var m := 1 + |Ext(delta)|;
    assert mem[pos] == mem[pos..pos + |h|][0];
    assert h[1..m] == Ext(delta) && h[m..] == Ext(len);
    SliceOfSlice(mem, pos, |h|, 1, m);
    SliceOfSlice(mem, pos, |h|, m, |h|);
    ExtDecodes(mem, pos + 1, delta);
    ExtDecodes(mem, pos + m, len);
  }

  lemma SliceOfSlice<T>(s: seq<T>, at: nat, n: nat, i: nat, j: nat)
    requires at + n <= |s| && i <= j <= n
    ensures s[at..at + n][i..j] == s[at + i..at + j]
  {
    var a, b := s[at..at + n][i..j], s[at + i..at + j];
    assert |a| == |b| && forall k :: 0 <= k < |a| ==> a[k] == b[k];
  }

  lemma ExtEncodes(mem: seq<byte>, at: nat, nibble: nat)
    requires nibble < 15 && at + ExtSize(nibble) <= |mem|
    ensures var n := ExtValue(mem, at, nibble);
      Nibble(n) == nibble && n < 269 + 65536 && mem[at..at + ExtSize(nibble)] == Ext(n)
  {
    var n, s := ExtValue(mem, at, nibble), mem[at..at + ExtSize(nibble)];
    if nibble == 13 { assert s == [mem[at]]; }
    if nibble == 14 { assert s == [mem[at], mem[at + 1]]; }
  }

  /** Conversely, an option that decodes with values in range is the encoding of what it
      decodes to: there is only one way to write an option. */
  lemma DecodedIsEncoded(mem: seq<byte>, pos: nat)
    requires Readable(mem, pos) && Decode(mem, pos).Good?
    requires Decode(mem, pos).delta < 65536 && Decode(mem, pos).next <= |mem|
    requires ExtValue(mem, pos + 1 + ExtSize(mem[pos] / 16), mem[pos] % 16) <= MAX_VALUE_SIZE
    ensures var g := Decode(mem, pos);
      g.len <= MAX_VALUE_SIZE && g.valueAt <= g.next && mem[pos..g.next] == EncodeOpt(g.delta, mem[g.valueAt..g.next])
  {
    hide Ext, Nibble;
    var g := Decode(mem, pos);
    var d, l := mem[pos] / 16, mem[pos] % 16;
    var q := pos + 1 + ExtSize(d);
    ExtEncodes(mem, pos + 1, d);
    ExtEncodes(mem, q, l);
    FourSlices(mem, pos, q, g.valueAt, g.next);
  }

  lemma FourSlices(s: seq<byte>, a: nat, b: nat, c: nat, d: nat)
    requires a < b <= c <= d <= |s|
    ensures s[a..d] == [s[a]] + s[a + 1..b] + s[b..c] + s[c..d]
  {
  }

  // ----- lists

  lemma {:induction false} WellFormedSplit(prev: nat, a: seq<Opt>, b: seq<Opt>)
    ensures WellFormed(prev, a + b) <==> WellFormed(prev, a) && WellFormed(LastKey(prev, a), b)
    decreases a
  {
    if a == [] {
      assert a + b == b;
    } else {
      assert (a + b)[1..] == a[1..] + b;
      WellFormedSplit(a[0].key, a[1..], b);
    }
  }

  lemma Assoc<T>(a: seq<T>, b: seq<T>, c: seq<T>)
    ensures a + (b + c) == a + b + c
  {
  }

  lemma {:induction false} EncodeSplit(prev: nat, a: seq<Opt>, b: seq<Opt>)
    requires WellFormed(prev, a + b)
    ensures WellFormed(prev, a) && WellFormed(LastKey(prev, a), b)
    ensures EncodeList(prev, a + b) == EncodeList(prev, a) + EncodeList(LastKey(prev, a), b)
    decreases a
  {
    hide EncodeOpt;
    WellFormedSplit(prev, a, b);
    if a == [] {
      assert a + b == b;
    } else {
      assert (a + b)[1..] == a[1..] + b;
      EncodeSplit(a[0].key, a[1..], b);
      Assoc(EncodeOpt(a[0].key - prev, a[0].value), EncodeList(a[0].key, a[1..]), EncodeList(LastKey(prev, a), b));
    }
  }

  lemma {:induction false} KeysAscend(prev: nat, opts: seq<Opt>, i: nat, j: nat)
    requires WellFormed(prev, opts) && i <= j < |opts|
    ensures prev <= opts[i].key <= opts[j].key <= INVALID_KEY && |opts[j].value| <= MAX_VALUE_SIZE
    decreases j
  {
    if i > 0 {
      KeysAscend(opts[0].key, opts[1..], i - 1, j - 1);
    } else if j > 0 {
      KeysAscend(opts[0].key, opts[1..], 0, j - 1);
    }
  }

  // ----- sorted insertion

  /** Places `o` after all options with a smaller or the same number. */
  function Insert(opts: seq<Opt>, o: Opt): seq<Opt> {
    if opts != [] && opts[0].key <= o.key then [opts[0]] + Insert(opts[1..], o) else [o] + opts
  }

  /** The options that stay before an inserted option with number `key`. */
  function Rank(opts: seq<Opt>, key: nat): (n: nat)
    ensures n <= |opts|
  {
    if opts != [] && opts[0].key <= key then 1 + Rank(opts[1..], key) else 0
  }

  lemma {:induction false} InsertAtRank(opts: seq<Opt>, o: Opt)
    ensures var n := Rank(opts, o.key); Insert(opts, o) == opts[..n] + [o] + opts[n..]
  {
    if opts != [] && opts[0].key <= o.key {
      InsertAtRank(opts[1..], o);
      var n := Rank(opts[1..], o.key);
      assert opts[..n + 1] == [opts[0]] + opts[1..][..n];
    }
  }

  lemma {:induction false} InsertWellFormed(prev: nat, opts: seq<Opt>, o: Opt)
    requires WellFormed(prev, opts) && prev <= o.key <= INVALID_KEY && |o.value| <= MAX_VALUE_SIZE
    ensures WellFormed(prev, Insert(opts, o))
    decreases opts
  {
    if opts != [] && opts[0].key <= o.key {
      InsertWellFormed(opts[0].key, opts[1..], o);
      assert Insert(opts, o)[1..] == Insert(opts[1..], o);
    } else {
      assert Insert(opts, o)[1..] == opts;
    }
  }

  lemma EncodeCons(prev: nat, o: Opt, opts: seq<Opt>)
    requires WellFormed(prev, [o] + opts)
    ensures WellFormed(o.key, opts) && prev <= o.key <= INVALID_KEY && |o.value| <= MAX_VALUE_SIZE
    ensures EncodeList(prev, [o] + opts) == EncodeOpt(o.key - prev, o.value) + EncodeList(o.key, opts)
  {
    hide EncodeOpt;
    assert ([o] + opts)[1..] == opts;
  }

  // ----- positions in an encoded list

  lemma {:induction false} PrefixWellFormed(opts: seq<Opt>, i: nat)
    requires WellFormed(0, opts) && i <= |opts|
    ensures WellFormed(0, opts[..i])
  {
    assert opts == opts[..i] + opts[i..];
    WellFormedSplit(0, opts[..i], opts[i..]);
  }

  /** Where the option with index `i` starts in the encoded list. */
  function Pos(opts: seq<Opt>, i: nat): nat
    requires WellFormed(0, opts) && i <= |opts|
  {
    PrefixWellFormed(opts, i);
    |EncodeList(0, opts[..i])|
  }

  /** The option number the decoder has reached before option `i`. */
  function KeyBefore(opts: seq<Opt>, i: nat): nat
    requires i <= |opts|
  {
    if i == 0 then 0 else opts[i - 1].key
  }

  /** The encoded list, taken apart at option `i`. */
  lemma TakeApart(opts: seq<Opt>, i: nat)
    requires WellFormed(0, opts) && i < |opts|
    ensures WellFormed(0, opts[..i]) && WellFormed(opts[i].key, opts[i+1..])
    ensures KeyBefore(opts, i) <= opts[i].key <= INVALID_KEY && |opts[i].value| <= MAX_VALUE_SIZE
    ensures EncodeList(0, opts) == EncodeList(0, opts[..i])
      + EncodeOpt(opts[i].key - KeyBefore(opts, i), opts[i].value) + EncodeList(opts[i].key, opts[i+1..])
    ensures Pos(opts, i + 1) == Pos(opts, i) + |EncodeOpt(opts[i].key - KeyBefore(opts, i), opts[i].value)|
  {
    hide EncodeOpt;
    var a, b := opts[..i], opts[i..];
    assert opts == a + b && b[1..] == opts[i+1..];
    EncodeSplit(0, a, b);
    var c := opts[..i + 1];
    PrefixWellFormed(opts, i + 1);
    assert c == a + [opts[i]];
    EncodeSplit(0, a, [opts[i]]);
    assert EncodeList(LastKey(0, a), [opts[i]]) ==
      EncodeOpt(opts[i].key - KeyBefore(opts, i), opts[i].value) + [];
    Assoc(EncodeList(0, a), EncodeOpt(opts[i].key - KeyBefore(opts, i), opts[i].value), EncodeList(opts[i].key, opts[i+1..]));
  }

  /** A buffer that holds the encoded list from `start` on decodes to the options of the list. */
  lemma DecodeAt(mem: seq<byte>, start: nat, opts: seq<Opt>, i: nat)
    requires WellFormed(0, opts) && i < |opts| && Holds(mem, start, opts)
    ensures var p := start + Pos(opts, i);
      && Readable(mem, p) && mem[p] != 0xFF && Decode(mem, p).Good?
      && var g := Decode(mem, p);
      && KeyBefore(opts, i) + g.delta == opts[i].key && g.len == |opts[i].value|
      && g.next == start + Pos(opts, i + 1) <= start + Pos(opts, |opts|) && p < g.next
      && g.valueAt <= g.next <= |mem| && mem[g.valueAt..g.next] == opts[i].value
  {
    hide EncodeList, Header, Decode, Nibble;
    TakeApart(opts, i);
    var a, o, b := EncodeList(0, opts[..i]), opts[i], EncodeList(opts[i].key, opts[i+1..]);
    var delta := o.key - KeyBefore(opts, i);
    var h := Header(delta, |o.value|);
    assert opts[..|opts|] == opts;
    var p := start + |a|;
    Embedded(mem, start, a, h, o.value, b);
    HeaderDecodes(mem, p, delta, |o.value|);
    HeaderBytes(delta, |o.value|);
  }

  lemma Embedded(mem: seq<byte>, start: nat, a: seq<byte>, h: seq<byte>, v: seq<byte>, b: seq<byte>)
    requires start + |a + (h + v) + b| <= |mem| && mem[start..start + |a + (h + v) + b|] == a + (h + v) + b
    ensures var p := start + |a|;
      p + |h| + |v| <= |mem| && mem[p..p + |h|] == h && mem[p + |h|..p + |h| + |v|] == v
  {
    var s, n := a + (h + v) + b, |a + (h + v) + b|;
    assert s[|a|..|a| + |h|] == h;
    assert s[|a| + |h|..|a| + |h| + |v|] == v;
    SliceOfSlice(mem, start, n, |a|, |a| + |h|);
    SliceOfSlice(mem, start, n, |a| + |h|, |a| + |h| + |v|);
  }

  ghost predicate Holds(mem: seq<byte>, start: nat, opts: seq<Opt>)
    requires WellFormed(0, opts)
  {
    var e := EncodeList(0, opts);
    start + |e| <= |mem| && mem[start..start + |e|] == e
  }

  /** The place of an insertion: everything before has a number up to `key`, the next one a larger one. */
  lemma {:induction false} RankIs(opts: seq<Opt>, key: nat, i: nat)
    requires i <= |opts| && (forall j :: 0 <= j < i ==> opts[j].key <= key)
    requires i < |opts| ==> opts[i].key > key
    ensures Rank(opts, key) == i
  {
    if i > 0 { RankIs(opts[1..], key, i - 1); }
  }
}
