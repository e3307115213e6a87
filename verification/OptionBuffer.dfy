/**
 Encoding and inserting options in place, in a byte buffer.
 */
module OptionBuffer {
  import opened Options

  // ----- overwriting a stretch of a buffer

  /** `s` with the bytes of `b` written at position `at`. */
  function Patch(s: seq<byte>, at: nat, b: seq<byte>): (r: seq<byte>)
    requires at + |b| <= |s|
    ensures |r| == |s|
  {
    s[..at] + b + s[at + |b|..]
  }

  lemma PatchAppend(s: seq<byte>, at: nat, a: seq<byte>, b: seq<byte>)
    requires at + |a| + |b| <= |s|
    ensures Patch(Patch(s, at, a), at + |a|, b) == Patch(s, at, a + b)
  {
  }

  /** Writing two stretches after `at`, and twice the byte at `at`, in this order. */
  lemma PatchHeader(s: seq<byte>, at: nat, x: byte, y: byte, a: seq<byte>, b: seq<byte>)
    requires at + 1 + |a| + |b| <= |s|
    ensures Patch(Patch(s, at + 1, a)[at := x], at + 1 + |a|, b)[at := y] == Patch(s, at, [y] + a + b)
  {
  }

  /** memmove: copies `n` bytes from `from` to `to` inside one buffer, overlap allowed. */
  method MoveBytes(buf: array<byte>, to: nat, from: nat, n: nat)
    requires to + n <= buf.Length && from + n <= buf.Length
    modifies buf
    ensures buf[..] == Patch(old(buf[..]), to, old(buf[from..from + n]))
  {
    forall i | 0 <= i < n {
      buf[to + i] := buf[from + i];
    }
    assert buf[to..to + n] == old(buf[from..from + n]);
    assert buf[..] == buf[..to] + buf[to..to + n] + buf[to + n..];
  }

  /** memcpy: copies `n` bytes from `src` to `buf`. */
  method CopyBytes(buf: array<byte>, to: nat, src: array<byte>, from: nat, n: nat)
    requires to + n <= buf.Length && from + n <= src.Length
    requires src == buf ==> from == to || from + n <= to || to + n <= from
    modifies buf
    ensures buf[..] == Patch(old(buf[..]), to, old(src[from..from + n]))
  {
    forall i | 0 <= i < n {
      buf[to + i] := src[from + i];
    }
    assert buf[to..to + n] == old(src[from..from + n]);
    assert buf[..] == buf[..to] + buf[to..to + n] + buf[to + n..];
  }

  // ----- one option

  /** A 16-bit number cast to 8 bits, less 13, in an 8-bit variable. */
  function LowByteLess13(n: int): byte {
    (n % 256 - 13) % 256
  }

  /** Writes the extension of a delta or a length, and says what to put into the first byte. */
  method WriteExt(buf: array<byte>, at: nat, n: nat) returns (nibble: nat, next: nat)
    requires n < 65536 && at + |Ext(n)| <= buf.Length
    modifies buf
    ensures nibble == Nibble(n) && next == at + |Ext(n)|
    ensures buf[..] == Patch(old(buf[..]), at, Ext(n))
  {
    if n >= 269 {
      nibble, next := 14, at + 2;
      buf[at] := (n - 269) / 256;
      buf[at + 1] := (n - 269) % 256;
    } else if n >= 13 {
      nibble, next := 13, at + 1;
      buf[at] := LowByteLess13(n);
    } else {
      nibble, next := n, at;
    }
    assert buf[at..next] == Ext(n);
    assert buf[..] == buf[..at] + buf[at..next] + buf[next..];
  }

  /** Writes the header of an option and returns where its value goes. */
  method WriteHeader(buf: array<byte>, pos: nat, delta: nat, len: nat) returns (valueAt: nat)
    requires delta < 65536 && len <= MAX_VALUE_SIZE
    requires pos + |Header(delta, len)| <= buf.Length
    modifies buf
    ensures valueAt == pos + |Header(delta, len)|
    ensures buf[..] == Patch(old(buf[..]), pos, Header(delta, len))
  {
    hide Ext, Nibble;
    ghost var s := buf[..];
    var high, low, afterDelta;
    high, afterDelta := WriteExt(buf, pos + 1, delta);
    buf[pos] := high * 16;
    low, valueAt := WriteExt(buf, afterDelta, len);
    buf[pos] := buf[pos] + low;
    PatchHeader(s, pos, high * 16, high * 16 + low, Ext(delta), Ext(len));
  }

  /** The length that is encoded: longer values are cut off. */
  function Capped(len: nat): nat {
    if len > MAX_VALUE_SIZE then MAX_VALUE_SIZE else len
  }

  /** Writes an option at `pos` and returns the position after it.  The value may lie in the
      buffer itself, if it is exactly where it has to go. */
  method EncodeOption(buf: array<byte>, pos: nat, prevKey: nat, key: nat, src: array<byte>, from: nat, len: nat)
      returns (next: nat)
    requires from + len <= src.Length
    requires pos + |Header((key - prevKey) % 65536, Capped(len))| + Capped(len) <= buf.Length
    requires src == buf ==> from == pos + |Header((key - prevKey) % 65536, Capped(len))|
    modifies buf
    ensures next == pos + |Header((key - prevKey) % 65536, Capped(len))| + Capped(len)
    ensures next == pos + |Header((key - prevKey) % 65536, Capped(len))| + if len <= 1034 then len else 1034
    ensures next == pos + |EncodeOpt((key - prevKey) % 65536, old(src[from..from + Capped(len)]))|
    ensures buf[..] ==
      Patch(old(buf[..]), pos, EncodeOpt((key - prevKey) % 65536, old(src[from..from + Capped(len)])))
  {
    hide Header, Patch;
    ghost var s := buf[..];
    var delta := (key - prevKey) % 65536;
    var n := if len > MAX_VALUE_SIZE then MAX_VALUE_SIZE else len;
    ghost var h, value := Header(delta, n), src[from..from + n];
    var valueAt := WriteHeader(buf, pos, delta, n);
    assert src[from..from + n] == value by {
      if src == buf {
        ValueKept(s, pos, h, from, n);
        assert src[from..from + n] == buf[..][from..from + n] == s[from..from + n];
      }
    }
    CopyBytes(buf, valueAt, src, from, n);
    next := valueAt + n;
    PatchAppend(s, pos, h, value);
  }

  /** Writing a header does not touch a value that follows it. */
  lemma ValueKept(s: seq<byte>, pos: nat, h: seq<byte>, from: nat, n: nat)
    requires pos + |h| <= |s|
    ensures from == pos + |h| && from + n <= |s| ==> Patch(s, pos, h)[from..from + n] == s[from..from + n]
  {
  }

  // ----- insertion in front of another option

  lemma PatchIs(s: seq<byte>, at: nat, b: seq<byte>)
    requires at + |b| <= |s|
    ensures Patch(s, at, b) == s[..at] + b + s[at + |b|..]
  {
  }

  lemma PatchSlices(s: seq<byte>, at: nat, b: seq<byte>)
    requires at + |b| <= |s|
    ensures var p := Patch(s, at, b);
      && p[at..at + |b|] == b && p[..at] == s[..at] && p[at + |b|..] == s[at + |b|..]
  {
  }

  /** Making room: the header and the value of the moved option. */
  lemma Moved(s: seq<byte>, at: nat, h: seq<byte>, v: seq<byte>, tail: seq<byte>)
    requires at + |h + v + tail| <= |s|
    ensures var p := Patch(s, at, h + v + tail);
      && p[at..at + |h|] == h && p[at + |h|..at + |h| + |v|] == v
      && p[at + |h|..at + |h + v + tail|] == v + tail
  {
    hide Patch;
    var p, b := Patch(s, at, h + v + tail), h + v + tail;
    PatchSlices(s, at, b);
    assert b[..|h|] == h && b[|h|..|h| + |v|] == v && b[|h|..] == v + tail;
    SliceOfSlice(p, at, |b|, 0, |h|);
    SliceOfSlice(p, at, |b|, |h|, |h| + |v|);
    SliceOfSlice(p, at, |b|, |h|, |b|);
  }

  /** Writing in front of a stretch leaves it. */
  lemma PatchBefore(s: seq<byte>, at: nat, b: seq<byte>, from: nat, to: nat)
    requires at + |b| <= from <= to <= |s|
    ensures Patch(s, at, b)[from..to] == s[from..to]
  {
  }

  /** Two adjacent stretches written one after the other: what is before, in and after them. */
  lemma PatchTwo(s: seq<byte>, ip: nat, n: seq<byte>, m: seq<byte>, e: nat)
    requires ip + |n| + |m| <= e <= |s|
    ensures var p, y := Patch(Patch(s, ip, n), ip + |n|, m), ip + |n| + |m|;
      && p[..ip] == s[..ip] && p[ip..y] == n + m && p[y..e] == s[y..e] && p[e..] == s[e..]
  {
    PatchAppend(s, ip, n, m);
    hide Patch;
    var p, y := Patch(s, ip, n + m), ip + |n + m|;
    PatchSlices(s, ip, n + m);
    CutAgain(p, y, e);
    CutAgain(s, y, e);
  }

  /** The bytes after an insertion: the options from `ip` on moved by `d`, the new option
      written at `ip`, and the header of its neighbour written again after it. */
  lemma InsertPatches(s: seq<byte>, ip: nat, d: nat, h: seq<byte>, v: seq<byte>, tail: seq<byte>, n: seq<byte>, h': seq<byte>)
    requires ip + |h + v + tail| + d <= |s|
    requires |n| + |h'| == d + |h|
    ensures var s2 := Patch(Patch(s, ip + d, h + v + tail), ip, n);
      Patch(s2, ip + |n|, h' + v) == s[..ip] + (n + (h' + v) + tail) + s[ip + |h + v + tail| + d..]
  {
    hide Patch;
    var m := h + v + tail;
    var s1 := Patch(s, ip + d, m);
    var y, e := ip + |n| + |h' + v|, ip + d + |m|;
    PatchSlices(s, ip + d, m);
    PatchTwo(s1, ip, n, h' + v, e);
    assert s1[y..e] == tail by {
      assert m[|h| + |v|..] == tail;
      SliceOfSlice(s1, ip + d, |m|, |h| + |v|, |m|);
    }
    CutAgain(s1, ip, ip + d);
    CutAgain(s, ip, ip + d);
    var s3 := Patch(Patch(s1, ip, n), ip + |n|, h' + v);
    FourParts(s3, ip, y, e);
  }

  lemma FourParts(s: seq<byte>, a: nat, b: nat, c: nat)
    requires a <= b <= c <= |s|
    ensures s == s[..a] + (s[a..b] + s[b..c]) + s[c..]
  {
  }

  lemma CutAgain(s: seq<byte>, a: nat, b: nat)
    requires a <= b <= |s|
    ensures s[..b][..a] == s[..a] && s[..b][a..] == s[a..b]
    ensures s[a..][b - a..] == s[b..] && s[a..][..b - a] == s[a..b]
  {
  }

  /** How much longer the options get: the new option and the change of its neighbour's header. */
  function Growth(prevKey: nat, key: nat, nextKey: nat, len: nat): int
    requires prevKey <= key <= nextKey < 65536 && len <= MAX_VALUE_SIZE
  {
    |Header(key - prevKey, len)| + len + |Ext(nextKey - key)| - |Ext(nextKey - prevKey)|
  }

  lemma GrowthBounds(prevKey: nat, key: nat, nextKey: nat, len: nat, nextLen: nat)
    requires prevKey <= key <= nextKey < 65536 && len <= MAX_VALUE_SIZE && nextLen <= MAX_VALUE_SIZE
    ensures var d := Growth(prevKey, key, nextKey, len);
      && 0 <= d <= len + 5
      && |Header(key - prevKey, len)| + len + |Header(nextKey - key, nextLen)| == d + |Header(nextKey - prevKey, nextLen)|
  {
  }

  /** An insertion can leave the length of the options as it was: the neighbour's header
      shrinks by as much as the new option takes. */
  lemma GrowthCanBeZero()
    ensures Growth(0, 12, 269, 0) == 0
  {
  }

  /** The growth as it is summed up before anything is moved.  The sum is kept in 16 bits;
      it may dip below zero on the way but not at the end. */
  method SizeDiff(prevKey: nat, key: nat, nextKey: nat, len: nat, nextFirst: byte) returns (diff: int)
    requires prevKey <= key <= nextKey < 65536 && len <= MAX_VALUE_SIZE
    requires nextFirst / 16 == Nibble(nextKey - prevKey)
    ensures diff == Growth(prevKey, key, nextKey, len)
  {
    diff := len + 1;
    if len >= 13 { diff := diff + 1; }
    if len >= 269 { diff := diff + 1; }
    if key - prevKey >= 13 { diff := diff + 1; }
    if key - prevKey >= 269 { diff := diff + 1; }
    if nextFirst / 16 == 13 {
      diff := diff - 1;
    } else if nextFirst / 16 == 14 {
      diff := diff - 2;
    }
    if nextKey - key >= 13 { diff := diff + 1; }
    if nextKey - key >= 269 { diff := diff + 1; }
  }

  /** Inserts an option in front of the option `next`, which starts at `ip`. */
  method InsertBefore(buf: array<byte>, ip: nat, end: nat, prevKey: nat, key: nat, nextKey: nat,
                      src: array<byte>, from: nat, len: nat, ghost next: Opt, ghost tail: seq<byte>)
      returns (diff: nat)
    requires src != buf && from + len <= src.Length && len <= MAX_VALUE_SIZE
    requires prevKey <= key < nextKey == next.key <= INVALID_KEY && |next.value| <= MAX_VALUE_SIZE
    requires ip <= end && end + len + 5 <= buf.Length
    requires buf[ip..end] == EncodeOpt(nextKey - prevKey, next.value) + tail
    modifies buf
    ensures diff <= len + 5
    ensures |EncodeOpt(nextKey - prevKey, next.value)| + diff
      == |EncodeOpt(key - prevKey, old(src[from..from + len]))| + |EncodeOpt(nextKey - key, next.value)|
    ensures buf[..] == old(buf[..ip])
      + (EncodeOpt(key - prevKey, old(src[from..from + len])) + EncodeOpt(nextKey - key, next.value) + tail)
      + old(buf[end + diff..])
  {
    hide Header, Patch, Growth;
    ghost var s := buf[..];
    ghost var h, v := Header(nextKey - prevKey, |next.value|), next.value;
    GrowthBounds(prevKey, key, nextKey, len, |next.value|);
    assert s[ip..end] == h + (v + tail) == h + v + tail;
    HeaderAtFront(s, ip, end, nextKey - prevKey, |next.value|, v + tail);
    diff := SizeDiff(prevKey, key, nextKey, len, buf[ip]);
    if diff != 0 {
      MoveBytes(buf, ip + diff, ip, end - ip);
    } else {
      PatchSame(s, ip, end, h + v + tail);
    }
    assert buf[..] == Patch(s, ip + diff, h + v + tail);
    WriteBoth(buf, ip, diff, prevKey, key, nextKey, src, from, len, s, v, tail);
  }

  /** What the decoder sees where the next option has been moved to. */
  lemma ReadMoved(s: seq<byte>, at: nat, delta: nat, v: seq<byte>, tail: seq<byte>)
    requires delta < 65536 && |v| <= MAX_VALUE_SIZE && at + |Header(delta, |v|) + v + tail| <= |s|
    ensures var p, x := Patch(s, at, Header(delta, |v|) + v + tail), at + |Header(delta, |v|)|;
      && Readable(p, at) && Decode(p, at) == Good(delta, x, |v|, x + |v|) && p[x..x + |v|] == v
  {
    hide Header, Patch, Decode;
    Moved(s, at, Header(delta, |v|), v, tail);
    HeaderDecodes(Patch(s, at, Header(delta, |v|) + v + tail), at, delta, |v|);
  }

  /** Room is made: writes the new option and, after it, the next option's new header. */
  method WriteBoth(buf: array<byte>, ip: nat, diff: nat, prevKey: nat, key: nat, nextKey: nat,
                   src: array<byte>, from: nat, len: nat, ghost s: seq<byte>, ghost v: seq<byte>, ghost tail: seq<byte>)
    requires src != buf && from + len <= src.Length && len <= MAX_VALUE_SIZE
    requires prevKey <= key < nextKey <= INVALID_KEY && |v| <= MAX_VALUE_SIZE
    requires diff == Growth(prevKey, key, nextKey, len) && |s| == buf.Length
    requires ip + diff + |Header(nextKey - prevKey, |v|) + v + tail| <= |s|
    requires buf[..] == Patch(s, ip + diff, Header(nextKey - prevKey, |v|) + v + tail)
    modifies buf
    ensures buf[..] == s[..ip]
      + (EncodeOpt(key - prevKey, old(src[from..from + len])) + EncodeOpt(nextKey - key, v) + tail)
      + s[ip + diff + |Header(nextKey - prevKey, |v|) + v + tail|..]
  {
    hide Header, Patch, Decode, Growth;
    ghost var h, h', value := Header(nextKey - prevKey, |v|), Header(nextKey - key, |v|), src[from..from + len];
    ghost var n, s1 := EncodeOpt(key - prevKey, value), buf[..];
    GrowthBounds(prevKey, key, nextKey, len, |v|);
    ReadMoved(s, ip + diff, nextKey - prevKey, v, tail);
    SmallDelta(prevKey, key);
    SmallDelta(key, nextKey);
    var moved := Decode(buf[..], ip + diff);
    var after := EncodeOption(buf, ip, prevKey, key, src, from, len);
    ghost var x := moved.valueAt;
    assert buf[x..x + |v|] == v by {
      PatchBefore(s1, ip, n, x, x + |v|);
      assert buf[x..x + |v|] == buf[..][x..x + |v|];
    }
    var last := EncodeOption(buf, after, key, nextKey, buf, moved.valueAt, moved.len);
    InsertPatches(s, ip, diff, h, v, tail, n, h');
  }

  lemma SmallDelta(a: nat, b: nat)
    requires a <= b < 65536
    ensures (b - a) % 65536 == b - a
  {
  }

  lemma HeaderAtFront(s: seq<byte>, ip: nat, end: nat, delta: nat, len: nat, rest: seq<byte>)
    requires delta < 65536 && len <= MAX_VALUE_SIZE && ip <= end <= |s| && s[ip..end] == Header(delta, len) + rest
    ensures ip < end && s[ip] / 16 == Nibble(delta)
  {
    HeaderBytes(delta, len);
    assert s[ip] == s[ip..end][0];
  }

  lemma PatchSame(s: seq<byte>, ip: nat, end: nat, b: seq<byte>)
    requires ip <= end <= |s| && s[ip..end] == b
    ensures Patch(s, ip, b) == s
  {
  }

  // ----- insertion into a list

  /** The search for the insertion point.  Either it stops behind the first option with a
      larger number, or it comes to the end. */
  method FindPlace(buf: array<byte>, start: nat, end: nat, key: nat, ghost opts: seq<Opt>)
      returns (iter: nat, ip: nat, prevKey: nat, iterKey: nat)
    requires WellFormed(0, opts) && Holds(buf[..], start, opts)
    requires start < end == start + Pos(opts, |opts|)
    ensures var r := Rank(opts, key);
      && ip == start + Pos(opts, r) && prevKey == KeyBefore(opts, r) <= key
      && (r < |opts| ==> iterKey == opts[r].key > key)
      && (r == |opts| ==> iterKey <= key && iter == end)
  {
    hide Decode, EncodeList, Pos;
    iter, ip, prevKey, iterKey := start, start, 0, 0;
    PosEnds(opts);
    ghost var i := 0;
    var more := true;
    while more
      invariant i <= |opts| && ip == start + Pos(opts, i) && prevKey == KeyBefore(opts, i) <= key
      invariant forall j :: 0 <= j < i ==> opts[j].key <= key
      invariant more ==> i < |opts| && iter == ip && iterKey == prevKey
      invariant !more && i < |opts| ==> iterKey == opts[i].key > key
      invariant !more && i == |opts| ==> iterKey <= key && iter == end
      decreases more, |opts| - i
    {
      DecodeAt(buf[..], start, opts, i);
      var g := Decode(buf[..], iter);
      iterKey := iterKey + g.delta;
      iter := g.next;
      if iterKey <= key {
        ip, prevKey := iter, iterKey;
        i := i + 1;
        PosMore(opts, i);
      }
      more := iterKey <= key && iter < end;
    }
    RankIs(opts, key, i);
  }

  lemma PosEnds(opts: seq<Opt>)
    requires WellFormed(0, opts)
    ensures Pos(opts, 0) == 0 && (0 < Pos(opts, |opts|) ==> opts != [])
  {
    assert opts[..0] == [];
    assert opts[..|opts|] == opts;
  }

  /** Behind an option that is not the last one there are more bytes. */
  lemma PosMore(opts: seq<Opt>, i: nat)
    requires WellFormed(0, opts) && i <= |opts|
    ensures Pos(opts, i) <= Pos(opts, |opts|) && (Pos(opts, i) < Pos(opts, |opts|) <==> i < |opts|)
    decreases |opts| - i
  {
    if i < |opts| {
      hide Header, EncodeOpt, EncodeList, Pos;
      TakeApart(opts, i);
      PosMore(opts, i + 1);
    }
  }

  lemma SplitsAround(a: seq<Opt>, o: Opt, b: seq<Opt>)
    requires WellFormed(0, a + b) && WellFormed(0, a + ([o] + b))
    ensures var prev := LastKey(0, a);
      && WellFormed(0, a) && WellFormed(prev, b) && prev <= o.key <= INVALID_KEY && WellFormed(o.key, b)
      && |o.value| <= MAX_VALUE_SIZE
      && EncodeList(0, a + b) == EncodeList(0, a) + EncodeList(prev, b)
      && EncodeList(0, a + ([o] + b)) == EncodeList(0, a) + (EncodeOpt(o.key - prev, o.value) + EncodeList(o.key, b))
  {
    hide EncodeOpt, EncodeList, WellFormed;
    EncodeSplit(0, a, b);
    EncodeSplit(0, a, [o] + b);
    EncodeCons(LastKey(0, a), o, b);
  }

  /** An insertion splits the encoded bytes at the insertion point. */
  lemma InsertSplits(opts: seq<Opt>, o: Opt)
    requires WellFormed(0, opts) && o.key <= INVALID_KEY && |o.value| <= MAX_VALUE_SIZE
    ensures var r := Rank(opts, o.key);
      var prev := KeyBefore(opts, r);
      && WellFormed(0, Insert(opts, o)) && WellFormed(0, opts[..r]) && WellFormed(prev, opts[r..])
      && prev <= o.key && WellFormed(o.key, opts[r..])
      && Pos(opts, r) == |EncodeList(0, opts[..r])|
      && EncodeList(0, opts) == EncodeList(0, opts[..r]) + EncodeList(prev, opts[r..])
      && EncodeList(0, Insert(opts, o)) ==
        EncodeList(0, opts[..r]) + (EncodeOpt(o.key - prev, o.value) + EncodeList(o.key, opts[r..]))
  {
    hide EncodeOpt, EncodeList, WellFormed, Insert, Rank;
    var r := Rank(opts, o.key);
    var a, b := opts[..r], opts[r..];
    InsertAtRank(opts, o);
    InsertWellFormed(0, opts, o);
    assert opts == a + b;
    assert Insert(opts, o) == a + ([o] + b);
    SplitsAround(a, o, b);
  }

  /** At the end the new option is appended. */
  lemma InsertAtEnd(opts: seq<Opt>, o: Opt)
    requires WellFormed(0, opts) && o.key <= INVALID_KEY && |o.value| <= MAX_VALUE_SIZE
    requires Rank(opts, o.key) == |opts|
    ensures WellFormed(0, Insert(opts, o)) && KeyBefore(opts, |opts|) <= o.key
    ensures EncodeList(0, Insert(opts, o)) ==
      EncodeList(0, opts) + EncodeOpt(o.key - KeyBefore(opts, |opts|), o.value)
  {
    hide EncodeOpt, WellFormed;
    InsertSplits(opts, o);
    assert opts[..|opts|] == opts && opts[|opts|..] == [];
  }

  /** In front of another option, the header of that option changes. */
  lemma InsertInside(opts: seq<Opt>, o: Opt, r: nat)
    requires WellFormed(0, opts) && o.key <= INVALID_KEY && |o.value| <= MAX_VALUE_SIZE
    requires r == Rank(opts, o.key) < |opts|
    ensures WellFormed(0, Insert(opts, o)) && WellFormed(opts[r].key, opts[r+1..])
    ensures KeyBefore(opts, r) <= o.key < opts[r].key <= INVALID_KEY && |opts[r].value| <= MAX_VALUE_SIZE
    ensures var e, p, prev, tail := EncodeList(0, opts), Pos(opts, r), KeyBefore(opts, r), EncodeList(opts[r].key, opts[r+1..]);
      && p <= |e| && e[p..] == EncodeOpt(opts[r].key - prev, opts[r].value) + tail
      && EncodeList(0, Insert(opts, o)) ==
        e[..p] + (EncodeOpt(o.key - prev, o.value) + EncodeOpt(opts[r].key - o.key, opts[r].value) + tail)
  {
    hide EncodeOpt, EncodeList, WellFormed;
    InsertSplits(opts, o);
    RankBounds(opts, o.key);
    var n, rest, prev := opts[r], opts[r+1..], KeyBefore(opts, r);
    assert opts[r..] == [n] + rest;
    EncodeCons(prev, n, rest);
    EncodeCons(o.key, n, rest);
    Assoc(EncodeOpt(o.key - prev, o.value), EncodeOpt(n.key - o.key, n.value), EncodeList(n.key, rest));
  }

  lemma {:induction false} RankBounds(opts: seq<Opt>, key: nat)
    ensures var r := Rank(opts, key);
      && (forall j :: 0 <= j < r ==> opts[j].key <= key) && (r < |opts| ==> opts[r].key > key)
  {
    if opts != [] && opts[0].key <= key { RankBounds(opts[1..], key); }
  }

  /** Inserts an option into the encoded options between `start` and `end`, after all options
      with the same or a smaller number, and returns how many bytes the options grew. */
  method InsertOption(buf: array<byte>, start: nat, end: nat, key: nat, src: array<byte>, from: nat, len: nat,
                      ghost opts: seq<Opt>) returns (growth: nat)
    requires src != buf && from + len <= src.Length && len <= MAX_VALUE_SIZE && key <= INVALID_KEY
    requires WellFormed(0, opts) && start + |EncodeList(0, opts)| == end && end + len + 5 <= buf.Length
    requires buf[start..end] == EncodeList(0, opts)
    modifies buf
    ensures var longer := Insert(opts, Opt(key, old(src[from..from + len])));
      && WellFormed(0, longer) && growth <= len + 5 && end + growth == start + |EncodeList(0, longer)|
      && buf[..] == old(buf[..start]) + EncodeList(0, longer) + old(buf[end + growth..])
  {
    hide EncodeOpt, EncodeList, Header, Pos, WellFormed, Patch, Insert, Rank;
    ghost var s, e := buf[..], EncodeList(0, opts);
    ghost var o := Opt(key, src[from..from + len]);
    ghost var r := Rank(opts, key);
    PosIsLength(opts);
    PosMore(opts, r);
    var iter, ip, prevKey, iterKey := 0, start, 0, 0;
    if start != end {
      iter, ip, prevKey, iterKey := FindPlace(buf, start, end, key, opts);
    }
    if start != end && (iterKey > key || iter < end) {
      ghost var p := Pos(opts, r);
      InsertInside(opts, o, r);
      AtPoint(s, start, end, e, p);
      growth := InsertBefore(buf, ip, end, prevKey, key, iterKey, src, from, len, opts[r],
        EncodeList(opts[r].key, opts[r+1..]));
      Assoc(s[..start], e[..p], EncodeOpt(key - prevKey, o.value)
        + EncodeOpt(iterKey - key, opts[r].value) + EncodeList(opts[r].key, opts[r+1..]));
    } else {
      InsertAtEnd(opts, o);
      SmallDelta(prevKey, key);
      var next := EncodeOption(buf, end, prevKey, key, src, from, len);
      growth := next - end;
      PatchIs(s, end, EncodeOpt(key - prevKey, o.value));
      AtPoint(s, start, end, e, |e|);
      Assoc(s[..start], e, EncodeOpt(key - prevKey, o.value));
    }
  }

  lemma AtPoint(s: seq<byte>, start: nat, end: nat, e: seq<byte>, p: nat)
    requires start <= end <= |s| && s[start..end] == e && p <= |e|
    ensures s[..start + p] == s[..start] + e[..p] && s[start + p..end] == e[p..] && e[..|e|] == e
  {
  }

  lemma PosIsLength(opts: seq<Opt>)
    requires WellFormed(0, opts)
    ensures Pos(opts, |opts|) == |EncodeList(0, opts)| && (EncodeList(0, opts) == [] <==> opts == [])
  {
    assert opts[..|opts|] == opts;
  }
}
