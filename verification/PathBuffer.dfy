/** The functions on paths as they work on memory: decoding in place, cutting off components, and joining options in a buffer. */
module PathBuffer {
  import opened UrlPath
  import Options
  import opened Outbound

  /** A string of C stands at `at`. */
  ghost predicate StringAt(mem: array<byte>, at: nat, s: seq<byte>)
    reads mem
  {
    at + |s| < mem.Length && mem[at..at + |s|] == s && mem[at + |s|] == 0 && NoNul(s)
  }

  function Least(a: nat, b: nat): nat {
    if a < b then a else b
  }

  /** How much of the decoded string fits into `max` bytes with the zero at its end. */
  function Fitting(s: seq<byte>, max: nat): (r: seq<byte>)
    ensures |r| <= |s| && r <= Decode(s)
    ensures r == Decode(s) <==> max > |Decode(s)| || Decode(s) == []
    ensures r != Decode(s) && max > 0 ==> |r| == max - 1
  {
    if max == 0 then [] else Decode(s)[..Least(|Decode(s)|, max - 1)]
  }

  /** The decoded character at `from`, which is not the end of the string, and how many characters it takes. */
  method DecodeOne(mem: array<byte>, from: nat, ghost t: seq<byte>) returns (c: byte, n: nat)
    requires StringAt(mem, from, t) && t != []
    ensures c == DecodeChar(t) && n == Taken(t)
  {
    assert forall i | 0 <= i < |t| :: mem[from + i] == t[i];
    c, n := mem[from], 1;
    if c == PERCENT && mem[from + 1] != 0 && mem[from + 2] != 0 && !(mem[from + 1] == ZERO && mem[from + 2] == ZERO) {
      c := HexValue(mem[from + 1]) * 16 + HexValue(mem[from + 2]);
      n := 3;
    } else if c == PLUS {
      c := SPACE;
    }
  }

  lemma StringAfter(mem: array<byte>, from: nat, t: seq<byte>, n: nat)
    requires StringAt(mem, from, t) && n <= |t|
    ensures StringAt(mem, from + n, t[n..])
    ensures mem[from] == if t == [] then 0 else t[0]
  {
    assert mem[from + n..from + |t|] == mem[from..from + |t|][n..];
  }

  /** A string that nothing was written into. */
  lemma StringKept(mem: array<byte>, was: seq<byte>, from: nat, t: seq<byte>)
    requires |was| == mem.Length && from + |t| < mem.Length
    requires was[from..from + |t|] == t && was[from + |t|] == 0 && NoNul(t)
    requires forall i | from <= i <= from + |t| :: mem[i] == was[i]
    ensures StringAt(mem, from, t)
  {
  }

  /** The state of the decoding loop: `done` is decoded and stands at `dest`, `t` is still to be decoded and stands at `from`. */
  ghost predicate Decoding(mem: array<byte>, dest: nat, from: nat, s: seq<byte>, done: seq<byte>, t: seq<byte>)
    reads mem
  {
    && StringAt(mem, from, t)
    && Decode(s) == done + Decode(t)
    && dest + |done| <= mem.Length && mem[dest..dest + |done|] == done
  }

  /** Nothing has been written except between `dest` and `to`. */
  ghost predicate Untouched(mem: array<byte>, was: seq<byte>, dest: nat, to: nat)
    reads mem
  {
    |was| == mem.Length && forall i | 0 <= i < mem.Length && !(dest <= i < to) :: mem[i] == was[i]
  }

  /** The decoding state, said of the bytes in memory. */
  ghost predicate DecodingBytes(was: seq<byte>, dest: nat, from: nat, s: seq<byte>, done: seq<byte>, t: seq<byte>) {
    && from + |t| < |was| && was[from..from + |t|] == t && was[from + |t|] == 0 && NoNul(t)
    && Decode(s) == done + Decode(t)
    && dest + |done| <= |was| && was[dest..dest + |done|] == done
  }

  lemma DecodingIsBytes(mem: array<byte>, dest: nat, from: nat, s: seq<byte>, done: seq<byte>, t: seq<byte>)
    ensures Decoding(mem, dest, from, s, done, t) <==> DecodingBytes(mem[..], dest, from, s, done, t)
    ensures Decoding(mem, dest, from, s, done, t) ==> StringAt(mem, from, t)
  {
  }

  lemma DecodingGrows(was: seq<byte>, now: seq<byte>, dest: nat, from: nat, s: seq<byte>, done: seq<byte>, t: seq<byte>)
    requires DecodingBytes(was, dest, from, s, done, t) && t != []
    requires var to := dest + |done|; (to <= from || from + |t| < to) && to < |was| && now == was[to := DecodeChar(t)]
    ensures DecodingBytes(now, dest, from + Taken(t), s, done + [DecodeChar(t)], t[Taken(t)..])
  {
    hide Decode, DecodeChar, Taken;
    var to, n := dest + |done|, Taken(t);
    DecodeFirst(t);
    assert now[dest..to] == was[dest..to];
    assert now[dest..to + 1] == now[dest..to] + [now[to]];
    assert now[from + n..from + |t|] == was[from..from + |t|][n..];
  }

  lemma UntouchedGrows(mem: array<byte>, was: seq<byte>, before: seq<byte>, dest: nat, to: nat, c: byte)
    requires |was| == |before| && dest <= to < |was| && mem[..] == was[to := c]
    requires forall i | 0 <= i < |was| && !(dest <= i < to) :: was[i] == before[i]
    ensures Untouched(mem, before, dest, to + 1)
  {
    forall i | 0 <= i < mem.Length && !(dest <= i < to + 1)
      ensures mem[i] == before[i]
    {
      assert mem[..][i] == was[i];
    }
  }

  /** Writes one decoded character. */
  method Emit(
    mem: array<byte>, dest: nat, from: nat, to: nat,
    ghost s: seq<byte>, ghost done: seq<byte>, ghost t: seq<byte>, ghost before: seq<byte>
  ) returns (n: nat, ghost done': seq<byte>, ghost t': seq<byte>)
    requires Untouched(mem, before, dest, to)
    requires Decoding(mem, dest, from, s, done, t) && t != []
    requires to == dest + |done| && (to <= from || from + |t| < to) && to < mem.Length
    modifies mem
    ensures |done'| == |done| + 1 && |t'| + n == |t| && n >= 1
    ensures Decoding(mem, dest, from + n, s, done', t')
    ensures Untouched(mem, before, dest, to + 1)
  {
    hide Decode, DecodeChar, Taken, Decoding, DecodingBytes, StringAt;
    DecodingIsBytes(mem, dest, from, s, done, t);
    var c;
    c, n := DecodeOne(mem, from, t);
    ghost var was := mem[..];
    mem[to] := c;
    assert mem[..] == was[to := c];
    done', t' := done + [c], t[n..];
    DecodingGrows(was, mem[..], dest, from, s, done, t);
    DecodingIsBytes(mem, dest, from + n, s, done', t');
    UntouchedGrows(mem, was, before, dest, to, c);
  }

  lemma DecodeFirst(t: seq<byte>)
    requires t != []
    ensures Decode(t) == [DecodeChar(t)] + Decode(t[Taken(t)..])
  {
  }

  lemma NothingFits(s: seq<byte>)
    ensures Fitting(s, 0) == []
  {
  }

  lemma StartDecoding(mem: array<byte>, dest: nat, src: nat, s: seq<byte>)
    requires StringAt(mem, src, s) && dest <= mem.Length
    ensures src + |s| < mem.Length && Decoding(mem, dest, src, s, [], s) && Untouched(mem, mem[..], dest, dest)
  {
  }

  /** Where the loop stands tells whether it is finished. */
  lemma DecodingMeans(mem: array<byte>, dest: nat, from: nat, s: seq<byte>, done: seq<byte>, t: seq<byte>, max: nat)
    requires Decoding(mem, dest, from, s, done, t) && |done| < max
    ensures from + |t| < mem.Length && (mem[from] == 0 <==> t == [])
    ensures t == [] || |done| == max - 1 ==>
              dest + |Fitting(s, max)| == dest + |done| <= mem.Length && mem[dest..dest + |done|] == Fitting(s, max)
    ensures t == [] ==> Least(|Decode(s)|, max) == |done|
    ensures t != [] && |done| == max - 1 ==> Least(|Decode(s)|, max) == max
    ensures t != [] && |done| < max - 1 ==> |done| < |Fitting(s, max)|
  {
    StringAfter(mem, from, t, 0);
  }

  /** The loop of the decoder: stops at the end of the string, or when one byte of room is left for the zero. */
  method DecodeLoop(mem: array<byte>, dest: nat, src: nat, max: nat, ghost s: seq<byte>) returns (to: nat, ret: nat)
    requires StringAt(mem, src, s) && (dest <= src || src + |s| < dest)
    requires max > 0 && dest + |Fitting(s, max)| < mem.Length
    modifies mem
    ensures ret == Least(|Decode(s)|, max)
    ensures to == dest + |Fitting(s, max)| && mem[dest..to] == Fitting(s, max)
    ensures Untouched(mem, old(mem[..]), dest, to)
  {
    hide Decode, Decoding, StringAt, Fitting, Untouched, Least;
    StartDecoding(mem, dest, src, s);
    ghost var before := mem[..];
    ret, to := 0, dest;
    var from: nat, left: nat := src, max - 1;
    ghost var done, t := [], s;
    while true
      invariant Decoding(mem, dest, from, s, done, t)
      invariant to == dest + ret && ret == |done| && left + ret == max - 1
      invariant from + |t| == src + |s| && |done| <= from - src
      invariant Untouched(mem, before, dest, to)
      decreases |t|
    {
      DecodingMeans(mem, dest, from, s, done, t, max);
      if mem[from] == 0 {
        return;
      }
      if left == 0 {
        ret := ret + 1;
        return;
      }
      var n;
      n, done, t := Emit(mem, dest, from, to, s, done, t, before);
      from := from + n;
      to := to + 1;
      ret := ret + 1;
      left := left - 1;
    }
  }

  /**
     Decodes the string at `src` to `dest`, which may be the same place or one before it.
     Returns the length, or `max` when not everything fits.
     */
  method UrlDecode(mem: array<byte>, dest: nat, src: nat, max: nat, ghost s: seq<byte>) returns (ret: nat)
    requires StringAt(mem, src, s) && (dest <= src || src + |s| < dest)
    requires dest + |Fitting(s, max)| < mem.Length
    modifies mem
    ensures ret == Least(|Decode(s)|, max)
    ensures mem[dest..dest + |Fitting(s, max)|] == Fitting(s, max) && mem[dest + |Fitting(s, max)|] == 0
    ensures forall i | 0 <= i < mem.Length && !(dest <= i <= dest + |Fitting(s, max)|) :: mem[i] == old(mem[i])
  {
    hide Decode;
    NothingFits(s);
    ret := 0;
    var to := dest;
    if max > 0 {
      to, ret := DecodeLoop(mem, dest, src, max, s);
    }
    mem[to] := 0;
  }

  // ----- a path into options

  lemma Copied(mem: array<byte>, was: seq<byte>, from: nat, to: nat)
    requires |was| == mem.Length && from <= to <= mem.Length
    requires forall i | from <= i < to :: mem[i] == was[i]
    ensures mem[from..to] == was[from..to]
  {
  }

  /** The length of the string at `at`. */
  method StrLen(mem: array<byte>, at: nat, ghost s: seq<byte>) returns (n: nat)
    requires at + |s| < mem.Length && mem[at + |s|] == 0 && NoNul(s) && mem[at..at + |s|] == s
    ensures n == |s|
  {
    n := 0;
    while mem[at + n] != 0
      invariant n <= |s| && (n < |s| ==> mem[at + n] == s[n])
      decreases |s| - n
    {
      n := n + 1;
    }
  }

  /** The loop to the end of the component. */
  method ComponentEnd(mem: array<byte>, path: nat, ghost s: seq<byte>) returns (k: nat)
    requires StringAt(mem, path, s)
    ensures k == FirstSlash(s) && (mem[path + k] == 0 <==> k == |s|)
  {
    k := 0;
    while mem[path + k] != 0 && mem[path + k] != SLASH
      invariant k <= FirstSlash(s) && (k < |s| ==> mem[path + k] == s[k])
      decreases |s| - k
    {
      k := k + 1;
    }
  }

  const SIZE_MAX: nat := 0xffff_ffff_ffff_ffff

  /** Decoding at the place where the string stands gives the same as decoding to another place. */
  method DecodeInPlace(mem: array<byte>, at: nat, ghost s: seq<byte>)
    requires StringAt(mem, at, s) && mem.Length <= SIZE_MAX
    modifies mem
    ensures mem[at..at + |Decode(s)|] == Decode(s) && mem[at + |Decode(s)|] == 0
    ensures forall i | 0 <= i < mem.Length && !(at <= i <= at + |Decode(s)|) :: mem[i] == old(mem[i])
  {
    hide Decode;
    AllFits(s, SIZE_MAX);
    var ret := UrlDecode(mem, at, at, SIZE_MAX, s);
  }

  lemma AllFits(s: seq<byte>, max: nat)
    requires |s| < max
    ensures Fitting(s, max) == Decode(s)
  {
  }

  /** A string whose character at k is overwritten by a zero. */
  lemma CutString(mem: array<byte>, was: seq<byte>, path: nat, s: seq<byte>, k: nat)
    requires |was| == mem.Length && k < |s| && path + |s| < mem.Length && NoNul(s)
    requires was[path..path + |s|] == s && was[path + |s|] == 0
    requires mem[path + k] == 0 && forall i | 0 <= i < mem.Length && i != path + k :: mem[i] == was[i]
    ensures StringAt(mem, path, s[..k]) && StringAt(mem, path + k + 1, s[k + 1..])
  {
  }

  /**
     Cuts the first component off the string at `path` and decodes it where it stands.
     Returns the number of characters passed, 0 at the end, and the place of the next one.
     */
  method NextComponent(mem: array<byte>, path: nat, ghost s: seq<byte>) returns (parsed: nat, next: nat)
    requires StringAt(mem, path, s) && mem.Length <= SIZE_MAX
    modifies mem
    ensures next == path + parsed
    ensures s == [] ==> parsed == 0 && mem[..] == old(mem[..])
    ensures s != [] ==>
              var k := FirstSlash(s);
              var v := Decode(s[..k]);
              && parsed == (if k < |s| then k + 1 else k) && parsed > 0
              && mem[path..path + |v|] == v && mem[path + |v|] == 0
              && StringAt(mem, next, s[parsed..])
    ensures forall i | 0 <= i < mem.Length && !(path <= i <= path + |s|) :: mem[i] == old(mem[i])
  {
    hide Decode, FirstSlash, StringAt, NoNul, UpToNul;
    parsed, next := 0, path;
    StringMeans(mem, path, s);
    if mem[path] == 0 {
      return;
    }
    var k := ComponentEnd(mem, path, s);
    parsed := CutAt(mem, path, k, s);
    next := path + parsed;
    DecodeCut(mem, path, next, s[..k], s[parsed..]);
  }

  /** Decodes a string behind which another one stands, which may be the empty one at its end. */
  method DecodeCut(mem: array<byte>, path: nat, next: nat, ghost first: seq<byte>, ghost rest: seq<byte>)
    requires StringAt(mem, path, first) && StringAt(mem, next, rest) && mem.Length <= SIZE_MAX
    requires path + |first| < next || (path + |first| == next && rest == [])
    modifies mem
    ensures mem[path..path + |Decode(first)|] == Decode(first) && mem[path + |Decode(first)|] == 0
    ensures StringAt(mem, next, rest)
    ensures forall i | 0 <= i < mem.Length && !(path <= i <= path + |first|) :: mem[i] == old(mem[i])
  {
    hide Decode, StringAt, NoNul;
    ghost var was := mem[..];
    StringMeans(mem, next, rest);
    StringMeans(mem, path, first);
    DecodeInPlace(mem, path, first);
    if path + |first| < next {
      StringKept(mem, was, next, rest);
    } else {
      EmptyString(mem, next);
    }
  }

  lemma StringMeans(mem: array<byte>, at: nat, s: seq<byte>)
    requires StringAt(mem, at, s)
    ensures at + |s| < mem.Length && mem[at..at + |s|] == s && mem[at + |s|] == 0 && NoNul(s)
    ensures mem[at] == 0 <==> s == []
  {
  }

  lemma EmptyString(mem: array<byte>, at: nat)
    requires at < mem.Length && mem[at] == 0
    ensures StringAt(mem, at, [])
  {
  }

  /** Puts a zero in the place of the slash at k, if there is one. */
  method CutAt(mem: array<byte>, path: nat, k: nat, ghost s: seq<byte>) returns (parsed: nat)
    requires StringAt(mem, path, s) && k == FirstSlash(s)
    modifies mem
    ensures parsed == if k < |s| then k + 1 else k
    ensures StringAt(mem, path, s[..k]) && StringAt(mem, path + parsed, s[parsed..])
    ensures forall i | 0 <= i < mem.Length && i != path + k :: mem[i] == old(mem[i])
  {
    parsed := k;
    ghost var was := mem[..];
    assert k < |s| ==> mem[path + k] == s[k];
    if mem[path + k] != 0 {
      mem[path + k] := 0;
      CutString(mem, was, path, s, k);
      parsed := k + 1;
    }
  }

  /** A pointer to a string, as an option value. */
  method ReadString(mem: array<byte>, at: nat, ghost s: seq<byte>) returns (v: seq<byte>)
    requires at + |s| < mem.Length && mem[at..at + |s|] == s && mem[at + |s|] == 0
    ensures v == UpToNul(s)
  {
    ghost var end := |UpToNul(s)|;
    var n := 0;
    while mem[at + n] != 0
      invariant n <= end && (n < |s| ==> mem[at + n] == s[n])
      decreases |s| - n
    {
      n := n + 1;
    }
    v := mem[at..at + n];
    assert v == s[..n];
  }

  /** The next component as the value of an option. */
  method NextValue(mem: array<byte>, path: nat, ghost s: seq<byte>) returns (parsed: nat, next: nat, value: seq<byte>)
    requires StringAt(mem, path, s) && mem.Length <= SIZE_MAX
    modifies mem
    ensures next == path + parsed && (parsed == 0 <==> s == [])
    ensures s == [] ==> StringAt(mem, path, s)
    ensures s != [] ==>
              var k := FirstSlash(s);
              parsed == (if k < |s| then k + 1 else k) && value == Value(s[..k]) && StringAt(mem, next, s[parsed..])
  {
    hide Decode, FirstSlash, UpToNul;
    value := [];
    ghost var v := if s == [] then [] else Decode(s[..FirstSlash(s)]);
    parsed, next := NextComponent(mem, path, s);
    if parsed != 0 {
      value := ReadString(mem, path, v);
    } else {
      StringKept(mem, old(mem[..]), path, s);
    }
  }

  /** Looks at the last character of the path. */
  method HasTrailingSlash(mem: array<byte>, path: nat, ghost s: seq<byte>) returns (r: bool)
    requires StringAt(mem, path, s)
    ensures r == TrailingSlash(s)
  {
    r := false;
    if mem[path] != 0 {
      var n := StrLen(mem, path, s);
      r := mem[path + n - 1] == SLASH;
      assert mem[path + n - 1] == s[n - 1];
    }
  }

  const URI_PATH: nat := 11

  /** Uri-Path options with these values. */
  function PathOpts(values: seq<seq<byte>>): (opts: seq<Options.Opt>)
    ensures |opts| == |values| && forall i | 0 <= i < |opts| :: opts[i].key == 11 && opts[i].value == values[i]
  {
    seq(|values|, i requires 0 <= i < |values| => Options.Opt(URI_PATH, values[i]))
  }

  /** Adds one Uri-Path option to the packet that is being built. */
  method AddValue(b: Builder, value: seq<byte>) returns (status: Status)
    requires b.Valid()
    modifies b, b.packet
    ensures b.Valid() && b.header == old(b.header) && b.token == old(b.token)
    ensures status.Ok? <==> old(b.SpaceRemaining()) >= |value| + 8
    ensures b.added == old(b.added) + if status.Ok? then PathOpts([value]) else []
    ensures !status.Ok? ==> b.SpaceRemaining() == old(b.SpaceRemaining())
  {
    hide b.Valid;
    var bytes := new byte[|value|](i requires 0 <= i < |value| => value[i]);
    assert bytes[..] == value;
    status := b.AddOption(URI_PATH, bytes);
  }

  /** Steps over the slashes at the front. */
  method SkipFront(mem: array<byte>, at: nat, ghost s: seq<byte>) returns (path: nat)
    requires StringAt(mem, at, s)
    ensures StringAt(mem, path, SkipSlashes(s))
  {
    hide StringAt;
    path := at;
    ghost var t := s;
    StringAfter(mem, path, t, 0);
    StringMeans(mem, path, t);
    while mem[path] == SLASH
      invariant StringAt(mem, path, t) && SkipSlashes(t) == SkipSlashes(s)
      invariant path + |t| < mem.Length && mem[path] == if t == [] then 0 else t[0]
      decreases |t|
    {
      StringMeans(mem, path, t);
      StringAfter(mem, path, t, 1);
      path, t := path + 1, t[1..];
      StringMeans(mem, path, t);
      StringAfter(mem, path, t, 0);
    }
  }

  /** The options that have been added are the first n of the path; if not all of them, there is no room for the next one. */
  ghost predicate AddedUpTo(b: Builder, before: seq<Options.Opt>, values: seq<seq<byte>>, n: nat, status: Status)
    reads b
  {
    && n <= |values| && b.added == before + PathOpts(values[..n])
    && (status.Ok? ==> n == |values|)
    && (!status.Ok? ==> n < |values| && b.SpaceRemaining() < |values[n]| + 8)
  }

  /**
     Turns a path into Uri-Path options of the packet that is being built, destroying the path.
     Stops with an error at the first option for which there is no room.
     */
  method SetPath(mem: array<byte>, at: nat, b: Builder, ghost s: seq<byte>) returns (status: Status, ghost n: nat)
    requires StringAt(mem, at, s) && mem.Length <= SIZE_MAX
    requires b.Valid() && mem != b.packet
    modifies mem, b, b.packet
    ensures b.Valid() && b.header == old(b.header) && b.token == old(b.token)
    ensures AddedUpTo(b, old(b.added), PathOptions(s), n, status)
  {
    hide StringAt, FirstSlash, Value, Values, Components, TrailingSlash, UpToNul, Decode, PathOpts, b.Valid, SkipSlashes;
    var trailing := HasTrailingSlash(mem, at, s);
    var path := SkipFront(mem, at, s);
    ghost var t, done, before := SkipSlashes(s), [], b.added;
    ghost var values := PathOptions(s);
    NoValues();
    NoPathOpts();
    while true
      invariant StringAt(mem, path, t) && b.Valid() && b.header == old(b.header) && b.token == old(b.token)
      invariant done + Values(Components(t)) == Values(Components(SkipSlashes(s)))
      invariant b.added == before + PathOpts(done)
      decreases |t|
    {
      ghost var u, was := t, done;
      var parsed, value;
      parsed, path, value := NextValue(mem, path, t);
      if parsed == 0 {
        break;
      }
      ComponentsFirst(u);
      t := t[parsed..];
      assert Values(Components(u)) == [value] + Values(Components(t));
      n := |done|;
      FirstOfRest(done, value, Values(Components(t)), if trailing then [[]] else []);
      status := AddValue(b, value);
      if !status.Ok? {
        NothingMore(before, done);
        return;
      }
      done := done + [value];
      OneMoreOpt(before, was, value);
      assert done + Values(Components(t)) == was + ([value] + Values(Components(t)));
    }
    assert done == Values(Components(SkipSlashes(s)));
    n, status := |done|, Ok;
    if trailing {
      FirstOfRest(done, [], [], []);
      status := AddValue(b, []);
      if !status.Ok? {
        NothingMore(before, done);
        return;
      }
      OneMoreOpt(before, done, []);
      n := n + 1;
    }
    assert values[..|values|] == values;
  }

  lemma NoPathOpts()
    ensures PathOpts([]) == []
  {
  }

  lemma NothingMore(before: seq<Options.Opt>, done: seq<seq<byte>>)
    ensures before + PathOpts(done) + [] == before + PathOpts(done)
  {
  }

  lemma OneMoreOpt(before: seq<Options.Opt>, done: seq<seq<byte>>, value: seq<byte>)
    ensures before + PathOpts(done) + PathOpts([value]) == before + PathOpts(done + [value])
  {
  }

  lemma FirstOfRest(done: seq<seq<byte>>, value: seq<byte>, rest: seq<seq<byte>>, last: seq<seq<byte>>)
    ensures var all := (done + ([value] + rest)) + last;
            |done| < |all| && all[|done|] == value && all[..|done|] == done
  {
  }

  lemma NoValues()
    ensures Values(Components([])) == []
  {
  }

  lemma ComponentsFirst(t: seq<byte>)
    requires t != []
    ensures var k := FirstSlash(t);
            Values(Components(t)) == [Value(t[..k])] + Values(Components(t[if k < |t| then k + 1 else k..]))
  {
    hide FirstSlash, Value, Values;
    var k := FirstSlash(t);
    var n := if k < |t| then k + 1 else k;
    ValuesFirst(t[..k], Components(t[n..]));
  }

  lemma ValuesFirst(c: seq<byte>, rest: seq<seq<byte>>)
    ensures Values([c] + rest) == [Value(c)] + Values(rest)
  {
    hide Value;
  }

  // ----- options into a path

  /** Encodes as many characters as there is room for. */
  function EncodeFit(s: seq<byte>, room: nat): (r: seq<byte>)
    ensures |r| <= room
  {
    if s == [] || |EncodeChar(s[0])| > room then []
    else EncodeChar(s[0]) + EncodeFit(s[1..], room - |EncodeChar(s[0])|)
  }

  lemma {:induction false} FitsWhole(s: seq<byte>, room: nat)
    ensures EncodeFit(s, room) == Encode(s) <==> |Encode(s)| <= room
  {
    hide EncodeChar;
    if s != [] {
      var e := EncodeChar(s[0]);
      if |e| <= room {
        FitsWhole(s[1..], room - |e|);
        SameTail(e, EncodeFit(s[1..], room - |e|), Encode(s[1..]));
      } else {
        NotEmpty(s[0]);
      }
    }
  }

  /** What is written is as long as it can be without a part of an escape. */
  lemma {:induction false} FitsMost(s: seq<byte>, room: nat) returns (n: nat)
    ensures n <= |s| && EncodeFit(s, room) == Encode(s[..n]) && (n < |s| ==> |Encode(s[..n + 1])| > room)
  {
    hide EncodeChar;
    n := 0;
    if s != [] {
      var e := EncodeChar(s[0]);
      if |e| <= room {
        var k := FitsMost(s[1..], room - |e|);
        n := k + 1;
        assert s[..n][1..] == s[1..][..k];
        assert n < |s| ==> s[..n + 1][1..] == s[1..][..k + 1];
      } else {
        assert s[..1][1..] == [];
      }
    }
  }

  lemma NotEmpty(c: byte)
    ensures EncodeChar(c) != []
  {
  }

  lemma SameTail(e: seq<byte>, s: seq<byte>, t: seq<byte>)
    ensures e + s == e + t <==> s == t
  {
    assert (e + s)[|e|..] == s && (e + t)[|e|..] == t;
  }

  /** The state of the encoding loop: `done` stands at `dest`, `t` is still to be encoded, and `room` is left. */
  ghost predicate Encoding(mem: array<byte>, dest: nat, s: seq<byte>, max: nat, done: seq<byte>, t: seq<byte>)
    reads mem
  {
    && |done| < max
    && Encode(s) == done + Encode(t)
    && EncodeFit(s, max - 1) == done + EncodeFit(t, max - 1 - |done|)
    && dest + |done| <= mem.Length && mem[dest..dest + |done|] == done
  }

  /** Writes the character itself or its escape, or nothing when there is no room for it. */
  method PutChar(mem: array<byte>, to: nat, room: nat, c: byte) returns (n: nat)
    requires |EncodeChar(c)| <= room ==> to + |EncodeChar(c)| <= mem.Length
    modifies mem
    ensures n == if |EncodeChar(c)| <= room then |EncodeChar(c)| else 0
    ensures n > 0 ==> mem[to..to + n] == EncodeChar(c)
    ensures forall i | 0 <= i < mem.Length && !(to <= i < to + n) :: mem[i] == old(mem[i])
  {
    n := 0;
    if room == 0 {
      return;
    }
    if UrlChar(c) {
      mem[to] := c;
      n := 1;
    } else {
      if room < 3 {
        return;
      }
      mem[to] := PERCENT;
      mem[to + 1] := HexDigit(c / 16);
      mem[to + 2] := HexDigit(c % 16);
      n := 3;
    }
  }

  lemma EncodingGrows(
    mem: array<byte>, was: seq<byte>, dest: nat, s: seq<byte>, max: nat, done: seq<byte>, t: seq<byte>, n: nat
  )
    requires |was| == mem.Length && t != [] && n == |EncodeChar(t[0])| && |done| + n < max && dest + |done| + n <= mem.Length
    requires Encode(s) == done + Encode(t) && EncodeFit(s, max - 1) == done + EncodeFit(t, max - 1 - |done|)
    requires was[dest..dest + |done|] == done
    requires mem[dest + |done|..dest + |done| + n] == EncodeChar(t[0])
    requires forall i | dest <= i < dest + |done| :: mem[i] == was[i]
    ensures Encoding(mem, dest, s, max, done + EncodeChar(t[0]), t[1..])
  {
    hide Encode, EncodeFit, EncodeChar;
    var to := dest + |done|;
    EncodeFirst(t, max - 1 - |done|);
    Copied(mem, was, dest, to);
    assert mem[dest..to + n] == mem[dest..to] + mem[to..to + n];
  }

  /** Writes one encoded character if there is room for it. */
  method EncodeOne(
    mem: array<byte>, dest: nat, to: nat, room: nat, c: byte,
    ghost s: seq<byte>, ghost max: nat, ghost done: seq<byte>, ghost t: seq<byte>, ghost before: seq<byte>
  ) returns (n: nat, ghost done': seq<byte>, ghost t': seq<byte>)
    requires Encoding(mem, dest, s, max, done, t) && Untouched(mem, before, dest, to)
    requires t != [] && c == t[0] && to == dest + |done| && room == max - 1 - |done|
    requires dest + |EncodeFit(s, max - 1)| < mem.Length
    modifies mem
    ensures n == 0 <==> |EncodeChar(c)| > room
    ensures n == 0 ==> done' == done && t' == t
    ensures n > 0 ==> n <= room && t' == t[1..] && |done'| == |done| + n
    ensures Encoding(mem, dest, s, max, done', t') && Untouched(mem, before, dest, to + n)
  {
    hide Encode, EncodeFit, EncodeChar;
    done', t' := done, t;
    NotEmpty(c);
    EncodeFirst(t, room);
    ghost var was := mem[..];
    n := PutChar(mem, to, room, c);
    if n > 0 {
      EncodingGrows(mem, was, dest, s, max, done, t, n);
      done', t' := done + EncodeChar(c), t[1..];
    } else {
      assert mem[..] == was;
      Copied(mem, was, dest, to);
    }
  }

  lemma EncodeFirst(t: seq<byte>, room: nat)
    requires t != []
    ensures Encode(t) == EncodeChar(t[0]) + Encode(t[1..])
    ensures |EncodeChar(t[0])| <= room ==>
              EncodeFit(t, room) == EncodeChar(t[0]) + EncodeFit(t[1..], room - |EncodeChar(t[0])|)
  {
  }

  lemma StartEncoding(mem: array<byte>, dest: nat, s: seq<byte>, max: nat)
    requires max > 0 && dest <= mem.Length
    ensures Encoding(mem, dest, s, max, [], s) && Untouched(mem, mem[..], dest, dest)
  {
    assert mem[dest..dest] == [];
  }

  /** What has been written when the loop ends. */
  lemma EncodingMeans(mem: array<byte>, dest: nat, s: seq<byte>, max: nat, done: seq<byte>, t: seq<byte>)
    requires Encoding(mem, dest, s, max, done, t)
    ensures dest + |done| <= mem.Length && mem[dest..dest + |done|] == done && |done| < max
    ensures t == [] ==> EncodeFit(s, max - 1) == done == Encode(s)
    ensures t != [] && |EncodeChar(t[0])| > max - 1 - |done| ==> EncodeFit(s, max - 1) == done != Encode(s)
  {
    if t != [] {
      NotEmpty(t[0]);
    }
  }

  /**
     Encodes a string, up to its first zero, to `dest`.  Returns the length, or one more than
     what was written when not everything fits.
     */
  method UrlEncode(mem: array<byte>, dest: nat, src: seq<byte>, max: nat) returns (ret: nat)
    requires max > 0 ==> dest + |EncodeFit(UpToNul(src), max - 1)| < mem.Length
    modifies mem
    ensures max == 0 ==> ret == 0 && mem[..] == old(mem[..])
    ensures max > 0 ==>
              var r := EncodeFit(UpToNul(src), max - 1);
              && ret == |r| + (if r == Encode(UpToNul(src)) then 0 else 1)
              && mem[dest..dest + |r|] == r && mem[dest + |r|] == 0
              && forall i | 0 <= i < mem.Length && !(dest <= i <= dest + |r|) :: mem[i] == old(mem[i])
  {
    ret := 0;
    if max > 0 {
      var to;
      to, ret := EncodeLoop(mem, dest, src, max);
      mem[to] := 0;
    }
  }

  method EncodeLoop(mem: array<byte>, dest: nat, src: seq<byte>, max: nat) returns (to: nat, ret: nat)
    requires max > 0 && dest + |EncodeFit(UpToNul(src), max - 1)| < mem.Length
    modifies mem
    ensures var r := EncodeFit(UpToNul(src), max - 1);
            && ret == |r| + (if r == Encode(UpToNul(src)) then 0 else 1)
            && to == dest + |r| && mem[dest..to] == r
    ensures Untouched(mem, old(mem[..]), dest, to)
  {
    hide Encode, EncodeFit, EncodeChar, Encoding, Untouched, UpToNul;
    ghost var s := UpToNul(src);
    StartEncoding(mem, dest, s, max);
    ghost var before, done, t := mem[..], [], s;
    var from: nat := 0;
    to, ret := dest, 0;
    var room: nat := max - 1;
    while from < |src| && src[from] != 0
      invariant from + |t| == |s| && t == s[from..]
      invariant to == dest + |done| && ret == |done| && room == max - 1 - |done|
      invariant Encoding(mem, dest, s, max, done, t) && Untouched(mem, before, dest, to)
    {
      var n;
      n, done, t := EncodeOne(mem, dest, to, room, src[from], s, max, done, t, before);
      EncodingMeans(mem, dest, s, max, done, t);
      if n == 0 {
        ret := ret + 1;
        return;
      }
      from, to, ret, room := from + 1, to + n, ret + n, room - n;
    }
    EncodingMeans(mem, dest, s, max, done, t);
  }

  // ----- joining options in a buffer

  const MAX_URI_LENGTH := 1024

  /** The room that the encoder is told when n bytes of the buffer are used: a difference of sizes of 64 bits. */
  function RoomAt(n: nat): (max: nat)
    ensures n <= 1024 ==> max == 1024 - n
    ensures 1024 < n <= 0x1_0000_0000_0000_0000 ==> max == 0x1_0000_0000_0000_0000 + 1024 - n
  {
    (MAX_URI_LENGTH - n) % (SIZE_MAX + 1)
  }

  /** The path and a slash behind it, unless it is empty. */
  function Head(path: seq<byte>): seq<byte> {
    path + if path == [] then [] else [SLASH]
  }

  /** An option behind a path: what fits of it, and a zero if that is not everything; without any room nothing. */
  function Appended(path: seq<byte>, option: seq<byte>): seq<byte> {
    var head, max := Head(path), RoomAt(|Head(path)|);
    if max == 0 then head
    else
      var r := EncodeFit(UpToNul(option), max - 1);
      head + r + if r == Encode(UpToNul(option)) then [] else [0]
  }

  /** What the loop writes, from the start of the buffer on. */
  function Written(path: seq<byte>, options: seq<seq<byte>>): (w: seq<byte>)
    ensures |w| >= |path|
    decreases |options|
  {
    if options == [] then path else Written(Appended(path, options[0]), options[1..])
  }

  /** Encodes an option behind what stands in the buffer already. */
  method EncodeBehind(where: array<byte>, m: nat, option: seq<byte>, ghost head: seq<byte>) returns (end: nat)
    requires m == |head| <= where.Length && where[..m] == head
    requires RoomAt(m) > 0 ==>
               m + |EncodeFit(UpToNul(option), RoomAt(m) - 1)| < where.Length
    modifies where
    ensures RoomAt(m) == 0 ==> end == m && where[..] == old(where[..])
    ensures RoomAt(m) > 0 ==>
              var r := EncodeFit(UpToNul(option), RoomAt(m) - 1);
              var w := head + r + if r == Encode(UpToNul(option)) then [] else [0];
              end == |w| <= where.Length && where[..end] == w
    ensures forall i | end < i < where.Length :: where[i] == old(where[i])
  {
    hide Encode, UpToNul, EncodeFit, RoomAt;
    ghost var was := where[..];
    var length := UrlEncode(where, m, option, RoomAt(m));
    end := m + length;
    if RoomAt(m) > 0 {
      Copied(where, was, 0, m);
      assert where[..end] == where[..m] + where[m..end];
    }
  }

  /** Puts one more option behind the path. */
  method AppendOption(where: array<byte>, n: nat, option: seq<byte>, ghost path: seq<byte>) returns (m: nat)
    requires n == |path| && |Appended(path, option)| < where.Length && where[..n] == path
    modifies where
    ensures m == |Appended(path, option)| && where[..m] == Appended(path, option)
    ensures forall i | m < i < where.Length :: where[i] == old(where[i])
  {
    hide Encode, UpToNul, EncodeFit, RoomAt;
    m := n;
    if m != 0 {
      where[m] := SLASH;
      m := m + 1;
    }
    assert where[..m] == Head(path);
    m := EncodeBehind(where, m, option, Head(path));
  }

  /**
     Joins the options to a path.  `where` is the memory from the start of the buffer on; the
     buffer is its first 1025 bytes.  Nothing behind the last zero is written.
     */
  method JoinPath(where: array<byte>, options: seq<seq<byte>>) returns (n: nat)
    requires |Written([], options)| < where.Length
    modifies where
    ensures n == |Written([], options)| && where[..n] == Written([], options) && where[n] == 0
    ensures forall i | n < i < where.Length :: where[i] == old(where[i])
  {
    hide Appended;
    n := 0;
    ghost var path := [];
    for i := 0 to |options|
      invariant n == |path| < where.Length && where[..n] == path
      invariant Written(path, options[i..]) == Written([], options)
      invariant forall j | n < j < where.Length :: where[j] == old(where[j])
    {
      ghost var was := path;
      assert options[i..][1..] == options[i + 1..];
      path := Appended(path, options[i]);
      AppendedGrows(was, options[i]);
      n := AppendOption(where, n, options[i], was);
    }
    where[n] := 0;
  }

  lemma AppendedGrows(path: seq<byte>, option: seq<byte>)
    ensures |path| <= |Appended(path, option)|
  {
  }

  /** An option that starts before the end of the buffer ends in it. */
  lemma EndsInBuffer(path: seq<byte>, option: seq<byte>)
    ensures |path| < MAX_URI_LENGTH ==> |Appended(path, option)| <= MAX_URI_LENGTH
    ensures |path| == MAX_URI_LENGTH ==> |Appended(path, option)| > MAX_URI_LENGTH
  {
  }

  lemma WrittenFirst(path: seq<byte>, options: seq<seq<byte>>, i: nat)
    requires 0 < i <= |options|
    ensures Written(path, options[..i]) == Written(Appended(path, options[0]), options[1..][..i - 1])
  {
    assert options[..i][1..] == options[1..][..i - 1];
  }

  /** All that is written lies in the 1025 bytes of the buffer exactly if no option starts at offset 1024. */
  lemma {:induction false} StaysInBuffer(path: seq<byte>, options: seq<seq<byte>>)
    requires |path| <= MAX_URI_LENGTH
    ensures |Written(path, options)| <= MAX_URI_LENGTH <==>
              forall i | 0 <= i < |options| :: |Written(path, options[..i])| != MAX_URI_LENGTH
    decreases |options|
  {
    hide Appended;
    if options != [] {
      var next, rest := Appended(path, options[0]), options[1..];
      EndsInBuffer(path, options[0]);
      assert Written(path, options[..0]) == path;
      if |path| < MAX_URI_LENGTH {
        StaysInBuffer(next, rest);
        forall i | 0 < i < |options|
          ensures Written(path, options[..i]) == Written(next, rest[..i - 1])
        {
          WrittenFirst(path, options, i);
        }
        if i :| 0 <= i < |rest| && |Written(next, rest[..i])| == MAX_URI_LENGTH {
          assert Written(path, options[..i + 1]) == Written(next, rest[..i]);
        }
      }
    }
  }

  // ----- when what is written is the joined path

  lemma {:induction false} JoinPrefix(path: seq<byte>, options: seq<seq<byte>>)
    ensures path <= JoinOnto(path, options)
    decreases |options|
  {
    hide Encode, UpToNul;
    if options != [] {
      JoinPrefix(Head(path) + Encode(UpToNul(options[0])), options[1..]);
    }
  }

  lemma {:induction false} WrittenPrefix(path: seq<byte>, options: seq<seq<byte>>)
    ensures path <= Written(path, options)
    decreases |options|
  {
    hide Encode, UpToNul, EncodeFit;
    if options != [] {
      WrittenPrefix(Appended(path, options[0]), options[1..]);
    }
  }

  lemma {:induction false} FitIsPrefix(s: seq<byte>, room: nat)
    ensures EncodeFit(s, room) <= Encode(s)
  {
    hide EncodeChar;
    if s != [] && |EncodeChar(s[0])| <= room {
      FitIsPrefix(s[1..], room - |EncodeChar(s[0])|);
    }
  }

  lemma {:induction false} EncodeHasNoNul(s: seq<byte>)
    ensures NoNul(Encode(s))
  {
    if s != [] {
      EncodeHasNoNul(s[1..]);
      CharHasNoNul(s[0]);
      hide EncodeChar;
      assert NoNul(EncodeChar(s[0]) + Encode(s[1..]));
    }
  }

  lemma CharHasNoNul(c: byte)
    ensures NoNul(EncodeChar(c))
  {
  }

  lemma AppendedIsShort(path: seq<byte>, option: seq<byte>)
    ensures |Appended(path, option)| <= |Head(path)| + |Encode(UpToNul(option))|
  {
    hide Encode, EncodeFit, UpToNul, RoomAt, Head;
    var max := RoomAt(|Head(path)|);
    if max > 0 {
      var s := UpToNul(option);
      FitIsPrefix(s, max - 1);
      assert |EncodeFit(s, max - 1)| == |Encode(s)| ==> EncodeFit(s, max - 1) == Encode(s);
    }
  }

  /** What is written behind a shorter path stays shorter than what is joined behind a longer one. */
  lemma {:induction false} WrittenIsShort(p: seq<byte>, q: seq<byte>, options: seq<seq<byte>>)
    requires |p| <= |q|
    ensures |Written(p, options)| <= |JoinOnto(q, options)|
    ensures |p| < |q| ==> |Written(p, options)| < |JoinOnto(q, options)|
    decreases |options|
  {
    hide Encode, UpToNul, EncodeFit, Appended;
    if options != [] {
      AppendedIsShort(p, options[0]);
      WrittenIsShort(Appended(p, options[0]), Head(q) + Encode(UpToNul(options[0])), options[1..]);
    }
  }

  /** One option: written whole, cut off with a zero, or left out for want of room. */
  lemma OneOption(path: seq<byte>, option: seq<byte>)
    requires |Head(path)| + |Encode(UpToNul(option))| <= SIZE_MAX / 2
    ensures var e, head, next := Encode(UpToNul(option)), Head(path), Appended(path, option);
            if |head + e| < MAX_URI_LENGTH || |head| > MAX_URI_LENGTH then next == head + e
            else if |head| == MAX_URI_LENGTH then next == head
            else exists k :: |head| <= k < |next| && next[k] == 0 && k < |head + e| && (head + e)[k] != 0
  {
    hide Encode, UpToNul, EncodeFit;
    var s := UpToNul(option);
    var e, head, next := Encode(s), Head(path), Appended(path, option);
    var max := RoomAt(|head|);
    if max > 0 {
      FitsWhole(s, max - 1);
      if |head| < MAX_URI_LENGTH && |head + e| >= MAX_URI_LENGTH {
        FitIsPrefix(s, max - 1);
        EncodeHasNoNul(s);
        var k := |head| + |EncodeFit(s, max - 1)|;
        assert next[k] == 0 && (head + e)[k] != 0;
      }
    } else {
      assert |head| == MAX_URI_LENGTH;
    }
  }

  /** Whether the path, with `path` joined already, is written as it is joined. */
  ghost predicate WrittenWhole(path: seq<byte>, options: seq<seq<byte>>) {
    || |JoinOnto(path, options)| < MAX_URI_LENGTH
    || |path| >= MAX_URI_LENGTH
    || exists i :: 0 <= i < |options| && LastByteLeft(path, options, i)
  }

  /** Option i is empty, and before it the path has 1023 characters, so that only a slash is added. */
  ghost predicate LastByteLeft(path: seq<byte>, options: seq<seq<byte>>, i: nat)
    requires i < |options|
  {
    |JoinOnto(path, options[..i])| == MAX_URI_LENGTH - 1 && Encode(UpToNul(options[i])) == []
  }

  lemma JoinFirstOf(path: seq<byte>, options: seq<seq<byte>>, i: nat)
    requires 0 < i <= |options|
    ensures JoinOnto(path, options[..i]) == JoinOnto(Head(path) + Encode(UpToNul(options[0])), options[1..][..i - 1])
  {
    hide Encode, UpToNul;
    assert options[..i][1..] == options[1..][..i - 1];
  }

  lemma LastByteLater(path: seq<byte>, options: seq<seq<byte>>)
    requires options != []
    ensures var next, rest := Head(path) + Encode(UpToNul(options[0])), options[1..];
            (exists i :: 0 <= i < |options| && LastByteLeft(path, options, i)) <==>
              LastByteLeft(path, options, 0) || exists i :: 0 <= i < |rest| && LastByteLeft(next, rest, i)
  {
    hide Encode, UpToNul, JoinOnto;
    var next, rest := Head(path) + Encode(UpToNul(options[0])), options[1..];
    forall i | 0 < i < |options|
      ensures LastByteLeft(path, options, i) <==> LastByteLeft(next, rest, i - 1)
    {
      JoinFirstOf(path, options, i);
    }
    if i :| 0 <= i < |rest| && LastByteLeft(next, rest, i) {
      assert LastByteLeft(path, options, i + 1);
    }
  }

  /** With a longer path there is no such option. */
  lemma NoneLater(path: seq<byte>, options: seq<seq<byte>>)
    requires |path| >= MAX_URI_LENGTH
    ensures forall i | 0 <= i < |options| :: !LastByteLeft(path, options, i)
  {
    forall i | 0 <= i < |options|
      ensures !LastByteLeft(path, options, i)
    {
      JoinPrefix(path, options[..i]);
    }
  }

  /**
     The buffer gets the joined path exactly if that has fewer than 1024 characters or an empty
     option comes when 1023 have been written.
     */
  lemma {:induction false} WrittenIsJoined(path: seq<byte>, options: seq<seq<byte>>)
    requires |JoinOnto(path, options)| <= SIZE_MAX / 2
    ensures Written(path, options) == JoinOnto(path, options) <==> WrittenWhole(path, options)
    decreases |options|
  {
    hide Encode, UpToNul, EncodeFit, Appended, LastByteLeft;
    if options != [] {
      var e, rest := Encode(UpToNul(options[0])), options[1..];
      var head := Head(path);
      var next := Appended(path, options[0]);
      JoinPrefix(head + e, rest);
      OneOption(path, options[0]);
      LastByteLater(path, options);
      LastByteNow(path, options);
      if next == head + e {
        WrittenIsJoined(next, rest);
      } else if |head| == MAX_URI_LENGTH {
        WrittenIsShort(next, head + e, rest);
        NoneLater(head + e, rest);
      } else {
        WrittenPrefix(next, rest);
        NoneLater(head + e, rest);
        assert |path| < MAX_URI_LENGTH;
        assert Written(path, options) == Written(next, rest) && JoinOnto(path, options) == JoinOnto(head + e, rest);
      }
    }
  }

  lemma LastByteNow(path: seq<byte>, options: seq<seq<byte>>)
    requires options != []
    ensures LastByteLeft(path, options, 0) <==> |path| == MAX_URI_LENGTH - 1 && Encode(UpToNul(options[0])) == []
  {
    assert options[..0] == [];
  }

  lemma {:induction false} SlashesFit(s: seq<byte>, room: nat)
    requires s != [] && (forall i | 0 <= i < |s| :: s[i] == SLASH) && room == 3 * (|s| - 1)
    ensures |EncodeFit(s, room)| == room && |Encode(s)| == room + 3
  {
    SlashCode();
    hide EncodeChar;
    if |s| > 1 {
      SlashesFit(s[1..], room - 3);
    } else {
      assert s[1..] == [];
    }
  }

  lemma SlashCode()
    ensures |EncodeChar(SLASH)| == 3
  {
  }

  /** Two options that make the loop write behind its buffer: 342 slashes, which are cut off at offset 1023, and any other. */
  lemma WrittenBehindBuffer(slashes: seq<byte>, option: seq<byte>)
    requires |slashes| == 342 && forall i | 0 <= i < 342 :: slashes[i] == SLASH
    ensures |Written([], [slashes])| == MAX_URI_LENGTH
    ensures |Written([], [slashes, option])| > MAX_URI_LENGTH
  {
    hide EncodeFit, Encode, UpToNul;
    NoNulIsWhole(slashes);
    SlashesFit(slashes, 1023);
    assert |Appended([], slashes)| == MAX_URI_LENGTH;
    assert [slashes][1..] == [] && [slashes, option][1..] == [option];
    assert [slashes, option][..1] == [slashes];
    StaysInBuffer([], [slashes, option]);
  }
}
