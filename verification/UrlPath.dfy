/**
 Paths: a path of a URI is split at its slashes and decoded into Uri-Path options, and the
 options are encoded and joined into a path again.
 */
module UrlPath {
  import Options

  type byte = Options.byte

  const SLASH: byte := 47
  const PERCENT: byte := 37
  const PLUS: byte := 43
  const SPACE: byte := 32
  const ZERO: byte := 48

  // ----- characters

  predicate UrlChar(c: byte) {
    || 48 <= c <= 57 || 65 <= c <= 90 || 97 <= c <= 122
    || c in {36, 45, 95, 46, 43, 33, 42, 39, 40, 41, 44}
  }

  function HexDigit(x: nat): (c: byte)
    requires x < 16
  {
    if x < 10 then 48 + x else 55 + x
  }

  /** Anything that is not a hexadecimal digit counts as 0. */
  function HexValue(c: byte): (x: nat)
    ensures x < 16
  {
    if 48 <= c <= 57 then c - 48
    else if 65 <= c <= 70 then c - 55
    else if 97 <= c <= 102 then c - 87
    else 0
  }

  // ----- strings

  predicate NoNul(s: seq<byte>) {
    forall i | 0 <= i < |s| :: s[i] != 0
  }

  /** A string of C ends at its first zero. */
  function UpToNul(s: seq<byte>): (r: seq<byte>)
    ensures NoNul(r) && r <= s && (r == s || s[|r|] == 0)
  {
    if s == [] || s[0] == 0 then [] else [s[0]] + UpToNul(s[1..])
  }

  function EncodeChar(c: byte): seq<byte> {
    if UrlChar(c) then [c] else [PERCENT, HexDigit(c / 16), HexDigit(c % 16)]
  }

  function Encode(s: seq<byte>): seq<byte> {
    if s == [] then [] else EncodeChar(s[0]) + Encode(s[1..])
  }

  /** A percent sign starts an escape unless fewer than two characters follow, or 00. */
  predicate Escape(s: seq<byte>) {
    |s| >= 3 && s[0] == PERCENT && !(s[1] == ZERO && s[2] == ZERO)
  }

  /** How many characters the first decoded one takes. */
  function Taken(s: seq<byte>): (n: nat)
    requires s != []
    ensures 1 <= n <= |s|
  {
    if Escape(s) then 3 else 1
  }

  function DecodeChar(s: seq<byte>): byte
    requires s != []
  {
    if Escape(s) then HexValue(s[1]) * 16 + HexValue(s[2])
    else if s[0] == PLUS then SPACE
    else s[0]
  }

  function Decode(s: seq<byte>): (r: seq<byte>)
    ensures |r| <= |s|
  {
    if s == [] then [] else [DecodeChar(s)] + Decode(s[Taken(s)..])
  }

  // ----- every character

  /** The character c is the digit x, as a capital or not. */
  predicate Spells(c: byte, x: nat)
    requires x < 16
  {
    c == "0123456789ABCDEF"[x] as int || c == "0123456789abcdef"[x] as int
  }

  lemma DigitValue(c: byte, x: nat)
    requires x < 16
    ensures Spells(c, x) <==> HexValue(c) == x && (x == 0 ==> c == 48)
    ensures Spells(HexDigit(x), x) && "0123456789ABCDEF"[x] as int == HexDigit(x)
  {
  }

  lemma NoDigitValue(c: byte)
    requires forall x | 0 <= x < 16 :: !Spells(c, x)
    ensures HexValue(c) == 0 && c != 48
  {
    DigitValue(c, HexValue(c));
    DigitValue(c, 0);
  }

  lemma DecodeFirst(s: seq<byte>)
    requires s != []
    ensures Decode(s) == [DecodeChar(s)] + Decode(s[Taken(s)..])
  {
  }

  /** An escape stands for its byte, whether its digits are capitals or not. */
  lemma EscapeDecodes(b: byte, hi: byte, lo: byte, rest: seq<byte>)
    requires b > 0 && Spells(hi, b / 16) && Spells(lo, b % 16)
    ensures Decode([37, hi, lo] + rest) == [b] + Decode(rest)
  {
    hide Decode, HexValue, Spells;
    var s := [37, hi, lo] + rest;
    DigitValue(hi, b / 16);
    DigitValue(lo, b % 16);
    DigitValue(48, 0);
    DecodeFirst(s);
    assert s[3..] == rest;
  }

  /** In an escape, what is no digit counts as 0. */
  lemma NoDigitDecodes(c: byte, d: byte, x: nat, rest: seq<byte>)
    requires forall y | 0 <= y < 16 :: !Spells(c, y)
    requires if x < 16 then Spells(d, x) else forall y | 0 <= y < 16 :: !Spells(d, y)
    ensures Decode([37, c, d] + rest) == [if x < 16 then x else 0] + Decode(rest)
    ensures Decode([37, d, c] + rest) == [if x < 16 then 16 * x else 0] + Decode(rest)
  {
    hide Decode, HexValue, Spells;
    NoDigitValue(c);
    if x < 16 { DigitValue(d, x); } else { NoDigitValue(d); }
    var s, t := [37, c, d] + rest, [37, d, c] + rest;
    DecodeFirst(s);
    DecodeFirst(t);
    assert s[3..] == rest && t[3..] == rest;
  }

  /** Anything else stands for itself, a plus sign for a space; so does a percent sign that starts no escape. */
  lemma PlainDecodes(c: byte, rest: seq<byte>)
    requires c == 37 ==> |rest| < 2 || rest[0] == rest[1] == 48
    ensures Decode([c] + rest) == [if c == 43 then 32 else c] + Decode(rest)
  {
    hide Decode, HexValue;
    var s := [c] + rest;
    DecodeFirst(s);
    assert s[1..] == rest;
  }

  /** Letters, digits and eleven others are written as they are, and the rest as escapes with capitals. */
  lemma CharEncodes(c: byte)
    ensures EncodeChar(c) ==
              if (exists i | 0 <= i < 11 :: c == "$-_.+!*'(),"[i] as int)
                 || '0' as int <= c <= '9' as int || 'A' as int <= c <= 'Z' as int || 'a' as int <= c <= 'z' as int then [c]
              else [37, "0123456789ABCDEF"[c / 16] as int, "0123456789ABCDEF"[c % 16] as int]
  {
    hide HexDigit, Spells;
    DigitValue(0, c / 16);
    DigitValue(0, c % 16);
    SafeChars(c);
  }

  lemma SafeChars(c: byte)
    ensures (exists i | 0 <= i < 11 :: c == "$-_.+!*'(),"[i] as int) <==> c in {36, 45, 95, 46, 43, 33, 42, 39, 40, 41, 44}
  {
    var t := "$-_.+!*'(),";
    assert t[0] as int == 36 && t[1] as int == 45 && t[2] as int == 95 && t[3] as int == 46 && t[4] as int == 43;
    assert t[5] as int == 33 && t[6] as int == 42 && t[7] as int == 39 && t[8] as int == 40 && t[9] as int == 41 && t[10] as int == 44;
  }

  /** A plus sign becomes a space. */
  function Spaced(c: byte): byte {
    if c == 43 then 32 else c
  }

  lemma EncodedChar(c: byte, rest: seq<byte>)
    requires c != 0
    ensures Decode(EncodeChar(c) + rest) == [Spaced(c)] + Decode(rest)
  {
    hide Decode, Spells, HexDigit;
    if UrlChar(c) {
      PlainDecodes(c, rest);
    } else {
      DigitValue(0, c / 16);
      DigitValue(0, c % 16);
      EscapeDecodes(c, HexDigit(c / 16), HexDigit(c % 16), rest);
    }
  }

  /** An encoded string decodes to itself, but a plus sign, which is not escaped, comes back as a space. */
  lemma {:induction false} DecodeOfEncode(s: seq<byte>)
    requires NoNul(s)
    ensures |Decode(Encode(s))| == |s| && forall i | 0 <= i < |s| :: Decode(Encode(s))[i] == Spaced(s[i])
    ensures Decode(Encode(s)) == s <==> 43 !in s
  {
    hide Decode, EncodeChar;
    if s == [] {
      NothingDecodes();
    } else {
      DecodeOfEncode(s[1..]);
      EncodedChar(s[0], Encode(s[1..]));
    }
  }

  lemma NothingDecodes()
    ensures Decode([]) == []
  {
  }

  // ----- when decoding and encoding give a segment back

  predicate UpperHex(c: byte) {
    48 <= c <= 57 || 65 <= c <= 70
  }

  /** Every character stands for itself if it may, and for nothing else; all others are escaped in upper case. */
  predicate Canonical(s: seq<byte>) {
    s == []
    || (UrlChar(s[0]) && s[0] != PLUS && Canonical(s[1..]))
    || (&& Escape(s) && UpperHex(s[1]) && UpperHex(s[2])
        && DecodeChar(s) != 0 && !UrlChar(DecodeChar(s)) && Canonical(s[3..]))
  }

  lemma HexRoundTrip(x: nat, c: byte)
    ensures x < 16 ==> HexValue(HexDigit(x)) == x && UpperHex(HexDigit(x))
    ensures UpperHex(c) ==> HexDigit(HexValue(c)) == c
  {
  }

  /** What a segment is turned into when it goes through an option. */
  function Through(s: seq<byte>): seq<byte> {
    Encode(UpToNul(Decode(s)))
  }

  lemma ThroughFirst(s: seq<byte>)
    requires s != []
    ensures Through(s) == if DecodeChar(s) == 0 then [] else EncodeChar(DecodeChar(s)) + Through(s[Taken(s)..])
  {
    hide DecodeChar, EncodeChar;
    var c, rest := DecodeChar(s), Decode(s[Taken(s)..]);
    assert ([c] + rest)[1..] == rest;
    if c != 0 {
      var r := UpToNul(rest);
      assert UpToNul([c] + rest) == [c] + r;
      assert ([c] + r)[1..] == r;
    }
  }

  /** One character: encoding what is decoded gives its characters back exactly when they are canonical. */
  lemma FirstBack(s: seq<byte>)
    requires s != [] && NoNul(s) && DecodeChar(s) != 0
    ensures EncodeChar(DecodeChar(s)) <= s <==>
              if UrlChar(s[0]) then s[0] != PLUS
              else Escape(s) && UpperHex(s[1]) && UpperHex(s[2]) && !UrlChar(DecodeChar(s))
    ensures EncodeChar(DecodeChar(s)) <= s ==> |EncodeChar(DecodeChar(s))| == Taken(s)
  {
    var c := DecodeChar(s);
    if Escape(s) {
      HexRoundTrip(HexValue(s[1]), s[1]);
      HexRoundTrip(HexValue(s[2]), s[2]);
    } else {
      HexRoundTrip(c / 16, 0);
      HexRoundTrip(c % 16, 0);
    }
  }

  lemma PlainFirst(s: seq<byte>)
    requires s != [] && NoNul(s)
    ensures UrlChar(s[0]) ==> !Escape(s) && Taken(s) == 1 && DecodeChar(s) != 0
  {
  }

  /** A segment comes back exactly when it is canonical. */
  lemma {:induction false} SegmentBack(s: seq<byte>)
    requires NoNul(s)
    ensures Through(s) == s <==> Canonical(s)
  {
    hide DecodeChar, EncodeChar, UpToNul, Decode, Encode;
    if s == [] {
      EmptyThrough();
    } else {
      ThroughFirst(s);
      PlainFirst(s);
      var n := Taken(s);
      if DecodeChar(s) != 0 {
        FirstBack(s);
        SegmentBack(s[n..]);
        var e, t := EncodeChar(DecodeChar(s)), Through(s[n..]);
        assert (e + t)[..|e|] == e && (e + t)[|e|..] == t;
        assert s == s[..n] + s[n..];
        assert e + t == s <==> e <= s && |e| == n && t == s[n..];
      }
    }
  }

  lemma EmptyThrough()
    ensures Through([]) == []
  {
  }

  // ----- splitting and joining

  function FirstSlash(p: seq<byte>): (k: nat)
    ensures k <= |p| && SLASH !in p[..k] && (k < |p| ==> p[k] == SLASH)
  {
    if p == [] || p[0] == SLASH then 0 else 1 + FirstSlash(p[1..])
  }

  /** The pieces between the slashes: one more than there are slashes. */
  function Split(p: seq<byte>): (segments: seq<seq<byte>>)
    ensures |segments| >= 1
    decreases |p|
  {
    var k := FirstSlash(p);
    if k == |p| then [p] else [p[..k]] + Split(p[k + 1..])
  }

  function Join(segments: seq<seq<byte>>): seq<byte>
    requires segments != []
  {
    if |segments| == 1 then segments[0] else segments[0] + [SLASH] + Join(segments[1..])
  }

  lemma {:induction false} JoinSplit(p: seq<byte>)
    ensures Join(Split(p)) == p
    decreases |p|
  {
    hide FirstSlash;
    var k := FirstSlash(p);
    if k < |p| {
      JoinSplit(p[k + 1..]);
      var rest := Split(p[k + 1..]);
      assert ([p[..k]] + rest)[1..] == rest;
      assert p == p[..k] + [SLASH] + p[k + 1..];
    }
  }

  lemma {:induction false} SlashAt(s: seq<byte>, rest: seq<byte>)
    requires SLASH !in s
    ensures FirstSlash(s + [SLASH] + rest) == |s| && FirstSlash(s) == |s|
  {
    if s != [] {
      SlashAt(s[1..], rest);
      assert (s + [SLASH] + rest)[1..] == s[1..] + [SLASH] + rest;
    }
  }

  lemma {:induction false} SplitJoin(segments: seq<seq<byte>>)
    requires segments != [] && forall i | 0 <= i < |segments| :: SLASH !in segments[i]
    ensures Split(Join(segments)) == segments
  {
    var s := segments[0];
    if |segments| == 1 {
      SlashAt(s, []);
    } else {
      var rest := Join(segments[1..]);
      SplitJoin(segments[1..]);
      SlashAt(s, rest);
      var p := s + [SLASH] + rest;
      assert p[..|s|] == s && p[|s| + 1..] == rest;
      assert segments == [s] + segments[1..];
    }
  }

  /** The components that the loop over the path finds: a slash at the end starts none. */
  function Components(p: seq<byte>): seq<seq<byte>>
    decreases |p|
  {
    if p == [] then []
    else
      var k := FirstSlash(p);
      [p[..k]] + if k == |p| then [] else Components(p[k + 1..])
  }

  predicate TrailingSlash(p: seq<byte>) {
    p != [] && p[|p| - 1] == SLASH
  }

  lemma {:induction false} ComponentsAreSegments(p: seq<byte>)
    requires p != []
    ensures Components(p) + (if TrailingSlash(p) then [[]] else []) == Split(p)
    decreases |p|
  {
    hide FirstSlash;
    var k := FirstSlash(p);
    if k < |p| {
      var rest := p[k + 1..];
      if rest == [] {
        assert FirstSlash([]) == 0;
      } else {
        ComponentsAreSegments(rest);
        assert TrailingSlash(rest) <==> TrailingSlash(p);
      }
    } else {
      assert p[..k] == p;
    }
  }

  function Value(component: seq<byte>): seq<byte> {
    UpToNul(Decode(component))
  }

  function Values(components: seq<seq<byte>>): seq<seq<byte>> {
    seq(|components|, i requires 0 <= i < |components| => Value(components[i]))
  }

  function SkipSlashes(p: seq<byte>): seq<byte> {
    if p != [] && p[0] == SLASH then SkipSlashes(p[1..]) else p
  }

  /** The values of the Uri-Path options that a path is turned into. */
  function PathOptions(p: seq<byte>): seq<seq<byte>> {
    Values(Components(SkipSlashes(p))) + if TrailingSlash(p) then [[]] else []
  }

  lemma NoComponents()
    ensures Components([]) == []
  {
  }

  /** A slash at the front changes nothing, unless it is all there is; then it is also the one at the end. */
  lemma LeadingSlash(p: seq<byte>)
    ensures PathOptions([47] + p) == if p == [] then [[]] else PathOptions(p)
  {
    hide Value, Components;
    var q := [47] + p;
    assert q[1..] == p;
    NoComponents();
    if p == [] {
      assert SkipSlashes(q) == SkipSlashes([]) == [] && Values([]) + [[]] == [[]];
    } else {
      assert q[|q| - 1] == p[|p| - 1];
    }
  }

  /** The path so far, and behind it the encoded options, each after a slash unless nothing has been written. */
  function JoinOnto(path: seq<byte>, options: seq<seq<byte>>): seq<byte>
    decreases |options|
  {
    if options == [] then path
    else JoinOnto(path + (if path == [] then [] else [SLASH]) + Encode(UpToNul(options[0])), options[1..])
  }

  function GetPath(options: seq<seq<byte>>): seq<byte> {
    JoinOnto([], options)
  }

  // ----- the round trip

  function Encoded(options: seq<seq<byte>>): seq<seq<byte>> {
    seq(|options|, i requires 0 <= i < |options| => Encode(UpToNul(options[i])))
  }

  lemma {:induction false} JoinOntoIsJoin(path: seq<byte>, options: seq<seq<byte>>)
    requires path != []
    ensures JoinOnto(path, options) == Join([path] + Encoded(options))
    decreases |options|
  {
    if options != [] {
      var e := Encode(UpToNul(options[0]));
      var more := path + [SLASH] + e;
      JoinOntoIsJoin(more, options[1..]);
      var rest := Encoded(options[1..]);
      assert Encoded(options) == [e] + rest;
      assert ([path] + ([e] + rest))[1..] == [e] + rest;
      JoinFirst(path, e, rest);
    } else {
      assert [path] + Encoded(options) == [path];
    }
  }

  lemma JoinFirst(path: seq<byte>, e: seq<byte>, rest: seq<seq<byte>>)
    ensures Join([path + [SLASH] + e] + rest) == path + [SLASH] + Join([e] + rest)
  {
    assert ([e] + rest)[1..] == rest && ([path + [SLASH] + e] + rest)[1..] == rest;
  }

  lemma {:induction false} EncodeHasNoSlash(s: seq<byte>)
    ensures SLASH !in Encode(s)
  {
    if s != [] {
      EncodeHasNoSlash(s[1..]);
    }
  }

  lemma EncodedHaveNoSlash(options: seq<seq<byte>>)
    ensures forall i | 0 <= i < |options| :: SLASH !in Encoded(options)[i]
  {
    forall i | 0 <= i < |options|
      ensures SLASH !in Encoded(options)[i]
    {
      EncodeHasNoSlash(UpToNul(options[i]));
    }
  }

  /** A joined path has no more segments than there were options. */
  lemma {:induction false} FewSegments(options: seq<seq<byte>>)
    ensures |Split(GetPath(options))| <= if options == [] then 1 else |options|
    decreases |options|
  {
    if options == [] {
      assert FirstSlash([]) == 0;
    } else {
      var e := Encode(UpToNul(options[0]));
      assert [] + [] + e == e;
      if e == [] {
        FewSegments(options[1..]);
      } else {
        JoinOntoIsJoin(e, options[1..]);
        assert Encoded(options) == [e] + Encoded(options[1..]);
        EncodedHaveNoSlash(options);
        SplitJoin(Encoded(options));
      }
    }
  }

  lemma OptionsOfSegments(p: seq<byte>)
    requires p != [] && p[0] != SLASH
    ensures PathOptions(p) == Values(Split(p))
  {
    ComponentsAreSegments(p);
    assert Decode([]) == [] && UpToNul([]) == [];
    assert PathOptions(p) == Values(Components(p) + if TrailingSlash(p) then [[]] else []);
  }

  lemma EncodedValues(segments: seq<seq<byte>>, i: nat)
    requires i < |segments|
    ensures |Encoded(Values(segments))| == |segments|
    ensures Encoded(Values(segments))[i] == Through(segments[i])
  {
    UpToNulTwice(Decode(segments[i]));
  }

  lemma UpToNulTwice(s: seq<byte>)
    ensures UpToNul(UpToNul(s)) == UpToNul(s)
  {
    NoNulIsWhole(UpToNul(s));
  }

  lemma {:induction false} NoNulIsWhole(s: seq<byte>)
    requires NoNul(s)
    ensures UpToNul(s) == s
  {
  }

  ghost predicate AllCanonical(segments: seq<seq<byte>>) {
    forall i | 0 <= i < |segments| :: Canonical(segments[i])
  }

  lemma {:induction false} SegmentsHaveNoNul(p: seq<byte>)
    requires NoNul(p)
    ensures forall i | 0 <= i < |Split(p)| :: NoNul(Split(p)[i])
    decreases |p|
  {
    var k := FirstSlash(p);
    if k < |p| {
      SegmentsHaveNoNul(p[k + 1..]);
    }
  }

  lemma AllBack(segments: seq<seq<byte>>)
    requires forall i | 0 <= i < |segments| :: NoNul(segments[i])
    ensures Encoded(Values(segments)) == segments <==> AllCanonical(segments)
  {
    hide Canonical, Through, Encoded, Values;
    var es := Encoded(Values(segments));
    SameLength(segments);
    forall i | 0 <= i < |segments|
      ensures es[i] == segments[i] <==> Canonical(segments[i])
    {
      EncodedValues(segments, i);
      SegmentBack(segments[i]);
    }
  }

  lemma SameLength(segments: seq<seq<byte>>)
    ensures |Encoded(Values(segments))| == |segments| && |Values(segments)| == |segments|
  {
  }

  /**
     A path without a leading slash comes back from its options exactly when all its segments
     are canonical.  Empty segments inside and slashes at the end are kept.
     */
  lemma PathRoundTrip(p: seq<byte>)
    requires NoNul(p) && (p != [] ==> p[0] != SLASH)
    ensures GetPath(PathOptions(p)) == p <==> AllCanonical(Split(p))
  {
    hide Canonical, Decode, Encode, UpToNul;
    if p == [] {
      assert FirstSlash([]) == 0 && Split([]) == [[]];
      EmptyCanonical();
      assert PathOptions([]) == [];
    } else {
      OptionsOfSegments(p);
      SegmentsHaveNoNul(p);
      AllBack(Split(p));
      JoinedBack(p);
    }
  }

  lemma EmptyCanonical()
    ensures Canonical([])
  {
  }

  lemma JoinedBack(p: seq<byte>)
    requires p != [] && p[0] != SLASH
    ensures var options := Values(Split(p));
            GetPath(options) == p <==> Encoded(options) == Split(p)
  {
    hide Canonical, Decode, Encode, UpToNul, Values;
    var options := Values(Split(p));
    SameLength(Split(p));
    var e := Encode(UpToNul(options[0]));
    assert [] + [] + e == e;
    var es := Encoded(options);
    assert es == [e] + Encoded(options[1..]);
    JoinSplit(p);
    FirstSegment(p);
    if e != [] {
      JoinOntoIsJoin(e, options[1..]);
      EncodedHaveNoSlash(options);
      SplitJoin(es);
    } else {
      assert es[0] != Split(p)[0];
      FewSegments(options[1..]);
      if |options| == 1 {
        assert GetPath(options) == [];
      }
    }
  }

  lemma FirstSegment(p: seq<byte>)
    requires p != [] && p[0] != SLASH
    ensures Split(p)[0] != []
  {
  }
}
