/** An incremental hash: bytes are gathered into little-endian words of four, and every word is mixed in with its number. */
module FastHash {

  const LENGTH_LIMIT := 0x1_0000_0000

  function Mix(hash: bv32, word: bv32, number: nat): bv32
    requires number < LENGTH_LIMIT
  {
    Stepped(Combined(hash, word, number as bv32))
  }

  function Combined(hash: bv32, word: bv32, number: bv32): bv32 {
    hash ^ (word ^ number)
  }

  /** The step of a linear congruential generator. */
  function Stepped(x: bv32): bv32 {
    x * 1664525 + 1013904223
  }

  /** Up to four bytes, the first of them lowest. */
  function Word(bytes: seq<bv8>): bv32 {
    if bytes == [] then 0 else (bytes[0] as bv32) | (Word(bytes[1..]) << 8)
  }

  /** The reference: the words of the data from left to right; what is left over gets the number of the word before it. */
  function Fold(hash: bv32, number: nat, data: seq<bv8>): bv32
    requires number + |data| < LENGTH_LIMIT
    decreases |data|
  {
    if data == [] then hash
    else if |data| < 4 then Mix(hash, Word(data), number)
    else Fold(Mix(hash, Word(data[..4]), number + 1), number + 1, data[4..])
  }

  function Hash(salt: bv32, data: seq<bv8>): bv32
    requires |data| < LENGTH_LIMIT
  {
    Fold(Mix(0, salt, 0), 0, data)
  }

  /** The hash after the whole words only. */
  function Whole(hash: bv32, number: nat, data: seq<bv8>): bv32
    requires number + |data| < LENGTH_LIMIT
    decreases |data|
  {
    if |data| < 4 then hash else Whole(Mix(hash, Word(data[..4]), number + 1), number + 1, data[4..])
  }

  function Rest(data: seq<bv8>): (rest: seq<bv8>)
    ensures |rest| == |data| % 4
  {
    data[|data| - |data| % 4..]
  }

  lemma {:induction false} FoldIsWholeAndRest(hash: bv32, number: nat, data: seq<bv8>)
    requires number + |data| < LENGTH_LIMIT
    ensures Fold(hash, number, data) ==
              var whole := Whole(hash, number, data);
              if Rest(data) == [] then whole else Mix(whole, Word(Rest(data)), number + |data| / 4)
    decreases |data|
  {
    hide Mix, Word;
    if |data| >= 4 {
      FoldIsWholeAndRest(Mix(hash, Word(data[..4]), number + 1), number + 1, data[4..]);
      assert Rest(data[4..]) == Rest(data);
    } else {
      assert Rest(data) == data;
    }
  }

  lemma RestOfLong(data: seq<bv8>)
    requires |data| >= 4
    ensures Rest(data[4..]) == Rest(data)
  {
  }

  lemma RestOfShort(data: seq<bv8>)
    requires |data| <= 4
    ensures Rest(data) == if |data| < 4 then data else []
  {
  }

  lemma WholeOfFour(hash: bv32, number: nat, word: seq<bv8>)
    requires number + |word| < LENGTH_LIMIT && |word| <= 4
    ensures Whole(hash, number, word) == if |word| < 4 then hash else Mix(hash, Word(word), number + 1)
  {
    hide Mix, Word;
    assert |word| == 4 ==> word[..4] == word && word[4..] == [];
  }

  /** One more byte either lengthens the rest or completes a word. */
  lemma {:induction false} OneMoreByte(hash: bv32, number: nat, data: seq<bv8>, b: bv8)
    requires number + |data| + 1 < LENGTH_LIMIT
    ensures var whole := Whole(hash, number, data);
            var more := Rest(data) + [b];
            if |more| < 4 then Whole(hash, number, data + [b]) == whole && Rest(data + [b]) == more
            else Whole(hash, number, data + [b]) == Mix(whole, Word(more), number + |data| / 4 + 1) && Rest(data + [b]) == []
    decreases |data|
  {
    hide Mix, Word, Rest;
    if |data| >= 4 {
      var h := Mix(hash, Word(data[..4]), number + 1);
      OneMoreByte(h, number + 1, data[4..], b);
      assert (data + [b])[..4] == data[..4];
      assert (data + [b])[4..] == data[4..] + [b];
      RestOfLong(data);
      RestOfLong(data + [b]);
    } else {
      RestOfShort(data);
      RestOfShort(data + [b]);
      WholeOfFour(hash, number, data);
      WholeOfFour(hash, number, data + [b]);
    }
  }

  /** A byte in place n of a word. */
  function Placed(b: bv8, n: nat): bv32
    requires n < 4
  {
    if n == 0 then b as bv32 else if n == 1 then (b as bv32) << 8 else if n == 2 then (b as bv32) << 16 else (b as bv32) << 24
  }

  /** A byte is or-ed into the word above the bytes that are there. */
  lemma {:induction false} WordGrows(bytes: seq<bv8>, b: bv8)
    requires |bytes| < 4
    ensures Word(bytes + [b]) == Word(bytes) | Placed(b, |bytes|)
  {
    hide Placed;
    if bytes == [] {
      WordOfOne(b);
    } else {
      WordGrows(bytes[1..], b);
      assert (bytes + [b])[1..] == bytes[1..] + [b];
      ShiftOr(bytes[0] as bv32, Word(bytes[1..]), b, |bytes| - 1);
    }
  }

  lemma WordOfOne(b: bv8)
    ensures Word([b]) == Word([]) | Placed(b, 0)
  {
    assert [b][1..] == [];
  }

  lemma ShiftOr(low: bv32, word: bv32, b: bv8, n: nat)
    requires n < 3
    ensures low | ((word | Placed(b, n)) << 8) == (low | (word << 8)) | Placed(b, n + 1)
  {
  }

  // ----- what the hash tells apart

  /** The multiplier is odd, so that multiplying by it can be undone. */
  lemma Unmixed(x: bv32)
    ensures x * 1664525 * 4276115653 == x
  {
  }

  function Cancelled(x: bv32, y: bv32): bv32 {
    x ^ y
  }

  lemma CombinedBack(hash: bv32, word: bv32, number: bv32)
    ensures Cancelled(Combined(hash, word, number), Cancelled(hash, number)) == word
    ensures Cancelled(Combined(hash, word, number), Cancelled(word, number)) == hash
  {
  }

  /** The generator run back: the second factor is the inverse of the first one modulo 2^32. */
  function Unmix(mixed: bv32): bv32 {
    (mixed - 1013904223) * 4276115653
  }

  lemma Subtracted(x: bv32)
    ensures Unmix(Stepped(x)) == x
  {
    var y := x * 1664525;
    Unmixed(x);
    Added(y);
    assert Stepped(x) == y + 1013904223;
  }

  lemma Added(y: bv32)
    ensures y + 1013904223 - 1013904223 == y
  {
  }

  /** Running the generator back gives what went in, all xor-ed together. */
  lemma MixBack(hash: bv32, word: bv32, number: nat)
    requires number < LENGTH_LIMIT
    ensures Unmix(Mix(hash, word, number)) == Combined(hash, word, number as bv32)
  {
    hide Unmix, Combined, Stepped;
    Subtracted(Combined(hash, word, number as bv32));
  }

  /** Neither a different word nor a different hash so far is lost in a step. */
  lemma MixTellsApart(h: bv32, g: bv32, v: bv32, w: bv32, number: nat)
    requires number < LENGTH_LIMIT
    ensures Mix(h, v, number) == Mix(h, w, number) <==> v == w
    ensures Mix(h, v, number) == Mix(g, v, number) <==> h == g
  {
    hide Mix, Unmix, Combined, Cancelled;
    MixBack(h, v, number);
    MixBack(h, w, number);
    MixBack(g, v, number);
    var n := number as bv32;
    CombinedBack(h, v, n);
    CombinedBack(h, w, n);
    CombinedBack(g, v, n);
  }

  lemma WordParts(bytes: seq<bv8>)
    requires 0 < |bytes| <= 4
    ensures Word(bytes) & 0xff == bytes[0] as bv32 && Word(bytes) >> 8 == Word(bytes[1..])
    ensures |bytes| < 4 ==> Word(bytes) >> 24 == 0
  {
  }

  lemma {:induction false} WordTellsApart(a: seq<bv8>, b: seq<bv8>)
    requires |a| == |b| <= 4 && a != b
    ensures Word(a) != Word(b)
  {
    hide Word;
    WordParts(a);
    WordParts(b);
    Byte(a[0], b[0]);
    if a[0] == b[0] {
      assert a == [a[0]] + a[1..] && b == [b[0]] + b[1..];
      WordTellsApart(a[1..], b[1..]);
    }
  }

  lemma Byte(a: bv8, b: bv8)
    ensures a as bv32 == b as bv32 <==> a == b
  {
  }

  lemma {:induction false} FoldTellsApart(h: bv32, g: bv32, number: nat, data: seq<bv8>)
    requires number + |data| < LENGTH_LIMIT && h != g
    ensures Fold(h, number, data) != Fold(g, number, data)
    decreases |data|
  {
    hide Mix, Word;
    if 0 < |data| < 4 {
      MixTellsApart(h, g, Word(data), 0, number);
    } else if |data| >= 4 {
      var word := Word(data[..4]);
      MixTellsApart(h, g, word, 0, number + 1);
      FoldTellsApart(Mix(h, word, number + 1), Mix(g, word, number + 1), number + 1, data[4..]);
    }
  }

  /** Data of one length that differ in one of their words only have different hashes. */
  lemma {:induction false} FoldOfOneWord(hash: bv32, number: nat, a: seq<bv8>, b: seq<bv8>, i: nat)
    requires number + |a| < LENGTH_LIMIT && |a| == |b| && a != b
    requires forall j | 0 <= j < |a| && j / 4 != i :: a[j] == b[j]
    ensures Fold(hash, number, a) != Fold(hash, number, b)
    decreases |a|
  {
    hide Mix, Word;
    if |a| < 4 {
      WordTellsApart(a, b);
      MixTellsApart(hash, hash, Word(a), Word(b), number);
    } else {
      var v, w := Word(a[..4]), Word(b[..4]);
      assert a == a[..4] + a[4..] && b == b[..4] + b[4..];
      if i == 0 {
        assert a[4..] == b[4..];
        WordTellsApart(a[..4], b[..4]);
        MixTellsApart(hash, hash, v, w, number + 1);
        FoldTellsApart(Mix(hash, v, number + 1), Mix(hash, w, number + 1), number + 1, a[4..]);
      } else {
        assert a[..4] == b[..4];
        forall j | 0 <= j < |a| - 4 && j / 4 != i - 1
          ensures a[4..][j] == b[4..][j]
        {
          assert (j + 4) / 4 == j / 4 + 1;
        }
        FoldOfOneWord(Mix(hash, v, number + 1), number + 1, a[4..], b[4..], i - 1);
      }
    }
  }

  /** So have the same data under different salts. */
  lemma HashTellsApart(salt: bv32, other: bv32, a: seq<bv8>, b: seq<bv8>, i: nat)
    requires |a| == |b| < LENGTH_LIMIT
    requires forall j | 0 <= j < |a| && j / 4 != i :: a[j] == b[j]
    ensures Hash(salt, a) == Hash(salt, b) <==> a == b
    ensures Hash(salt, a) == Hash(other, a) <==> salt == other
  {
    hide Mix;
    if a != b {
      FoldOfOneWord(Mix(0, salt, 0), 0, a, b, i);
    }
    if salt != other {
      MixTellsApart(0, 0, salt, other, 0);
      FoldTellsApart(Mix(0, salt, 0), Mix(0, other, 0), 0, a);
    }
  }

  /** The constants: no data at all, and five bytes. */
  lemma Samples()
    ensures Hash(0, []) == 1013904223
    ensures Hash(0, [1, 2, 3, 4, 5]) == 1624259869
  {
    var data: seq<bv8> := [1, 2, 3, 4, 5];
    assert data[..4] == [1, 2, 3, 4] && data[4..] == [5];
    assert data[..4][1..] == [2, 3, 4] && [2 as bv8, 3, 4][1..] == [3, 4] && [3 as bv8, 4][1..] == [4];
    assert Word([1, 2, 3, 4]) == 0x04030201;
    assert Word([5]) == 5;
  }

  class State {
    var hash: bv32
    var bytes: nat
    var next: bv32
    ghost var salt: bv32
    ghost var fed: seq<bv8>

    ghost predicate Valid()
      reads this
    {
      && bytes == |fed| < LENGTH_LIMIT
      && hash == Whole(Mix(0, salt, 0), 0, fed)
      && next == Word(Rest(fed))
    }

    constructor (salt: bv32)
      ensures Valid() && fed == [] && this.salt == salt
    {
      hash, bytes, next := Mix(0, salt, 0), 0, 0;
      this.salt, fed := salt, [];
    }

    method FeedByte(b: bv8)
      requires Valid() && |fed| + 1 < LENGTH_LIMIT
      modifies this
      ensures Valid() && fed == old(fed) + [b] && salt == old(salt)
    {
      hide Mix, Whole, Word, Rest, Placed;
      WordGrows(Rest(fed), b);
      OneMoreByte(Mix(0, salt, 0), 0, fed, b);
      ghost var rest := Rest(fed);
      next := next | Placed(b, bytes % 4);
      assert next == Word(rest + [b]);
      bytes := bytes + 1;
      if bytes % 4 == 0 {
        hash := Mix(hash, next, bytes / 4);
        next := 0;
        NoWord();
      }
      fed := fed + [b];
    }

    method Feed(data: seq<bv8>)
      requires Valid() && |fed| + |data| < LENGTH_LIMIT
      modifies this
      ensures Valid() && fed == old(fed) + data && salt == old(salt)
    {
      hide Valid;
      for i := 0 to |data|
        invariant Valid() && fed == old(fed) + data[..i] && salt == old(salt)
      {
        FeedByte(data[i]);
        assert data[..i + 1] == data[..i] + [data[i]];
      }
      assert data[..|data|] == data;
    }

    /** The hash of everything that was fed; the state is of no use afterwards. */
    method Finish() returns (r: bv32)
      requires Valid()
      modifies this
      ensures r == Hash(old(salt), old(fed))
    {
      hide Mix, Whole, Word;
      FoldIsWholeAndRest(Mix(0, salt, 0), 0, fed);
      if bytes % 4 != 0 {
        hash := Mix(hash, next, bytes / 4);
        bytes := 0;
      }
      r := hash;
    }
  }

  lemma NoWord()
    ensures Word([]) == 0
  {
  }
}
