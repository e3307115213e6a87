/** The filter for duplicates: a ring of the last sixteen packets that were new, each with a hash that is compared first. */
module DupeFilter {
  import FastHash

  const SIZE := 16

  /** The bytes of an address and of a message id, as they lie in memory. */
  datatype Packet = Packet(from: seq<bv8>, msgId: seq<bv8>)

  datatype Entry = Entry(hash: bv32, packet: Packet)

  function HashOf(p: Packet): bv32
    requires |p.from| + |p.msgId| < FastHash.LENGTH_LIMIT
  {
    FastHash.Hash(0, p.from + p.msgId)
  }

  /** What an unused entry of the ring holds: everything zero. */
  function Blank(addressSize: nat): Packet {
    Packet(seq(addressSize, _ => 0 as bv8), [0, 0])
  }

  /** The last packets, at most sixteen. */
  function Window(recorded: seq<Packet>): seq<Packet> {
    if |recorded| <= SIZE then recorded else recorded[|recorded| - SIZE..]
  }

  lemma LastSixteen(recorded: seq<Packet>, p: Packet)
    ensures p in Window(recorded) <==>
              exists i | 0 <= i < |recorded| :: i >= |recorded| - 16 && recorded[i] == p
  {
    var start := if |recorded| <= SIZE then 0 else |recorded| - SIZE;
    assert Window(recorded) == recorded[start..];
    if i :| 0 <= i < |recorded| && i >= |recorded| - 16 && recorded[i] == p {
      assert recorded[start..][i - start] == p;
    }
  }

  /** The latest of n positions that fall on slot j of the ring; negative if there is none. */
  function Latest(n: nat, j: nat): (p: int)
    requires j < SIZE
    ensures n - SIZE <= p < n && (p - j) % SIZE == 0
  {
    if j < n % SIZE then n - n % SIZE + j else n - n % SIZE + j - SIZE
  }

  lemma LatestNext(n: nat, j: nat)
    requires j < SIZE
    ensures Latest(n + 1, j) == if j == n % SIZE then n else Latest(n, j)
  {
  }

  /** Two packets from one address have different hashes when their ids lie in one word of what is hashed. */
  lemma IdsTellApart(p: Packet, q: Packet)
    requires p.from == q.from && |p.msgId| == |q.msgId| == 2 && |p.from| + 2 < FastHash.LENGTH_LIMIT
    requires |p.from| % 4 != 3
    ensures HashOf(p) == HashOf(q) <==> p == q
  {
    hide FastHash.Hash;
    var a, b, i := p.from + p.msgId, q.from + q.msgId, |p.from| / 4;
    forall j | 0 <= j < |a| && j / 4 != i
      ensures a[j] == b[j]
    {
      assert j < |p.from|;
    }
    assert a[|p.from|..] == p.msgId && b[|p.from|..] == q.msgId;
    FastHash.HashTellsApart(0, 0, a, b, i);
  }

  class Filter {
    const addressSize: nat
    var ring: array<Entry>
    var index: nat
    /** All packets that were new, in order. */
    ghost var recorded: seq<Packet>

    predicate Fits(p: Packet) {
      |p.from| == addressSize && |p.msgId| == 2 && addressSize < 256
    }

    ghost predicate Slot(j: nat)
      requires j < SIZE && ring.Length == SIZE
      requires forall i | 0 <= i < |recorded| :: Fits(recorded[i])
      reads this, ring
    {
      var p := Latest(|recorded|, j);
      if p < 0 then ring[j] == Entry(0, Blank(addressSize))
      else assert Fits(recorded[p]); ring[j] == Entry(HashOf(recorded[p]), recorded[p])
    }

    ghost predicate Valid()
      reads this, ring
    {
      && ring.Length == SIZE
      && index == |recorded| % SIZE
      && (forall i | 0 <= i < |recorded| :: Fits(recorded[i]))
      && (forall j: nat | j < SIZE :: Slot(j))
    }

    constructor (addressSize: nat)
      requires addressSize < 256
      ensures Valid() && recorded == [] && this.addressSize == addressSize && fresh(ring)
    {
      this.addressSize := addressSize;
      ring := new Entry[SIZE](_ => Entry(0, Blank(addressSize)));
      index, recorded := 0, [];
    }

    /** The hash of the address and the message id of a packet. */
    method PacketHash(p: Packet) returns (hash: bv32)
      requires Fits(p)
      ensures hash == HashOf(p)
    {
      hide FastHash.Hash;
      var state := new FastHash.State(0);
      state.Feed(p.from);
      state.Feed(p.msgId);
      assert state.fed == p.from + p.msgId;
      hash := state.Finish();
    }

    /** An unused entry of the ring looks like an entry for p: p is blank and its hash happens to be 0. */
    ghost predicate LooksUsed(p: Packet)
      requires Fits(p)
      reads this`recorded
    {
      |recorded| < SIZE && p == Blank(addressSize) && HashOf(p) == 0
    }

    /** The ring holds exactly the window, whichever slot a packet stands in. */
    lemma RingIsWindow(p: Packet)
      requires Valid() && Fits(p)
      ensures p in Window(recorded) || LooksUsed(p) <==> exists j | 0 <= j < SIZE :: ring[j] == Entry(HashOf(p), p)
      ensures p != Blank(addressSize) ==> forall j | 0 <= j < SIZE :: ring[j].packet == p ==> ring[j].hash == HashOf(p)
    {
      hide HashOf;
      var n := |recorded|;
      forall j: nat | j < SIZE
        ensures ring[j] == Entry(HashOf(p), p) ==> p in Window(recorded) || LooksUsed(p)
        ensures p != Blank(addressSize) && ring[j].packet == p ==> ring[j].hash == HashOf(p)
      {
        assert Slot(j);
        var q := Latest(n, j);
        if q >= 0 && ring[j].packet == p {
          var start := if n <= SIZE then 0 else n - SIZE;
          assert Window(recorded)[q - start] == recorded[q];
        }
      }
      if p in Window(recorded) {
        var start := if n <= SIZE then 0 else n - SIZE;
        var i :| 0 <= i < |Window(recorded)| && Window(recorded)[i] == p;
        var q := start + i;
        var j := q % SIZE;
        assert Slot(j);
        SameSlot(n, q);
      }
      if LooksUsed(p) {
        assert Latest(n, SIZE - 1) < 0;
        assert Slot(SIZE - 1);
      }
    }

    /** Whether the packet is a duplicate: it is among the last sixteen that were not, or it looks like an unused entry. */
    method DupeCheck(p: Packet) returns (isDupe: bool)
      requires Valid() && Fits(p)
      modifies this`index, this`recorded, ring
      ensures Valid() && ring == old(ring)
      ensures isDupe <==> p in Window(old(recorded)) || old(LooksUsed(p))
      ensures isDupe <==>
                || (exists i | 0 <= i < |old(recorded)| :: i >= |old(recorded)| - 16 && old(recorded)[i] == p)
                || old(LooksUsed(p))
      ensures recorded == if isDupe then old(recorded) else old(recorded) + [p]
    {
      hide HashOf, Window;
      var hash := PacketHash(p);
      RingIsWindow(p);
      LastSixteen(recorded, p);
      isDupe := Search(hash, p);
      if !isDupe {
        Record(hash, p);
      }
    }

    method Search(hash: bv32, p: Packet) returns (found: bool)
      requires Valid()
      ensures found <==> exists j | 0 <= j < SIZE :: ring[j] == Entry(hash, p)
    {
      found := false;
      var i := SIZE;
      while i > 0
        invariant 0 <= i <= SIZE
        invariant forall j | i <= j < SIZE :: ring[j] != Entry(hash, p)
      {
        i := i - 1;
        if ring[i].hash == hash {
          if ring[i].packet.from == p.from && ring[i].packet.msgId == p.msgId {
            return true;
          }
        }
      }
    }

    method Record(hash: bv32, p: Packet)
      requires Valid() && Fits(p) && hash == HashOf(p)
      modifies this`index, this`recorded, ring
      ensures Valid() && ring == old(ring) && recorded == old(recorded) + [p]
    {
      hide HashOf, Latest;
      ghost var was := recorded;
      ring[index] := Entry(hash, p);
      index := index + 1;
      index := index % SIZE;
      recorded := recorded + [p];
      forall j: nat | j < SIZE
        ensures Slot(j)
      {
        assert old(Slot(j));
        LatestNext(|was|, j);
      }
    }
  }

  lemma SameSlot(n: nat, q: nat)
    requires q < n && n - SIZE <= q
    ensures Latest(n, q % SIZE) == q
  {
  }
}
