/**
 * The fragment wire format and the fragmenter / reassembler of BleProtocol.cs.
 *
 * A packet is a 3-byte header [MsgId, Index, Total] followed by a payload chunk.
 * The fragmenter cuts a byte string into 1-based chunks of a transport-specific
 * maximum size; the reassembler sorts the packets by Index, in place, and
 * concatenates their payloads.
 */
module BleProtocol {
  import opened Wrappers
  import opened Bytes

  /** One fragment (BlePacket). */
  datatype Packet = Packet(msgId: byte, index: byte, total: byte, payload: seq<byte>)

  /** The two ArgumentExceptions of BleProtocol.cs. */
  datatype ProtocolError = InvalidPacketData | DataTooLarge

  const HeaderSize: nat := 3

  /** Chunk size of the Windows fragmenter (extended advertising). */
  const MaxPayloadSize: nat := 240

  /** The largest fragment count a one-byte Total can carry. */
  const MaxFragments: nat := 255

  function Min(a: int, b: int): int { if a <= b then a else b }

  // ---------------------------------------------------------------------------
  // Packet codec
  // ---------------------------------------------------------------------------

  /** BlePacket.ToBytes: the header bytes, then the payload. */
  function ToBytes(p: Packet): (r: seq<byte>)
    ensures |r| == HeaderSize + |p.payload|
    ensures r[0] == p.msgId && r[1] == p.index && r[2] == p.total
    ensures r[HeaderSize..] == p.payload
  {
    [p.msgId, p.index, p.total] + p.payload
  }

  /** BlePacket.FromBytes: fails on fewer than three bytes; the payload is the rest. */
  function FromBytes(data: seq<byte>): (r: Result<Packet, ProtocolError>)
    ensures r.Failure? <==> |data| < HeaderSize
    ensures r.Failure? ==> r.error == InvalidPacketData
    ensures r.Success? ==>
      && r.value.msgId == data[0] && r.value.index == data[1] && r.value.total == data[2]
      && r.value.payload == data[HeaderSize..]
    ensures r.Success? && |data| == HeaderSize ==> r.value.payload == []
  {
    if |data| < HeaderSize then Failure(InvalidPacketData)
    else
      var payload := if |data| > HeaderSize then data[HeaderSize..] else [];
      Success(Packet(data[0], data[1], data[2], payload))
  }

  /** Decoding an encoded packet gives the packet back. */
  lemma DecodeEncode(p: Packet)
    ensures FromBytes(ToBytes(p)) == Success(p)
  {
    var b := ToBytes(p);
    assert b[HeaderSize..] == p.payload;
  }

  /** Every byte string of at least three bytes is the encoding of its decoding. */
  lemma EncodeDecode(data: seq<byte>)
    requires |data| >= HeaderSize
    ensures FromBytes(data).Success? && ToBytes(FromBytes(data).value) == data
  {
    var p := FromBytes(data).value;
    assert ToBytes(p) == data[..HeaderSize] + data[HeaderSize..];
  }

  // ---------------------------------------------------------------------------
  // Fragmentation
  // ---------------------------------------------------------------------------

  /** The number of chunks of at most `size` bytes that cover `n` bytes: ceil(n / size). */
  function FragmentCount(n: nat, size: nat): (c: nat)
    requires size > 0
    ensures c * size >= n
    ensures c > 0 ==> (c - 1) * size < n
    ensures c == 0 <==> n == 0
  {
    var c := (n + size - 1) / size;
    var r := (n + size - 1) % size;
    assert c * size + r == n + size - 1;
    c
  }

  lemma {:induction false} MulMonotone(a: nat, b: nat, size: nat)
    requires a <= b
    ensures a * size <= b * size
    decreases b - a
  {
    if a < b {
      MulMonotone(a, b - 1, size);
      assert b * size == (b - 1) * size + size;
    }
  }

  lemma MulSucc(k: nat, size: nat)
    requires k > 0
    ensures k * size == (k - 1) * size + size
  {
  }

  lemma {:induction false} ChunkStart(n: nat, size: nat, i: nat)
    requires size > 0 && i < FragmentCount(n, size)
    ensures i * size < n
    ensures i * size + size <= n || i == FragmentCount(n, size) - 1
  {
    var c := FragmentCount(n, size);
    MulMonotone(i, c - 1, size);
    if i < c - 1 {
      MulMonotone(i + 1, c - 1, size);
      assert (i + 1) * size == i * size + size;
    }
  }

  /** The payload of the (0-based) i-th fragment: bytes [i*size, min((i+1)*size, |data|)). */
  function Chunk(data: seq<byte>, size: nat, i: nat): (r: seq<byte>)
    requires size > 0 && i < FragmentCount(|data|, size)
  {
    ChunkStart(|data|, size, i);
    data[i * size .. Min(i * size + size, |data|)]
  }

  /** The fragments of `data`: fragment i has Index i+1, the shared Total and chunk i. */
  function Fragments(data: seq<byte>, msgId: byte, size: nat): (r: seq<Packet>)
    requires size > 0 && FragmentCount(|data|, size) <= MaxFragments
    ensures |r| == FragmentCount(|data|, size)
    ensures data == [] ==> r == []
    ensures forall i :: 0 <= i < |r| ==>
      r[i] == Packet(msgId, i + 1, |r|, Chunk(data, size, i))
  {
    var n := FragmentCount(|data|, size);
    seq(n, i requires 0 <= i < n => Packet(msgId, i + 1, n, Chunk(data, size, i)))
  }

  /** The concatenation of the payloads, in sequence order. */
  function JoinPayloads(ps: seq<Packet>): seq<byte>
  {
    if ps == [] then [] else JoinPayloads(ps[..|ps| - 1]) + ps[|ps| - 1].payload
  }

  /** BleFragmentation.FragmentData, with the Windows chunk size of 240 bytes. */
  method FragmentData(data: seq<byte>, msgId: byte) returns (r: Result<seq<Packet>, ProtocolError>)
    ensures FragmentCount(|data|, MaxPayloadSize) > MaxFragments ==> r == Failure(DataTooLarge)
    ensures FragmentCount(|data|, MaxPayloadSize) <= MaxFragments ==>
      r == Success(Fragments(data, msgId, MaxPayloadSize))
  {
    var totalPackets := (|data| + MaxPayloadSize - 1) / MaxPayloadSize;
    if totalPackets > MaxFragments {
      return Failure(DataTooLarge);
    }
    var packets: seq<Packet> := [];
    var i := 0;
    while i < totalPackets
      invariant 0 <= i <= totalPackets
      invariant packets == Fragments(data, msgId, MaxPayloadSize)[..i]
    {
      var offset := i * MaxPayloadSize;
      var length := Min(MaxPayloadSize, |data| - offset);
      var chunk := data[offset .. offset + length];
      packets := packets + [Packet(msgId, i + 1, totalPackets, chunk)];
      i := i + 1;
    }
    assert Fragments(data, msgId, MaxPayloadSize)[..totalPackets] == Fragments(data, msgId, MaxPayloadSize);
    return Success(packets);
  }

  /** Every fragment but the last carries exactly `size` bytes, and none is empty. */
  lemma FragmentSizes(data: seq<byte>, msgId: byte, size: nat, i: nat)
    requires size > 0 && FragmentCount(|data|, size) <= MaxFragments
    requires i < |Fragments(data, msgId, size)|
    ensures |Fragments(data, msgId, size)[i].payload| > 0
    ensures i < |Fragments(data, msgId, size)| - 1 ==> |Fragments(data, msgId, size)[i].payload| == size
  {
    ChunkStart(|data|, size, i);
  }

  /** The first k fragments carry exactly the first min(k*size, |data|) bytes. */
  lemma {:induction false} JoinFragmentsPrefix(data: seq<byte>, msgId: byte, size: nat, k: nat)
    requires size > 0 && FragmentCount(|data|, size) <= MaxFragments
    requires k <= |Fragments(data, msgId, size)|
    ensures k * size >= 0 && Min(k * size, |data|) >= 0
    ensures JoinPayloads(Fragments(data, msgId, size)[..k]) == data[..Min(k * size, |data|)]
  {
    var fs := Fragments(data, msgId, size);
    if k > 0 {
      JoinFragmentsPrefix(data, msgId, size, k - 1);
      ChunkStart(|data|, size, k - 1);
      assert fs[..k][..k - 1] == fs[..k - 1];
      var lo := (k - 1) * size;
      MulSucc(k, size);
      assert lo < |data|;
      assert fs[k - 1].payload == data[lo .. Min(lo + size, |data|)];
      calc {
        JoinPayloads(fs[..k]);
        JoinPayloads(fs[..k - 1]) + fs[k - 1].payload;
        data[..lo] + data[lo .. Min(lo + size, |data|)];
        data[..Min(lo + size, |data|)];
      }
    }
  }

  /** Concatenating all fragments gives the data back. */
  lemma JoinFragments(data: seq<byte>, msgId: byte, size: nat)
    requires size > 0 && FragmentCount(|data|, size) <= MaxFragments
    ensures JoinPayloads(Fragments(data, msgId, size)) == data
  {
    var fs := Fragments(data, msgId, size);
    JoinFragmentsPrefix(data, msgId, size, |fs|);
    assert fs[..|fs|] == fs;
  }

  // ---------------------------------------------------------------------------
  // Ordering by Index
  // ---------------------------------------------------------------------------

  predicate SortedByIndex(ps: seq<Packet>)
  {
    forall i, j :: 0 <= i < j < |ps| ==> ps[i].index <= ps[j].index
  }

  predicate StrictlySortedByIndex(ps: seq<Packet>)
  {
    forall i, j :: 0 <= i < j < |ps| ==> ps[i].index < ps[j].index
  }

  /** No two packets share an Index (the keys of a fragment dictionary). */
  predicate DistinctIndices(ps: seq<Packet>)
  {
    forall i, j :: 0 <= i < j < |ps| ==> ps[i].index != ps[j].index
  }

  /** The Indices present in a sequence of packets (the keys of a fragment dictionary). */
  function Indices(ps: seq<Packet>): set<byte>
  {
    set p | p in ps :: p.index
  }

  /** A packet occurring twice in a sequence is counted twice by its multiset. */
  lemma RepeatedCountsTwice(s: seq<Packet>, i: nat, j: nat)
    requires i < j < |s| && s[i] == s[j]
    ensures multiset(s)[s[i]] >= 2
  {
    assert s == s[..j] + [s[j]] + s[j + 1..];
    assert s[i] in s[..j];
  }

  /** With distinct Indices every packet occurs once. */
  lemma DistinctCountsOnce(s: seq<Packet>, x: nat)
    requires DistinctIndices(s) && x < |s|
    ensures multiset(s)[s[x]] == 1
  {
    assert s == s[..x] + [s[x]] + s[x + 1..];
    assert s[x] !in s[..x];
    assert s[x] !in s[x + 1..] by {
      forall k | x + 1 <= k < |s| ensures s[k] != s[x] {
        assert s[k].index != s[x].index;
      }
    }
  }

  /** Any rearrangement of packets with distinct Indices has distinct Indices. */
  lemma PermutationKeepsDistinct(t: seq<Packet>, s: seq<Packet>)
    requires DistinctIndices(s) && multiset(t) == multiset(s)
    ensures DistinctIndices(t)
  {
    forall i, j | 0 <= i < j < |t|
      ensures t[i].index != t[j].index
    {
      if t[i].index == t[j].index {
        assert t[i] in multiset(s) && t[j] in multiset(s);
        var x :| 0 <= x < |s| && s[x] == t[i];
        var y :| 0 <= y < |s| && s[y] == t[j];
        assert x == y;
        RepeatedCountsTwice(t, i, j);
        DistinctCountsOnce(s, x);
        assert false;
      }
    }
  }

  lemma {:induction false} InsertByIndexIndices(p: Packet, s: seq<Packet>)
    ensures Indices(InsertByIndex(p, s)) == {p.index} + Indices(s)
  {
    if s != [] && p.index > s[0].index {
      InsertByIndexIndices(p, s[1..]);
      assert s == [s[0]] + s[1..];
      assert Indices(s) == {s[0].index} + Indices(s[1..]);
      assert Indices(InsertByIndex(p, s)) == {s[0].index} + Indices(InsertByIndex(p, s[1..]));
    } else if s != [] {
      assert Indices([p] + s) == {p.index} + Indices(s);
    }
  }

  lemma IndicesCons(s: seq<Packet>)
    requires s != []
    ensures Indices(s) == {s[0].index} + Indices(s[1..])
  {
    assert s == [s[0]] + s[1..];
  }

  lemma AboveHead(s: seq<Packet>, x: byte)
    requires StrictlySortedByIndex(s) && s != [] && x in Indices(s[1..])
    ensures s[0].index < x
  {
    var q :| q in s[1..] && q.index == x;
    var m :| 0 <= m < |s[1..]| && s[1..][m] == q;
    assert s[m + 1] == q;
  }

  lemma ConsStrict(x: Packet, r: seq<Packet>)
    requires StrictlySortedByIndex(r)
    requires forall k :: 0 <= k < |r| ==> x.index < r[k].index
    ensures StrictlySortedByIndex([x] + r)
  {
    var c := [x] + r;
    forall i, j | 0 <= i < j < |c|
      ensures c[i].index < c[j].index
    {
      assert c[j] == r[j - 1];
      if i > 0 {
        assert c[i] == r[i - 1];
      }
    }
  }

  lemma {:induction false} InsertByIndexStrict(p: Packet, s: seq<Packet>)
    requires StrictlySortedByIndex(s) && p.index !in Indices(s)
    ensures StrictlySortedByIndex(InsertByIndex(p, s))
  {
    if s != [] {
      assert s[0] in s;
      var tail := s[1..];
      if p.index > s[0].index {
        IndicesCons(s);
        InsertByIndexStrict(p, tail);
        InsertByIndexIndices(p, tail);
        var r := InsertByIndex(p, tail);
        forall k | 0 <= k < |r|
          ensures s[0].index < r[k].index
        {
          assert r[k].index in Indices(r) by { assert r[k] in r; }
          if r[k].index != p.index {
            AboveHead(s, r[k].index);
          }
        }
        ConsStrict(s[0], r);
      } else {
        assert p.index < s[0].index by {
          assert s[0].index in Indices(s);
        }
        forall k | 0 <= k < |s|
          ensures p.index < s[k].index
        {
          if k > 0 {
            assert s[0].index < s[k].index;
          }
        }
        ConsStrict(p, s);
      }
    }
  }

  /** Sorting packets with distinct Indices gives a strictly increasing Index order. */
  lemma {:induction false} SortByIndexStrict(s: seq<Packet>)
    requires DistinctIndices(s)
    ensures StrictlySortedByIndex(SortByIndex(s))
    ensures Indices(SortByIndex(s)) == Indices(s)
  {
    if s != [] {
      var tail := s[1..];
      assert s == [s[0]] + tail;
      SortByIndexStrict(tail);
      assert s[0].index !in Indices(tail) by {
        forall q | q in tail
          ensures q.index != s[0].index
        {
          var m :| 0 <= m < |tail| && tail[m] == q;
          assert s[m + 1] == q;
        }
      }
      InsertByIndexStrict(s[0], SortByIndex(tail));
      InsertByIndexIndices(s[0], SortByIndex(tail));
      assert Indices(s) == {s[0].index} + Indices(tail);
    }
  }

  /** The fragments of any data are in strictly increasing Index order. */
  lemma FragmentsStrictlySorted(data: seq<byte>, msgId: byte, size: nat)
    requires size > 0 && FragmentCount(|data|, size) <= MaxFragments
    ensures StrictlySortedByIndex(Fragments(data, msgId, size))
  {
  }

  /** The last element of a sorted arrangement of a strictly sorted sequence is its last element. */
  lemma LastOfSortedPermutation(t: seq<Packet>, f: seq<Packet>)
    requires |t| == |f| > 0
    requires SortedByIndex(t) && StrictlySortedByIndex(f)
    requires multiset(t) == multiset(f)
    ensures t[|t| - 1] == f[|f| - 1]
  {
    var n := |t|;
    assert t[n - 1] in multiset(f);
    var p :| 0 <= p < n && f[p] == t[n - 1];
    assert f[n - 1] in multiset(t);
    var q :| 0 <= q < n && t[q] == f[n - 1];
    assert t[q].index <= t[n - 1].index;
  }

  /** Two permutations of each other that end alike are permutations without their last element. */
  lemma DropLastPermutation(t: seq<Packet>, f: seq<Packet>, last: Packet)
    requires multiset(t + [last]) == multiset(f + [last])
    ensures multiset(t) == multiset(f)
  {
    calc {
      multiset(t);
      multiset(t + [last]) - multiset{last};
      multiset(f + [last]) - multiset{last};
      multiset(f);
    }
  }

  /** Two Index-sorted arrangements of the same packets are equal when one has distinct Indices. */
  lemma {:induction false} SortedPermutationUnique(t: seq<Packet>, f: seq<Packet>)
    requires SortedByIndex(t) && StrictlySortedByIndex(f)
    requires multiset(t) == multiset(f)
    ensures t == f
  {
    assert |t| == |multiset(t)| == |multiset(f)| == |f|;
    var n := |t|;
    if n > 0 {
      LastOfSortedPermutation(t, f);
      var last := t[n - 1];
      var t', f' := t[..n - 1], f[..n - 1];
      assert t == t' + [last];
      assert f == f' + [last];
      DropLastPermutation(t', f', last);
      SortedPermutationUnique(t', f');
    }
  }

  /** Any Index-sorted arrangement of the fragments of `data` concatenates to `data`. */
  lemma ReassembleAnyOrder(data: seq<byte>, msgId: byte, size: nat, t: seq<Packet>)
    requires size > 0 && FragmentCount(|data|, size) <= MaxFragments
    requires SortedByIndex(t)
    requires multiset(t) == multiset(Fragments(data, msgId, size))
    ensures JoinPayloads(t) == data
  {
    FragmentsStrictlySorted(data, msgId, size);
    SortedPermutationUnique(t, Fragments(data, msgId, size));
    JoinFragments(data, msgId, size);
  }

  /** Insertion of one packet into an Index-sorted sequence (stable: after equal Indices). */
  function InsertByIndex(p: Packet, s: seq<Packet>): seq<Packet>
  {
    if s == [] then [p]
    else if p.index <= s[0].index then [p] + s
    else [s[0]] + InsertByIndex(p, s[1..])
  }

  /** The packets in Index order: the order in which the source concatenates them. */
  function SortByIndex(s: seq<Packet>): seq<Packet>
  {
    if s == [] then [] else InsertByIndex(s[0], SortByIndex(s[1..]))
  }

  lemma {:induction false} InsertByIndexPermutes(p: Packet, s: seq<Packet>)
    ensures multiset(InsertByIndex(p, s)) == multiset{p} + multiset(s)
  {
    if s != [] && p.index > s[0].index {
      InsertByIndexPermutes(p, s[1..]);
      assert s == [s[0]] + s[1..];
    }
  }

  lemma ConsSorted(x: Packet, r: seq<Packet>)
    requires SortedByIndex(r)
    requires forall k :: 0 <= k < |r| ==> x.index <= r[k].index
    ensures SortedByIndex([x] + r)
  {
    var c := [x] + r;
    forall i, j | 0 <= i < j < |c|
      ensures c[i].index <= c[j].index
    {
      if i > 0 {
        assert c[i] == r[i - 1] && c[j] == r[j - 1];
      } else {
        assert c[j] == r[j - 1];
      }
    }
  }

  lemma {:induction false} InsertByIndexSorted(p: Packet, s: seq<Packet>)
    requires SortedByIndex(s)
    ensures SortedByIndex(InsertByIndex(p, s))
    ensures multiset(InsertByIndex(p, s)) == multiset{p} + multiset(s)
  {
    InsertByIndexPermutes(p, s);
    if s == [] {
    } else if p.index <= s[0].index {
      forall k | 0 <= k < |s|
        ensures p.index <= s[k].index
      {
        assert s[0].index <= s[k].index || k == 0;
      }
      ConsSorted(p, s);
    } else {
      var tail := s[1..];
      assert SortedByIndex(tail);
      InsertByIndexSorted(p, tail);
      var r := InsertByIndex(p, tail);
      forall k | 0 <= k < |r|
        ensures s[0].index <= r[k].index
      {
        assert r[k] in multiset(r);
        if r[k] != p {
          assert r[k] in multiset(tail);
          var m :| 0 <= m < |tail| && tail[m] == r[k];
          assert tail[m] == s[m + 1];
        }
      }
      ConsSorted(s[0], r);
    }
  }

  /** SortByIndex returns an Index-sorted permutation of its input. */
  lemma {:induction false} SortByIndexSorted(s: seq<Packet>)
    ensures SortedByIndex(SortByIndex(s))
    ensures multiset(SortByIndex(s)) == multiset(s)
  {
    if s != [] {
      SortByIndexSorted(s[1..]);
      InsertByIndexSorted(s[0], SortByIndex(s[1..]));
      assert s == [s[0]] + s[1..];
    }
  }

  /** Sorting a permutation of the fragments of `data` restores them, whatever the arrival order. */
  lemma SortFragmentsAnyOrder(data: seq<byte>, msgId: byte, size: nat, ps: seq<Packet>)
    requires size > 0 && FragmentCount(|data|, size) <= MaxFragments
    requires multiset(ps) == multiset(Fragments(data, msgId, size))
    ensures SortByIndex(ps) == Fragments(data, msgId, size)
    ensures JoinPayloads(SortByIndex(ps)) == data
  {
    SortByIndexSorted(ps);
    FragmentsStrictlySorted(data, msgId, size);
    SortedPermutationUnique(SortByIndex(ps), Fragments(data, msgId, size));
    JoinFragments(data, msgId, size);
  }

  // ---------------------------------------------------------------------------
  // In-place reassembly
  // ---------------------------------------------------------------------------

  /** List.Sort by Index: sorts the caller's array in place. */
  method SortInPlace(a: array<Packet>)
    modifies a
    ensures SortedByIndex(a[..])
    ensures multiset(a[..]) == multiset(old(a[..]))
  {
    var i := 1;
    while i < a.Length
      invariant 1 <= i <= a.Length || a.Length == 0
      invariant forall k, l :: 0 <= k < l < i && l < a.Length ==> a[k].index <= a[l].index
      invariant multiset(a[..]) == multiset(old(a[..]))
    {
      SinkLast(a, i);
      i := i + 1;
    }
  }

  method Swap(a: array<Packet>, i: nat, j: nat)
    requires i < j < a.Length
    modifies a
    ensures a[i] == old(a[j]) && a[j] == old(a[i])
    ensures forall k :: 0 <= k < a.Length && k != i && k != j ==> a[k] == old(a[k])
    ensures multiset(a[..]) == multiset(old(a[..]))
  {
    a[i], a[j] := a[j], a[i];
  }

  /** Moves a[i] left past every larger Index, given that a[..i] is sorted. */
  method SinkLast(a: array<Packet>, i: nat)
    requires i < a.Length
    requires forall k, l :: 0 <= k < l < i ==> a[k].index <= a[l].index
    modifies a
    ensures forall k, l :: 0 <= k < l <= i ==> a[k].index <= a[l].index
    ensures forall k :: i < k < a.Length ==> a[k] == old(a[k])
    ensures multiset(a[..]) == multiset(old(a[..]))
  {
    var j := i;
    while j > 0 && a[j - 1].index > a[j].index
      invariant 0 <= j <= i
      invariant forall k, l :: 0 <= k < l <= i && k != j && l != j ==> a[k].index <= a[l].index
      invariant forall l :: j < l <= i ==> a[j].index < a[l].index
      invariant forall k :: i < k < a.Length ==> a[k] == old(a[k])
      invariant multiset(a[..]) == multiset(old(a[..]))
    {
      Swap(a, j - 1, j);
      j := j - 1;
    }
  }

  /** BleFragmentation.ReassembleData: sorts the list by Index in place, then appends the payloads. */
  method ReassembleData(packets: array<Packet>) returns (data: seq<byte>)
    modifies packets
    ensures SortedByIndex(packets[..])
    ensures multiset(packets[..]) == multiset(old(packets[..]))
    ensures data == JoinPayloads(packets[..])
  {
    SortInPlace(packets);
    data := [];
    var i := 0;
    while i < packets.Length
      invariant 0 <= i <= packets.Length
      invariant data == JoinPayloads(packets[..i])
    {
      assert packets[..i + 1][..i] == packets[..i];
      data := data + packets[i].payload;
      i := i + 1;
    }
    assert packets[..packets.Length] == packets[..];
  }
}
