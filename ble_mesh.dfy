/**
 * The macOS side of the mesh (BleMesh.swift): the same three-byte packet
 * header as the Windows side, a pass-through "encryption" around UTF-8, a
 * publisher that cuts a message into 21-byte chunks and advertises each
 * packet three times behind the company id 0x1234, and a watcher that
 * reassembles packets keyed by MsgId and then by Index, with one global set
 * of completed MsgIds that is never trimmed.
 */
module BleMesh {
  import opened Wrappers
  import opened Bytes
  import opened BleProtocol
  import Utf8

  // ---------------------------------------------------------------------------
  // Packet wire format (struct BlePacket)
  // ---------------------------------------------------------------------------

  /** BlePacket.toData: MsgId, Index, Total, then the payload. */
  function ToData(p: Packet): (r: seq<byte>)
    ensures r == ToBytes(p)
  {
    [p.msgId, p.index, p.total] + p.payload
  }

  /** BlePacket.from: None for fewer than three bytes, otherwise header and payload. */
  function From(data: seq<byte>): (r: Option<Packet>)
    ensures r.Some? <==> |data| >= HeaderSize
    ensures r.Some? ==> FromBytes(data) == Success(r.value)
  {
    if |data| < 3 then None else Some(Packet(data[0], data[1], data[2], data[3..]))
  }

  /** Every packet survives toData and from. */
  lemma FromToData(p: Packet)
    ensures From(ToData(p)) == Some(p)
  {
    DecodeEncode(p);
  }

  // ---------------------------------------------------------------------------
  // Security (struct BleSecurity): AES is a pass-through placeholder
  // ---------------------------------------------------------------------------

  /** aesEncrypt and aesDecrypt: the data unchanged. */
  function AesPassThrough(data: seq<byte>): (r: Option<seq<byte>>)
    ensures r == Some(data)
  {
    Some(data)
  }

  /** BleSecurity.encrypt: the UTF-8 bytes of the message, through aesEncrypt. */
  function Encrypt(message: string): (r: Option<seq<byte>>)
    ensures r.Some?
  {
    AesPassThrough(Utf8.Encode(message))
  }

  /**
   * BleSecurity.decrypt: aesDecrypt, then the UTF-8 text less a leading
   * byte-order mark, or None when it is not UTF-8.
   */
  function Decrypt(data: seq<byte>): (r: Option<string>)
    ensures r.Some? ==> |r.value| <= |data|
  {
    match AesPassThrough(data)
    case None => None
    case Some(plain) => Utf8.DecodeData(plain)
  }

  /**
   * Every message survives encrypt and decrypt, except that a leading U+FEFF
   * is read as a byte-order mark and lost.
   */
  lemma DecryptEncrypt(message: string)
    ensures Decrypt(Encrypt(message).value) == Some(Utf8.WithoutByteOrderMark(message))
  {
    Utf8.DecodeDataEncode(message);
  }

  /** Whatever decrypts is exactly the encryption of its text, less a leading byte-order mark. */
  lemma EncryptDecrypt(data: seq<byte>)
    requires Decrypt(data).Some?
    ensures Encrypt(Decrypt(data).value) == Some(Utf8.SkipByteOrderMark(data))
  {
    Utf8.EncodeDecodeData(data);
  }

  /** A message that is not empty encrypts to bytes that are not empty. */
  lemma EncryptNonEmpty(message: string)
    requires message != []
    ensures Encrypt(message).value != []
  {
  }

  // ---------------------------------------------------------------------------
  // Advertisements
  // ---------------------------------------------------------------------------

  const CompanyId: u16 := 0x1234

  /** The chunk size of the macOS publisher. */
  const MaxPayload: nat := 21

  /** How many times the publisher advertises the whole packet list. */
  const Rounds: nat := 3

  /** constructManufacturerData: the company id, low byte first, then the packet bytes. */
  function ManufacturerData(payload: seq<byte>): (r: seq<byte>)
    ensures |r| == 2 + |payload| && r[2..] == payload
    ensures r[0] as int + 256 * r[1] as int == CompanyId as int
  {
    [CompanyId % 256, CompanyId / 256] + payload
  }

  /**
   * The didDiscover guards: at least two bytes, the little-endian company id
   * 0x1234, and a packet in the rest.
   */
  function ParseManufacturerData(data: seq<byte>): (r: Option<Packet>)
    ensures r.Some? <==> |data| >= 2 + HeaderSize && data[0] as int + 256 * data[1] as int == CompanyId as int
    ensures r.Some? ==> r == From(data[2..])
  {
    if |data| < 2 then None
    else
      var receivedCompanyId: int := data[0] as int + 256 * data[1] as int;
      if receivedCompanyId != CompanyId as int then None else From(data[2..])
  }

  /** The manufacturer data a packet is advertised with. */
  function Advertisement(p: Packet): seq<byte>
  {
    ManufacturerData(ToData(p))
  }

  /** An advertised packet is recognised and parsed back. */
  lemma ParseAdvertisement(p: Packet)
    ensures ParseManufacturerData(Advertisement(p)) == Some(p)
  {
    var d := Advertisement(p);
    assert d[2..] == ToData(p);
    FromToData(p);
  }

  /** The advertisements of a packet list, in order. */
  function Adverts(ps: seq<Packet>): (r: seq<seq<byte>>)
    ensures |r| == |ps|
    ensures forall i :: 0 <= i < |ps| ==> ParseManufacturerData(r[i]) == Some(ps[i])
  {
    var r := seq(|ps|, i requires 0 <= i < |ps| => Advertisement(ps[i]));
    assert forall i :: 0 <= i < |ps| ==> ParseManufacturerData(r[i]) == Some(ps[i]) by {
      forall i | 0 <= i < |ps| ensures ParseManufacturerData(r[i]) == Some(ps[i]) {
        ParseAdvertisement(ps[i]);
      }
    }
    r
  }

  /** `xs` repeated `n` times. */
  function Repeat<T>(xs: seq<T>, n: nat): seq<T>
  {
    if n == 0 then [] else Repeat(xs, n - 1) + xs
  }

  // ---------------------------------------------------------------------------
  // Publisher
  // ---------------------------------------------------------------------------

  /** The publisher's failure: UInt8(ceil(...)) traps for more than 255 packets. */
  datatype PublishError = PacketCountTrap

  /**
   * The packets of a message, each with Index i+1 and the shared Total: the
   * same fragmentation as the Windows side, with 21-byte chunks.
   */
  function MessagePackets(message: string, msgId: byte): seq<Packet>
    requires FragmentCount(|Encrypt(message).value|, MaxPayload) <= MaxFragments
  {
    Fragments(Encrypt(message).value, msgId, MaxPayload)
  }

  /**
   * BlePublisher.publish: the manufacturer data it advertises, in order (the
   * whole packet list three times), or the trap when the message needs more
   * than 255 packets. The random MsgId is a parameter.
   */
  method Publish(message: string, msgId: byte) returns (r: Result<seq<seq<byte>>, PublishError>)
    ensures FragmentCount(|Encrypt(message).value|, MaxPayload) > MaxFragments ==> r == Failure(PacketCountTrap)
    ensures FragmentCount(|Encrypt(message).value|, MaxPayload) <= MaxFragments ==>
      r == Success(Repeat(Adverts(MessagePackets(message, msgId)), Rounds))
  {
    var encrypted := Encrypt(message).value;
    var totalPackets := (|encrypted| + MaxPayload - 1) / MaxPayload;
    if totalPackets > MaxFragments {
      return Failure(PacketCountTrap);
    }
    ghost var expected := Fragments(encrypted, msgId, MaxPayload);
    var packets: seq<Packet> := [];
    var i := 0;
    while i < totalPackets
      invariant 0 <= i <= totalPackets
      invariant packets == expected[..i]
    {
      var start := i * MaxPayload;
      var end := Min(start + MaxPayload, |encrypted|);
      packets := packets + [Packet(msgId, i + 1, totalPackets, encrypted[start..end])];
      i := i + 1;
    }
    assert packets == expected;
    var frames := Advertise(packets);
    return Success(frames);
  }

  /**
   * The advertising loop of publish: every packet's manufacturer data, the
   * whole list once per round.
   */
  method Advertise(packets: seq<Packet>) returns (frames: seq<seq<byte>>)
    ensures frames == Repeat(Adverts(packets), Rounds)
  {
    ghost var adverts := Adverts(packets);
    frames := [];
    var round := 0;
    while round < Rounds
      invariant 0 <= round <= Rounds
      invariant frames == Repeat(adverts, round)
    {
      var j := 0;
      while j < |packets|
        invariant 0 <= j <= |packets|
        invariant frames == Repeat(adverts, round) + adverts[..j]
      {
        frames := frames + [ManufacturerData(ToData(packets[j]))];
        j := j + 1;
      }
      assert adverts[..j] == adverts;
      round := round + 1;
    }
  }

  // ---------------------------------------------------------------------------
  // Watcher state and its specification
  // ---------------------------------------------------------------------------

  /** The watcher's state: packets by MsgId and then by Index, and the completed MsgIds. */
  datatype MacState = MacState(buffer: map<byte, map<byte, Packet>>, completed: set<byte>)

  /**
   * Each table holds packets of its own MsgId under their own Index, and no
   * completed MsgId has a table.
   */
  predicate MacInv(s: MacState)
  {
    forall id :: id in s.buffer ==>
      id !in s.completed &&
      forall k :: k in s.buffer[id] ==> s.buffer[id][k].index == k && s.buffer[id][k].msgId == id
  }

  /** The packets of a table whose key is at least `from`, in ascending key order. */
  function InOrder(table: map<byte, Packet>, from: nat): seq<Packet>
    decreases 256 - from
  {
    if from >= 256 then []
    else
      var k: byte := from;
      (if k in table then [table[k]] else []) + InOrder(table, from + 1)
  }

  /** packetsDict.values.sorted by Index, for a table keyed by Index. */
  function SortedValues(table: map<byte, Packet>): seq<Packet>
  {
    InOrder(table, 0)
  }

  /** The table of a MsgId; an absent one reads as empty. */
  function TableIn(s: MacState, id: byte): map<byte, Packet>
  {
    if id in s.buffer then s.buffer[id] else map[]
  }

  /**
   * completeMessage: concatenate the payloads in Index order and decrypt;
   * the text is delivered only when it decrypts, but the MsgId is completed
   * and its table dropped either way. Without a table nothing happens.
   */
  function MacComplete(s: MacState, id: byte): (MacState, Option<string>)
  {
    if id !in s.buffer then (s, None)
    else
      var fullData := JoinPayloads(SortedValues(s.buffer[id]));
      (MacState(s.buffer - {id}, s.completed + {id}), Decrypt(fullData))
  }

  /**
   * process: a completed MsgId is dropped; otherwise its table is created on
   * demand, a packet with a new Index is stored, and the message completes
   * when the table holds as many packets as this packet's Total.
   */
  function MacProcess(s: MacState, p: Packet): (MacState, Option<string>)
  {
    if p.msgId in s.completed then (s, None)
    else
      var table := TableIn(s, p.msgId);
      if p.index in table then (s.(buffer := s.buffer[p.msgId := table]), None)
      else
        var stored := table[p.index := p];
        var s1 := s.(buffer := s.buffer[p.msgId := stored]);
        if |stored| == p.total as int then MacComplete(s1, p.msgId) else (s1, None)
  }

  /** didDiscover: advertisements without the company id or a packet are ignored. */
  function MacDiscover(s: MacState, manufacturerData: Option<seq<byte>>): (MacState, Option<string>)
  {
    match manufacturerData
    case None => (s, None)
    case Some(data) =>
      match ParseManufacturerData(data)
      case None => (s, None)
      case Some(p) => MacProcess(s, p)
  }

  // ---------------------------------------------------------------------------
  // The watcher
  // ---------------------------------------------------------------------------

  class MacWatcher {
    var messageBuffer: map<byte, map<byte, Packet>>
    var completedMessages: set<byte>

    function Snapshot(): MacState
      reads this
    {
      MacState(messageBuffer, completedMessages)
    }

    predicate Valid()
      reads this
    {
      MacInv(Snapshot())
    }

    constructor()
      ensures Snapshot() == MacState(map[], {})
      ensures Valid()
    {
      messageBuffer := map[];
      completedMessages := {};
    }

    /** centralManager(_:didDiscover:advertisementData:rssi:) on the manufacturer data. */
    method DidDiscover(manufacturerData: Option<seq<byte>>) returns (delivered: Option<string>)
      requires Valid()
      modifies this
      ensures Valid()
      ensures (Snapshot(), delivered) == MacDiscover(old(Snapshot()), manufacturerData)
    {
      if manufacturerData.None? {
        return None;
      }
      var data := manufacturerData.value;
      if |data| < 2 {
        return None;
      }
      var receivedCompanyId: int := data[0] as int + 256 * data[1] as int;
      if receivedCompanyId == CompanyId as int {
        var packet := From(data[2..]);
        if packet.Some? {
          delivered := Process(packet.value);
          return;
        }
      }
      return None;
    }

    /** process(packet:); the text handed to onMessageReceived is returned. */
    method Process(packet: Packet) returns (delivered: Option<string>)
      requires Valid()
      modifies this
      ensures Valid()
      ensures (Snapshot(), delivered) == MacProcess(old(Snapshot()), packet)
    {
      ghost var s0 := Snapshot();
      MacProcessKeepsInv(s0, packet);
      if packet.msgId in completedMessages {
        return None;
      }
      if packet.msgId !in messageBuffer {
        messageBuffer := messageBuffer[packet.msgId := map[]];
      }
      assert messageBuffer == s0.buffer[packet.msgId := TableIn(s0, packet.msgId)];
      delivered := None;
      if packet.index !in messageBuffer[packet.msgId] {
        var table: map<byte, Packet> := messageBuffer[packet.msgId][packet.index := packet];
        messageBuffer := messageBuffer[packet.msgId := table];
        assert messageBuffer == s0.buffer[packet.msgId := table];
        if |messageBuffer[packet.msgId]| == packet.total as int {
          delivered := CompleteMessage(packet.msgId);
        }
      }
    }

    /** completeMessage(msgId:); the text handed to onMessageReceived is returned. */
    method CompleteMessage(msgId: byte) returns (delivered: Option<string>)
      modifies this
      ensures (Snapshot(), delivered) == MacComplete(old(Snapshot()), msgId)
    {
      if msgId !in messageBuffer {
        return None;
      }
      var sortedPackets := SortedValues(messageBuffer[msgId]);
      var fullData := JoinLoop(sortedPackets);
      delivered := Decrypt(fullData);
      completedMessages := completedMessages + {msgId};
      messageBuffer := messageBuffer - {msgId};
    }
  }

  /** The append loop of completeMessage: the payloads concatenated in order. */
  method JoinLoop(sortedPackets: seq<Packet>) returns (fullData: seq<byte>)
    ensures fullData == JoinPayloads(sortedPackets)
  {
    fullData := [];
    var i := 0;
    while i < |sortedPackets|
      invariant 0 <= i <= |sortedPackets|
      invariant fullData == JoinPayloads(sortedPackets[..i])
    {
      assert sortedPackets[..i + 1][..i] == sortedPackets[..i];
      fullData := fullData + sortedPackets[i].payload;
      i := i + 1;
    }
    assert sortedPackets[..i] == sortedPackets;
  }

  // ---------------------------------------------------------------------------
  // Watcher properties
  // ---------------------------------------------------------------------------

  /** process keeps the tables keyed by Index and apart from the completed MsgIds. */
  lemma MacProcessKeepsInv(s: MacState, p: Packet)
    requires MacInv(s)
    ensures MacInv(MacProcess(s, p).0)
  {
    if p.msgId !in s.completed {
      var table := TableIn(s, p.msgId);
      var stored := table[p.index := p];
      var s1 := s.(buffer := s.buffer[p.msgId := stored]);
      assert MacInv(s.(buffer := s.buffer[p.msgId := table]));
      assert MacInv(s1);
    }
  }

  /** A completed MsgId stays completed, whatever arrives later. */
  lemma CompletedStaysCompleted(s: MacState, p: Packet)
    ensures s.completed <= MacProcess(s, p).0.completed
  {
  }

  /**
   * What one new packet does: it is stored, and the MsgId is completed (its
   * table dropped, its text delivered if it decrypts) exactly when the table
   * then holds Total packets.
   */
  lemma NewPacket(s: MacState, p: Packet)
    requires p.msgId !in s.completed && p.index !in TableIn(s, p.msgId)
    ensures var (t, d) := MacProcess(s, p);
            var stored := TableIn(s, p.msgId)[p.index := p];
            (p.msgId in t.completed <==> |stored| == p.total as int) &&
            (|stored| == p.total as int ==>
               p.msgId !in t.buffer && d == Decrypt(JoinPayloads(SortedValues(stored)))) &&
            (|stored| != p.total as int ==> TableIn(t, p.msgId) == stored && d == None)
  {
  }

  /**
   * First writer wins: a packet whose Index the table of its MsgId already
   * holds changes nothing and delivers nothing.
   */
  lemma HeldIndexIgnored(s: MacState, p: Packet)
    requires p.msgId !in s.completed && p.index in TableIn(s, p.msgId)
    ensures MacProcess(s, p).0 == s
    ensures MacProcess(s, p).1.None?
  {
    assert s.buffer[p.msgId := s.buffer[p.msgId]] == s.buffer;
  }

  /** A table keyed by Index is listed in strictly ascending Index order, and holds exactly its values. */
  lemma {:induction false} InOrderSorted(table: map<byte, Packet>, from: nat)
    requires forall k :: k in table ==> table[k].index == k
    ensures StrictlySortedByIndex(InOrder(table, from))
    ensures forall q :: q in InOrder(table, from) <==> q in table.Values && q.index as int >= from
    decreases 256 - from
  {
    if from < 256 {
      var k: byte := from;
      InOrderSorted(table, from + 1);
      var rest := InOrder(table, from + 1);
      if k in table {
        ConsStrict(table[k], rest);
        forall q | q in table.Values && q.index as int >= from
          ensures q in InOrder(table, from)
        {
          var j :| j in table && table[j] == q;
          if j == k {
            assert q == InOrder(table, from)[0];
          } else {
            assert q in rest;
          }
        }
      } else {
        forall q | q in table.Values && q.index as int >= from
          ensures q in rest
        {
          var j :| j in table && table[j] == q;
        }
      }
    }
  }

  // ---------------------------------------------------------------------------
  // Delivery of a published message
  // ---------------------------------------------------------------------------

  /** The texts one step hands to onMessageReceived. */
  function Delivered(d: Option<string>): seq<string>
  {
    if d.Some? then [d.value] else []
  }

  /** Steps applied one after another; the texts delivered, in order. */
  function Run<X>(step: (MacState, X) -> (MacState, Option<string>), s: MacState, xs: seq<X>): (MacState, seq<string>)
    decreases |xs|
  {
    if xs == [] then (s, [])
    else
      var first := step(s, xs[0]);
      var later := Run(step, first.0, xs[1..]);
      (later.0, Delivered(first.1) + later.1)
  }

  /** Running two batches of steps one after the other. */
  lemma {:induction false} RunAppend<X>(step: (MacState, X) -> (MacState, Option<string>), s: MacState, a: seq<X>, b: seq<X>)
    ensures Run(step, s, a + b) ==
              (Run(step, Run(step, s, a).0, b).0, Run(step, s, a).1 + Run(step, Run(step, s, a).0, b).1)
    decreases |a|
  {
    if a == [] {
      assert a + b == b;
      assert Run(step, s, a) == (s, []);
      assert [] + Run(step, s, b).1 == Run(step, s, b).1;
    } else {
      var first := step(s, a[0]);
      assert (a + b)[0] == a[0] && (a + b)[1..] == a[1..] + b;
      RunAppend(step, first.0, a[1..], b);
      var mid := Run(step, first.0, a[1..]);
      var last := Run(step, mid.0, b);
      assert Delivered(first.1) + (mid.1 + last.1) == (Delivered(first.1) + mid.1) + last.1;
    }
  }

  /** didDiscover on one advertisement. */
  function DiscoverFrame(s: MacState, frame: seq<byte>): (MacState, Option<string>)
  {
    MacDiscover(s, Some(frame))
  }

  /** Packets processed one after another. */
  function MacProcessAll(s: MacState, ps: seq<Packet>): (MacState, seq<string>)
  {
    Run(MacProcess, s, ps)
  }

  /** Advertisements processed one after another by didDiscover. */
  function MacDiscoverAll(s: MacState, frames: seq<seq<byte>>): (MacState, seq<string>)
  {
    Run(DiscoverFrame, s, frames)
  }

  /** The table built by storing packets in order, later Indices overwriting. */
  function Table(qs: seq<Packet>): map<byte, Packet>
  {
    if qs == [] then map[] else Table(qs[..|qs| - 1])[qs[|qs| - 1].index := qs[|qs| - 1]]
  }

  /** The table's keys are the Indices, each holding a packet of the list with that Index. */
  lemma {:induction false} TableHolds(qs: seq<Packet>)
    ensures Table(qs).Keys == Indices(qs)
    ensures forall k :: k in Table(qs) ==> Table(qs)[k] in qs && Table(qs)[k].index == k
  {
    if qs != [] {
      var init := qs[..|qs| - 1];
      TableHolds(init);
      assert qs == init + [qs[|qs| - 1]];
      assert Indices(qs) == Indices(init) + {qs[|qs| - 1].index};
    }
  }

  /** With distinct Indices, the last packet's Index is not among the earlier ones. */
  lemma LastIndexFresh(qs: seq<Packet>)
    requires qs != [] && DistinctIndices(qs)
    ensures qs[|qs| - 1].index !in Indices(qs[..|qs| - 1])
  {
    var init := qs[..|qs| - 1];
    forall i | 0 <= i < |init| ensures init[i].index != qs[|qs| - 1].index {
      assert init[i] == qs[i];
    }
  }

  /** With distinct Indices the table has one entry per packet. */
  lemma {:induction false} TableSize(qs: seq<Packet>)
    requires DistinctIndices(qs)
    ensures |Table(qs)| == |qs|
  {
    if qs != [] {
      var init := qs[..|qs| - 1];
      assert DistinctIndices(init);
      TableSize(init);
      TableHolds(init);
      LastIndexFresh(qs);
    }
  }

  /** The fragments listed from `from` on, for a table that maps each Index to its fragment. */
  lemma {:induction false} InOrderOfFragments(table: map<byte, Packet>, f: seq<Packet>, from: nat)
    requires 1 <= from && |f| <= MaxFragments
    requires forall k :: k in table <==> 1 <= k as int <= |f|
    requires forall k :: k in table ==> table[k] == f[k - 1]
    ensures InOrder(table, from) == if from <= |f| then f[from - 1..] else []
    decreases 256 - from
  {
    if from < 256 {
      InOrderOfFragments(table, f, from + 1);
      if from <= |f| {
        var k: byte := from;
        assert f[from - 1..] == [f[from - 1]] + f[from..];
      }
    }
  }

  /**
   * Whatever order its fragments arrive in, the table they build lists them
   * back in fragment order.
   */
  lemma FragmentTableInOrder(data: seq<byte>, msgId: byte, q: seq<Packet>)
    requires FragmentCount(|data|, MaxPayload) <= MaxFragments
    requires multiset(q) == multiset(Fragments(data, msgId, MaxPayload))
    ensures SortedValues(Table(q)) == Fragments(data, msgId, MaxPayload)
  {
    FragmentTableEntries(data, msgId, q);
    FragmentTableComplete(data, msgId, q);
    SortedValuesOfFragments(Table(q), Fragments(data, msgId, MaxPayload));
  }

  /** A table mapping each Index 1..|f| to the fragment it names lists `f` back in order. */
  lemma SortedValuesOfFragments(table: map<byte, Packet>, f: seq<Packet>)
    requires |f| <= MaxFragments
    requires forall k :: k in table <==> 1 <= k as int <= |f|
    requires forall k :: k in table ==> table[k] == f[k - 1]
    ensures SortedValues(table) == f
  {
    InOrderOfFragments(table, f, 1);
    assert InOrder(table, 0) == InOrder(table, 1);
  }

  /** Each entry of the table of a permutation of the fragments is the fragment its Index names. */
  lemma FragmentTableEntries(data: seq<byte>, msgId: byte, q: seq<Packet>)
    requires FragmentCount(|data|, MaxPayload) <= MaxFragments
    requires multiset(q) == multiset(Fragments(data, msgId, MaxPayload))
    ensures forall k :: k in Table(q) ==>
              1 <= k as int <= |Fragments(data, msgId, MaxPayload)| &&
              Table(q)[k] == Fragments(data, msgId, MaxPayload)[k - 1]
  {
    var f := Fragments(data, msgId, MaxPayload);
    var table := Table(q);
    TableHolds(q);
    forall k | k in table ensures 1 <= k as int <= |f| && table[k] == f[k - 1] {
      assert table[k] in multiset(f);
      FragmentAtIndex(data, msgId, MaxPayload, table[k]);
    }
  }

  /** The table of a permutation of the fragments has an entry for every Index. */
  lemma FragmentTableComplete(data: seq<byte>, msgId: byte, q: seq<Packet>)
    requires FragmentCount(|data|, MaxPayload) <= MaxFragments
    requires multiset(q) == multiset(Fragments(data, msgId, MaxPayload))
    ensures forall k: byte :: 1 <= k as int <= |Fragments(data, msgId, MaxPayload)| ==> k in Table(q)
  {
    var f := Fragments(data, msgId, MaxPayload);
    TableHolds(q);
    forall k: byte | 1 <= k as int <= |f| ensures k in Table(q) {
      assert f[k - 1] in multiset(q);
      assert k in Indices(q);
    }
  }


  /** A fragment sits at the position its Index names, and carries the MsgId and Total of all of them. */
  lemma FragmentAtIndex(data: seq<byte>, msgId: byte, size: nat, x: Packet)
    requires size > 0 && FragmentCount(|data|, size) <= MaxFragments
    requires x in Fragments(data, msgId, size)
    ensures 1 <= x.index as int <= |Fragments(data, msgId, size)|
    ensures Fragments(data, msgId, size)[x.index - 1] == x
    ensures x.msgId == msgId && x.total as int == |Fragments(data, msgId, size)|
  {
    var f := Fragments(data, msgId, size);
    var j :| 0 <= j < |f| && f[j] == x;
  }


  /** What each step of a delivery relies on about the next fragment. */
  lemma NextFragment(data: seq<byte>, id: byte, done: seq<Packet>, rest: seq<Packet>)
    requires FragmentCount(|data|, MaxPayload) <= MaxFragments
    requires rest != [] && multiset(done + rest) == multiset(Fragments(data, id, MaxPayload))
    ensures rest[0].msgId == id && rest[0].total as int == |done| + |rest|
    ensures rest[0].index !in Table(done) && |Table(done)| == |done|
    ensures Table(done + [rest[0]]) == Table(done)[rest[0].index := rest[0]]
  {
    var f := Fragments(data, id, MaxPayload);
    assert rest[0] in multiset(f) by {
      assert (done + rest)[|done|] == rest[0];
    }
    FragmentAtIndex(data, id, MaxPayload, rest[0]);
    assert |done + rest| == |f| by {
      assert |multiset(done + rest)| == |multiset(f)|;
    }
    FragmentsStrictlySorted(data, id, MaxPayload);
    PermutationKeepsDistinct(done + rest, f);
    DoneTable(done, rest);
    assert (done + [rest[0]])[..|done|] == done;
  }

  /** With distinct Indices overall, the table of the packets already stored lacks the next Index. */
  lemma DoneTable(done: seq<Packet>, rest: seq<Packet>)
    requires rest != [] && DistinctIndices(done + rest)
    ensures rest[0].index !in Table(done) && |Table(done)| == |done|
  {
    var all := done + rest;
    assert DistinctIndices(done) by {
      forall i, j | 0 <= i < j < |done| ensures done[i].index != done[j].index {
        assert done[i] == all[i] && done[j] == all[j];
      }
    }
    TableSize(done);
    TableHolds(done);
    assert rest[0].index !in Indices(done) by {
      forall i | 0 <= i < |done| ensures done[i].index != rest[0].index {
        assert done[i] == all[i] && rest[0] == all[|done|];
      }
    }
  }


  /** One new packet of a MsgId whose table holds `done`. */
  lemma StoreStep(s: MacState, p: Packet, done: seq<Packet>)
    requires p.msgId !in s.completed && TableIn(s, p.msgId) == Table(done) && p.index !in Table(done)
    ensures Table(done + [p]) == Table(done)[p.index := p]
    ensures var s1 := s.(buffer := s.buffer[p.msgId := Table(done + [p])]);
            MacProcess(s, p) ==
              if |Table(done + [p])| == p.total as int then MacComplete(s1, p.msgId) else (s1, None)
  {
    assert (done + [p])[..|done|] == done;
  }

  /** The table of all the packets of a message joins and decrypts to its text. */
  lemma TableDecrypts(message: string, id: byte, q: seq<Packet>)
    requires FragmentCount(|Encrypt(message).value|, MaxPayload) <= MaxFragments
    requires multiset(q) == multiset(MessagePackets(message, id))
    ensures Decrypt(JoinPayloads(SortedValues(Table(q)))) == Some(Utf8.WithoutByteOrderMark(message))
  {
    var data := Encrypt(message).value;
    assert JoinPayloads(SortedValues(Table(q))) == data by {
      FragmentTableInOrder(data, id, q);
      JoinFragments(data, id, MaxPayload);
    }
    DecryptEncrypt(message);
  }

  /** The last fragment completes the message and delivers its text. */
  lemma LastStep(s: MacState, message: string, id: byte, q: seq<Packet>)
    requires FragmentCount(|Encrypt(message).value|, MaxPayload) <= MaxFragments
    requires multiset(q) == multiset(MessagePackets(message, id))
    ensures var s1 := s.(buffer := s.buffer[id := Table(q)]);
            MacComplete(s1, id) == (MacState(s.buffer - {id}, s.completed + {id}), Some(Utf8.WithoutByteOrderMark(message)))
  {
    var s1 := s.(buffer := s.buffer[id := Table(q)]);
    var fullData := JoinPayloads(SortedValues(Table(q)));
    assert MacComplete(s1, id).1 == Decrypt(fullData);
    TableDecrypts(message, id, q);
    assert s1.buffer - {id} == s.buffer - {id};
  }

  /** The last missing fragment completes the message and delivers its text. */
  lemma CompletingStep(s: MacState, message: string, id: byte, done: seq<Packet>, p: Packet)
    requires FragmentCount(|Encrypt(message).value|, MaxPayload) <= MaxFragments
    requires multiset(done + [p]) == multiset(MessagePackets(message, id))
    requires id !in s.completed && TableIn(s, id) == Table(done)
    ensures MacProcess(s, p) == (MacState(s.buffer - {id}, s.completed + {id}), Some(Utf8.WithoutByteOrderMark(message)))
  {
    NextFragment(Encrypt(message).value, id, done, [p]);
    StoreStep(s, p, done);
    LastStep(s, message, id, done + [p]);
  }

  /** Processing the last missing fragment, as a one-packet run. */
  lemma FinalFragment(s: MacState, message: string, id: byte, done: seq<Packet>, rest: seq<Packet>)
    requires FragmentCount(|Encrypt(message).value|, MaxPayload) <= MaxFragments
    requires |rest| == 1 && multiset(done + rest) == multiset(MessagePackets(message, id))
    requires id !in s.completed && TableIn(s, id) == Table(done)
    ensures MacProcessAll(s, rest).0 == MacState(s.buffer - {id}, s.completed + {id})
    ensures MacProcessAll(s, rest).1 == [Utf8.WithoutByteOrderMark(message)]
  {
    var p := rest[0];
    assert rest == [p];
    CompletingStep(s, message, id, done, p);
    var first := MacProcess(s, p);
    assert Delivered(first.1) == [Utf8.WithoutByteOrderMark(message)];
    assert rest[1..] == [];
    var later := MacProcessAll(first.0, rest[1..]);
    assert later.0 == first.0 && later.1 == [];
    assert MacProcessAll(s, rest).0 == later.0;
    assert MacProcessAll(s, rest).1 == Delivered(first.1) + later.1;
  }

  /** A fragment that is not the last is stored and delivers nothing. */
  lemma MiddleFragment(s: MacState, message: string, id: byte, done: seq<Packet>, rest: seq<Packet>)
    returns (s1: MacState)
    requires FragmentCount(|Encrypt(message).value|, MaxPayload) <= MaxFragments
    requires |rest| > 1 && multiset(done + rest) == multiset(MessagePackets(message, id))
    requires id !in s.completed && TableIn(s, id) == Table(done)
    ensures s1.completed == s.completed && s1.buffer - {id} == s.buffer - {id}
    ensures TableIn(s1, id) == Table(done + [rest[0]])
    ensures MacProcessAll(s, rest).0 == MacProcessAll(s1, rest[1..]).0
    ensures MacProcessAll(s, rest).1 == MacProcessAll(s1, rest[1..]).1
  {
    var p := rest[0];
    NextFragment(Encrypt(message).value, id, done, rest);
    StoreStep(s, p, done);
    s1 := s.(buffer := s.buffer[id := Table(done + [p])]);
    var first := MacProcess(s, p);
    assert first.0 == s1 && Delivered(first.1) == [];
    assert s1.buffer - {id} == s.buffer - {id};
    var later := MacProcessAll(s1, rest[1..]);
    assert MacProcessAll(s, rest).1 == Delivered(first.1) + later.1;
  }

  /**
   * Delivering the remaining fragments of a message whose earlier fragments
   * are already stored: the text is delivered once, the MsgId completed and
   * its table dropped.
   */
  lemma {:induction false} GatherRest(s: MacState, message: string, id: byte, done: seq<Packet>, rest: seq<Packet>)
    requires FragmentCount(|Encrypt(message).value|, MaxPayload) <= MaxFragments
    requires rest != [] && multiset(done + rest) == multiset(MessagePackets(message, id))
    requires id !in s.completed && TableIn(s, id) == Table(done)
    ensures MacProcessAll(s, rest).0 == MacState(s.buffer - {id}, s.completed + {id})
    ensures MacProcessAll(s, rest).1 == [Utf8.WithoutByteOrderMark(message)]
    decreases |rest|
  {
    if |rest| == 1 {
      FinalFragment(s, message, id, done, rest);
    } else {
      var s1 := MiddleFragment(s, message, id, done, rest);
      assert done + [rest[0]] + rest[1..] == done + rest;
      GatherRest(s1, message, id, done + [rest[0]], rest[1..]);
    }
  }



  /**
   * A published message whose MsgId this watcher has not seen is delivered
   * exactly once, whatever order its packets arrive in, and its MsgId is then
   * completed.
   */
  lemma DeliverAnyOrder(s: MacState, message: string, id: byte, ps: seq<Packet>)
    requires message != []
    requires FragmentCount(|Encrypt(message).value|, MaxPayload) <= MaxFragments
    requires multiset(ps) == multiset(MessagePackets(message, id))
    requires id !in s.completed && id !in s.buffer
    ensures MacProcessAll(s, ps).0 == MacState(s.buffer, s.completed + {id})
    ensures MacProcessAll(s, ps).1 == [Utf8.WithoutByteOrderMark(message)]
  {
    EncryptNonEmpty(message);
    assert ps != [] by {
      assert |multiset(ps)| == |MessagePackets(message, id)| > 0;
    }
    assert [] + ps == ps;
    GatherRest(s, message, id, [], ps);
    assert s.buffer - {id} == s.buffer;
  }

  /** Packets of completed MsgIds change nothing and deliver nothing. */
  lemma {:induction false} ReplayDropped(s: MacState, ps: seq<Packet>)
    requires forall i :: 0 <= i < |ps| ==> ps[i].msgId in s.completed
    ensures MacProcessAll(s, ps) == (s, [])
    decreases |ps|
  {
    if ps != [] {
      assert MacProcess(s, ps[0]) == (s, None);
      assert forall i :: 0 <= i < |ps[1..]| ==> ps[1..][i].msgId in s.completed by {
        forall i | 0 <= i < |ps[1..]| ensures ps[1..][i].msgId in s.completed {
          assert ps[1..][i] == ps[i + 1];
        }
      }
      ReplayDropped(s, ps[1..]);
      assert MacProcessAll(s, ps).0 == s;
      assert MacProcessAll(s, ps).1 == [];
    }
  }

  /** didDiscover on the advertisements of packets is process on the packets. */
  lemma {:induction false} DiscoverAdverts(s: MacState, ps: seq<Packet>)
    ensures MacDiscoverAll(s, Adverts(ps)) == MacProcessAll(s, ps)
    decreases |ps|
  {
    if ps != [] {
      assert Adverts(ps)[1..] == Adverts(ps[1..]);
      DiscoverAdverts(MacProcess(s, ps[0]).0, ps[1..]);
    }
  }

  /** Later rounds of an advertised message repeat a completed MsgId and deliver nothing. */
  lemma RepeatsDropped(s: MacState, ps: seq<Packet>, n: nat)
    requires forall i :: 0 <= i < |ps| ==> ps[i].msgId in s.completed
    ensures MacDiscoverAll(s, Repeat(Adverts(ps), n)).0 == s
    ensures MacDiscoverAll(s, Repeat(Adverts(ps), n)).1 == []
  {
    RoundDropped(s, ps);
    RunIdleRepeat(DiscoverFrame, s, Adverts(ps), n);
  }

  /** A batch of steps that leaves the state alone and delivers nothing does so however often it is repeated. */
  lemma {:induction false} RunIdleRepeat<X>(step: (MacState, X) -> (MacState, Option<string>), s: MacState, xs: seq<X>, n: nat)
    requires Run(step, s, xs).0 == s && Run(step, s, xs).1 == []
    ensures Run(step, s, Repeat(xs, n)).0 == s
    ensures Run(step, s, Repeat(xs, n)).1 == []
  {
    if n > 0 {
      RunIdleRepeat(step, s, xs, n - 1);
      RunIdleAppend(step, s, Repeat(xs, n - 1), xs);
    }
  }

  /** Two batches that each leave the state alone and deliver nothing do so one after the other. */
  lemma RunIdleAppend<X>(step: (MacState, X) -> (MacState, Option<string>), s: MacState, a: seq<X>, b: seq<X>)
    requires Run(step, s, a).0 == s && Run(step, s, a).1 == []
    requires Run(step, s, b).0 == s && Run(step, s, b).1 == []
    ensures Run(step, s, a + b).0 == s
    ensures Run(step, s, a + b).1 == []
  {
    RunAppend(step, s, a, b);
  }

  lemma RoundDropped(s: MacState, ps: seq<Packet>)
    requires forall i :: 0 <= i < |ps| ==> ps[i].msgId in s.completed
    ensures MacDiscoverAll(s, Adverts(ps)).0 == s
    ensures MacDiscoverAll(s, Adverts(ps)).1 == []
  {
    DiscoverAdverts(s, ps);
    ReplayDropped(s, ps);
  }



  /**
   * End to end: everything Publish advertises for a message, received by a
   * watcher that has not seen its MsgId, delivers the message exactly once.
   */
  lemma PublishedMessageDelivered(s: MacState, message: string, id: byte)
    requires message != []
    requires FragmentCount(|Encrypt(message).value|, MaxPayload) <= MaxFragments
    requires id !in s.completed && id !in s.buffer
    ensures MacDiscoverAll(s, Repeat(Adverts(MessagePackets(message, id)), Rounds)).0 ==
              MacState(s.buffer, s.completed + {id})
    ensures MacDiscoverAll(s, Repeat(Adverts(MessagePackets(message, id)), Rounds)).1 == [Utf8.WithoutByteOrderMark(message)]
  {
    var ps := MessagePackets(message, id);
    var once := Adverts(ps);
    var t := MacState(s.buffer, s.completed + {id});
    var first := MacDiscoverAll(s, once);
    assert first.0 == t && first.1 == [Utf8.WithoutByteOrderMark(message)] by {
      DiscoverAdverts(s, ps);
      DeliverAnyOrder(s, message, id, ps);
    }
    RepeatFront(once, Rounds);
    RunAppend(DiscoverFrame, s, once, Repeat(once, Rounds - 1));
    var replays := MacDiscoverAll(t, Repeat(once, Rounds - 1));
    assert replays.0 == t && replays.1 == [] by {
      RepeatsDropped(t, ps, Rounds - 1);
    }
    assert first.1 + replays.1 == [Utf8.WithoutByteOrderMark(message)];
  }


  /** Repeating peels off a first copy as well as a last one. */
  lemma {:induction false} RepeatFront<T>(xs: seq<T>, n: nat)
    requires n > 0
    ensures Repeat(xs, n) == xs + Repeat(xs, n - 1)
  {
    if n > 1 {
      RepeatFront(xs, n - 1);
    }
  }

  /**
   * The completed set is global and never trimmed: once a MsgId has been
   * delivered, every later message that draws the same MsgId is lost.
   */
  lemma ReusedMsgIdLost(s: MacState, message: string, id: byte, later: string)
    requires message != [] && later != []
    requires FragmentCount(|Encrypt(message).value|, MaxPayload) <= MaxFragments
    requires FragmentCount(|Encrypt(later).value|, MaxPayload) <= MaxFragments
    requires id !in s.completed && id !in s.buffer
    ensures var first := MacDiscoverAll(s, Repeat(Adverts(MessagePackets(message, id)), Rounds));
            MacDiscoverAll(first.0, Repeat(Adverts(MessagePackets(later, id)), Rounds)).1 == []
  {
    PublishedMessageDelivered(s, message, id);
    var t := MacState(s.buffer, s.completed + {id});
    RepeatsDropped(t, MessagePackets(later, id), Rounds);
  }
}
