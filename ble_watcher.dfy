/**
 * Reassembly and duplicate suppression of the Windows receiver (BleWatcher.cs).
 *
 * The state is three dictionaries keyed by the sender's Bluetooth address:
 * the fragment buffer (address -> MsgId -> fragment table), the set of
 * completed MsgIds and the FIFO queue that bounds that set to 50 entries.
 * A fragment table maps Index -> packet; it is kept here as the packets in
 * arrival order (the order in which the dictionary enumerates its values),
 * with distinct Indices.
 *
 * `Ingest` and `Complete` are the specification of one call of ProcessPacket
 * and CompleteMessage; the class `Watcher` updates its fields in place and is
 * proved against them.
 */
module BleWatcher {
  import opened Wrappers
  import opened Bytes
  import opened BleProtocol

  /** Completed MsgIds remembered per sender. */
  const MaxHistory: nat := 50

  datatype State = State(
    buffer: map<Address, map<byte, seq<Packet>>>,
    completed: map<Address, set<byte>>,
    queues: map<Address, seq<byte>>)

  const Empty := State(map[], map[], map[])

  /** The fragments held for (a, id); empty when there is no table. */
  function TableOf(s: State, a: Address, id: byte): seq<Packet>
  {
    if a in s.buffer && id in s.buffer[a] then s.buffer[a][id] else []
  }

  /** The MsgIds that sender `a` has completed; empty when it has no history yet. */
  function CompletedOf(s: State, a: Address): set<byte>
  {
    if a in s.completed then s.completed[a] else {}
  }

  // ---------------------------------------------------------------------------
  // The bounded history of one sender
  // ---------------------------------------------------------------------------

  function Elements(q: seq<byte>): set<byte>
  {
    set x | x in q
  }

  predicate NoDuplicates(q: seq<byte>)
  {
    forall i, j :: 0 <= i < j < |q| ==> q[i] != q[j]
  }

  /** The set mirrors the queue, the queue has no repeats and holds at most 50 ids. */
  predicate HistoryOk(ids: set<byte>, q: seq<byte>)
  {
    ids == Elements(q) && NoDuplicates(q) && |q| <= MaxHistory
  }

  /**
   * The history update of CompleteMessage: add and enqueue an id not yet
   * present, then dequeue the oldest id and remove it from the set when the
   * queue holds more than 50.
   */
  function Record(ids: set<byte>, q: seq<byte>, id: byte): (r: (set<byte>, seq<byte>))
    ensures r.0 <= ids + {id}
    ensures id in ids ==> r == (ids, q)
    ensures id !in ids ==> r.1 != [] && r.1[|r.1| - 1] == id && |r.1| <= |q| + 1
    ensures id !in ids && |q| < MaxHistory ==> r == (ids + {id}, q + [id])
    ensures forall x :: x in ids && (|q| < MaxHistory || x != q[0]) ==> x in r.0
  {
    if id in ids then (ids, q)
    else
      var ids1, q1 := ids + {id}, q + [id];
      if |q1| > MaxHistory then (ids1 - {q1[0]}, q1[1..]) else (ids1, q1)
  }

  // ---------------------------------------------------------------------------
  // One packet
  // ---------------------------------------------------------------------------

  /** A fragment table: non-empty, one MsgId, distinct Indices. */
  predicate TableOk(table: seq<Packet>, id: byte)
  {
    && table != []
    && DistinctIndices(table)
    && forall k :: 0 <= k < |table| ==> table[k].msgId == id
  }

  /**
   * The invariant of the receiver: the completed set and the queue of a sender
   * exist together and agree; a buffered message is not completed and its
   * table is well formed.
   */
  predicate Inv(s: State)
  {
    && s.completed.Keys == s.queues.Keys
    && (forall a :: a in s.completed ==> HistoryOk(s.completed[a], s.queues[a]))
    && s.buffer.Keys <= s.completed.Keys
    && (forall a, id :: a in s.buffer && id in s.buffer[a] ==>
          a in s.completed && id !in s.completed[a] && TableOk(s.buffer[a][id], id))
  }

  /**
   * CompleteMessage: the payloads of the held packets in Index order are handed
   * to the MessageReceived subscribers; then the id is recorded in the sender's
   * history and its table removed. When the subscriber throws
   * (`handlerThrows`), the exception is caught and neither is updated.
   */
  function Complete(s: State, id: byte, packets: seq<Packet>, a: Address, handlerThrows: bool)
    : (State, Option<seq<byte>>)
  {
    var message := JoinPayloads(SortByIndex(packets));
    if handlerThrows || a !in s.completed || a !in s.queues then (s, Some(message))
    else
      var (ids, q) := Record(s.completed[a], s.queues[a], id);
      var s1 := s.(completed := s.completed[a := ids], queues := s.queues[a := q]);
      if a in s1.buffer then (s1.(buffer := s1.buffer[a := s1.buffer[a] - {id}]), Some(message))
      else (s1, Some(message))
  }

  /** The first packet from a sender creates its empty completed set and queue together. */
  function WithHistory(s: State, a: Address): (r: State)
    ensures a in r.completed
  {
    if a in s.completed then s
    else s.(completed := s.completed[a := {}], queues := s.queues[a := []])
  }

  /** The buffer with `table` stored for (a, id), creating the sender's dictionary if needed. */
  function Store(s: State, a: Address, id: byte, table: seq<Packet>): State
  {
    var sender: map<byte, seq<Packet>> := if a in s.buffer then s.buffer[a] else map[];
    s.(buffer := s.buffer[a := sender[id := table]])
  }

  /**
   * ProcessPacket: create the sender's history on first contact; drop a MsgId
   * the sender has completed; otherwise store the packet unless its Index is
   * already held (first writer wins), and complete the message when the number
   * held equals this packet's Total.
   */
  function Ingest(s: State, p: Packet, a: Address, handlerThrows: bool): (State, Option<seq<byte>>)
  {
    var s1 := WithHistory(s, a);
    if p.msgId in s1.completed[a] then (s1, None)
    else
      var table := TableOf(s1, a, p.msgId);
      if p.index in Indices(table) then (s1, None)
      else
        var held := table + [p];
        var s2 := Store(s1, a, p.msgId, held);
        if |held| == p.total then Complete(s2, p.msgId, held, a, handlerThrows)
        else (s2, None)
  }

  // ---------------------------------------------------------------------------
  // The receiver object
  // ---------------------------------------------------------------------------

  class Watcher {
    /** Address -> MsgId -> fragment table. */
    var messageBuffer: map<Address, map<byte, seq<Packet>>>
    /** Address -> completed MsgIds. */
    var completedMessages: map<Address, set<byte>>
    /** Address -> completed MsgIds, oldest first. */
    var completedMessagesQueue: map<Address, seq<byte>>

    function Snapshot(): State
      reads this
    {
      State(messageBuffer, completedMessages, completedMessagesQueue)
    }

    ghost predicate Valid()
      reads this
    {
      Inv(Snapshot())
    }

    constructor ()
      ensures Valid() && Snapshot() == Empty
    {
      messageBuffer := map[];
      completedMessages := map[];
      completedMessagesQueue := map[];
    }

    method ProcessPacket(packet: Packet, address: Address, handlerThrows: bool)
      returns (delivered: Option<seq<byte>>)
      requires Valid()
      modifies this
      ensures Valid()
      ensures (Snapshot(), delivered) == Ingest(old(Snapshot()), packet, address, handlerThrows)
    {
      ghost var s0 := Snapshot();
      ghost var r := Ingest(s0, packet, address, handlerThrows);
      if address !in completedMessages {
        completedMessages := completedMessages[address := {}];
        completedMessagesQueue := completedMessagesQueue[address := []];
      }
      if packet.msgId in completedMessages[address] {
        assert Snapshot() == r.0;
        IngestKeepsInv(s0, packet, address, handlerThrows);
        return None;
      }
      ghost var s1 := Snapshot();
      assert s1 == WithHistory(s0, address);
      // The sender's dictionary and the MsgId's table are created on demand;
      // an absent one reads as empty.
      var senderBuffer: map<byte, seq<Packet>> :=
        if address in messageBuffer then messageBuffer[address] else map[];
      var fragments := if packet.msgId in senderBuffer then senderBuffer[packet.msgId] else [];
      assert fragments == TableOf(s1, address, packet.msgId);
      if packet.index in Indices(fragments) {
        assert Snapshot() == r.0;
        IngestKeepsInv(s0, packet, address, handlerThrows);
        return None;
      }
      fragments := fragments + [packet];
      messageBuffer := messageBuffer[address := senderBuffer[packet.msgId := fragments]];
      assert Snapshot() == Store(s1, address, packet.msgId, fragments);
      delivered := None;
      if |fragments| == packet.total {
        assert TableOf(s1, address, packet.msgId) == TableOf(s0, address, packet.msgId);
        HeldDistinct(s0, packet, address);
        delivered := CompleteMessage(packet.msgId, fragments, address, handlerThrows);
      }
      assert Snapshot() == r.0;
      IngestKeepsInv(s0, packet, address, handlerThrows);
    }

    method CompleteMessage(msgId: byte, packets: seq<Packet>, address: Address, handlerThrows: bool)
      returns (delivered: Option<seq<byte>>)
      requires DistinctIndices(packets)
      modifies this
      ensures (Snapshot(), delivered) == Complete(old(Snapshot()), msgId, packets, address, handlerThrows)
    {
      var list := new Packet[|packets|](i requires 0 <= i < |packets| => packets[i]);
      assert list[..] == packets;
      var data := ReassembleData(list);
      SortByIndexSorted(packets);
      SortByIndexStrict(packets);
      SortedPermutationUnique(list[..], SortByIndex(packets));
      delivered := Some(data);
      if handlerThrows || address !in completedMessages || address !in completedMessagesQueue {
        return;
      }
      var completedSet := completedMessages[address];
      var completedQueue := completedMessagesQueue[address];
      if msgId !in completedSet {
        completedSet := completedSet + {msgId};
        completedQueue := completedQueue + [msgId];
        if |completedQueue| > MaxHistory {
          var oldId := completedQueue[0];
          completedQueue := completedQueue[1..];
          completedSet := completedSet - {oldId};
        }
      }
      completedMessages := completedMessages[address := completedSet];
      completedMessagesQueue := completedMessagesQueue[address := completedQueue];
      if address in messageBuffer {
        messageBuffer := messageBuffer[address := messageBuffer[address] - {msgId}];
      }
    }
  }

  // ---------------------------------------------------------------------------
  // Properties
  // ---------------------------------------------------------------------------

  /** A packet stored under a new Index keeps the Indices of its table distinct. */
  lemma HeldDistinct(s: State, p: Packet, a: Address)
    requires Inv(s) && p.index !in Indices(TableOf(s, a, p.msgId))
    ensures DistinctIndices(TableOf(s, a, p.msgId) + [p])
  {
    var table := TableOf(s, a, p.msgId);
    var held := table + [p];
    if table != [] {
      assert TableOk(table, p.msgId);
    }
    forall i, j | 0 <= i < j < |held|
      ensures held[i].index != held[j].index
    {
      if j == |held| - 1 {
        assert held[i] in table;
      }
    }
  }

  /** Recording keeps the history invariant, and the recorded id is then remembered. */
  lemma RecordKeepsHistory(ids: set<byte>, q: seq<byte>, id: byte)
    requires HistoryOk(ids, q)
    ensures HistoryOk(Record(ids, q, id).0, Record(ids, q, id).1)
    ensures id in Record(ids, q, id).0
    ensures Record(ids, q, id).0 <= ids + {id}
  {
    if id !in ids {
      var q1 := q + [id];
      assert NoDuplicates(q1);
      if |q1| > MaxHistory {
        assert q1 == [q1[0]] + q1[1..];
        assert Elements(q1[1..]) == Elements(q1) - {q1[0]} by {
          forall x | x in Elements(q1) && x != q1[0]
            ensures x in Elements(q1[1..])
          {
            var k :| 0 <= k < |q1| && q1[k] == x;
            assert q1[1..][k - 1] == x;
          }
          forall x | x in Elements(q1[1..])
            ensures x != q1[0]
          {
            var k :| 0 <= k < |q1[1..]| && q1[1..][k] == x;
            assert q1[k + 1] == x;
          }
        }
      }
    }
  }

  /** The 51st distinct id evicts the oldest from both the set and the queue. */
  lemma RecordEvictsOldest(ids: set<byte>, q: seq<byte>, id: byte)
    requires HistoryOk(ids, q) && id !in ids && |q| == MaxHistory
    ensures Record(ids, q, id).1 == q[1..] + [id]
    ensures Record(ids, q, id).0 == (ids - {q[0]}) + {id}
    ensures q[0] !in Record(ids, q, id).0
  {
    var q1 := q + [id];
    assert q1[0] == q[0] && q1[1..] == q[1..] + [id];
    assert q[0] != id;
  }

  /** A packet with a new Index, added to its message's table, keeps the table well formed. */
  lemma HeldStaysOk(table: seq<Packet>, p: Packet)
    requires table != [] ==> TableOk(table, p.msgId)
    requires p.index !in Indices(table)
    ensures TableOk(table + [p], p.msgId)
  {
    var held := table + [p];
    forall i, j | 0 <= i < j < |held|
      ensures held[i].index != held[j].index
    {
      if j == |held| - 1 {
        assert held[i] in table;
      }
    }
  }

  /** The state after one packet satisfies the invariant again. */
  lemma IngestKeepsInv(s: State, p: Packet, a: Address, handlerThrows: bool)
    requires Inv(s)
    ensures Inv(Ingest(s, p, a, handlerThrows).0)
  {
    var s1 :=
      if a in s.completed then s
      else s.(completed := s.completed[a := {}], queues := s.queues[a := []]);
    assert Inv(s1) by {
      assert HistoryOk({}, []);
    }
    if p.msgId !in s1.completed[a] {
      var sender: map<byte, seq<Packet>> := if a in s1.buffer then s1.buffer[a] else map[];
      var table := if p.msgId in sender then sender[p.msgId] else [];
      if p.index !in Indices(table) {
        var held := table + [p];
        var s2 := s1.(buffer := s1.buffer[a := sender[p.msgId := held]]);
        assert table != [] ==> TableOk(table, p.msgId);
        HeldStaysOk(table, p);
        assert Inv(s2);
        if |held| == p.total {
          CompleteKeepsInv(s2, p.msgId, held, a, handlerThrows);
        }
      }
    }
  }

  lemma CompleteKeepsInv(s: State, id: byte, packets: seq<Packet>, a: Address, handlerThrows: bool)
    requires Inv(s)
    ensures Inv(Complete(s, id, packets, a, handlerThrows).0)
  {
    if !handlerThrows && a in s.completed && a in s.queues {
      RecordKeepsHistory(s.completed[a], s.queues[a], id);
      var (ids, q) := Record(s.completed[a], s.queues[a], id);
      var s1 := s.(completed := s.completed[a := ids], queues := s.queues[a := q]);
      var r := Complete(s, id, packets, a, handlerThrows).0;
      assert r.completed == s1.completed && r.queues == s1.queues;
      forall b, m | b in r.buffer && m in r.buffer[b]
        ensures b in r.completed && m !in r.completed[b] && TableOk(r.buffer[b][m], m)
      {
        if b == a {
          assert m != id && m in s.buffer[a];
        }
      }
    }
  }

  // ---------------------------------------------------------------------------
  // One packet, case by case
  // ---------------------------------------------------------------------------

  /** A MsgId the sender has completed is dropped and nothing changes. */
  lemma DropsCompleted(s: State, p: Packet, a: Address, handlerThrows: bool)
    requires p.msgId in CompletedOf(s, a)
    ensures Ingest(s, p, a, handlerThrows) == (s, None)
  {
  }

  /** An Index already held is ignored: the held packet is not overwritten and nothing is delivered. */
  lemma FirstWriterWins(s: State, p: Packet, a: Address, handlerThrows: bool)
    requires p.index in Indices(TableOf(s, a, p.msgId))
    ensures Ingest(s, p, a, handlerThrows) == (WithHistory(s, a), None)
    ensures TableOf(Ingest(s, p, a, handlerThrows).0, a, p.msgId) == TableOf(s, a, p.msgId)
  {
    assert TableOf(WithHistory(s, a), a, p.msgId) == TableOf(s, a, p.msgId);
  }

  /**
   * A new fragment of a MsgId not yet completed is stored; the message is
   * delivered exactly when the number of fragments held, this one included,
   * equals this packet's Total, and it is then the payloads in Index order.
   */
  lemma NewFragment(s: State, p: Packet, a: Address, handlerThrows: bool)
    requires p.msgId !in CompletedOf(s, a)
    requires p.index !in Indices(TableOf(s, a, p.msgId))
    ensures var held := TableOf(s, a, p.msgId) + [p];
            var (t, d) := Ingest(s, p, a, handlerThrows);
            && (d.Some? <==> |held| == p.total)
            && (d.Some? ==> d.value == JoinPayloads(SortByIndex(held)))
            && (d.None? ==> TableOf(t, a, p.msgId) == held && CompletedOf(t, a) == CompletedOf(s, a))
  {
    var s1 := WithHistory(s, a);
    assert TableOf(s1, a, p.msgId) == TableOf(s, a, p.msgId);
    assert CompletedOf(s1, a) == CompletedOf(s, a);
  }

  /**
   * When the last fragment arrives and the subscriber returns normally, the
   * MsgId joins the sender's history and its table leaves the buffer.
   */
  lemma CompletionRecords(s: State, p: Packet, a: Address)
    requires Inv(s)
    requires p.msgId !in CompletedOf(s, a)
    requires p.index !in Indices(TableOf(s, a, p.msgId))
    requires |TableOf(s, a, p.msgId)| + 1 == p.total
    ensures var t := Ingest(s, p, a, false).0;
            && p.msgId in CompletedOf(t, a)
            && a in t.buffer && p.msgId !in t.buffer[a]
  {
    var s1 := WithHistory(s, a);
    assert Inv(s1) by {
      assert HistoryOk({}, []);
    }
    RecordKeepsHistory(s1.completed[a], s1.queues[a], p.msgId);
  }

  /**
   * When the subscriber throws, the exception is caught after delivery: the
   * history is as before and the complete table stays in the buffer.
   */
  lemma HandlerThrowsKeepsState(s: State, p: Packet, a: Address)
    requires p.msgId !in CompletedOf(s, a)
    requires p.index !in Indices(TableOf(s, a, p.msgId))
    requires |TableOf(s, a, p.msgId)| + 1 == p.total
    ensures var (t, d) := Ingest(s, p, a, true);
            && d.Some?
            && t.completed == WithHistory(s, a).completed
            && t.queues == WithHistory(s, a).queues
            && TableOf(t, a, p.msgId) == TableOf(s, a, p.msgId) + [p]
  {
    assert TableOf(WithHistory(s, a), a, p.msgId) == TableOf(s, a, p.msgId);
  }

  /** Everything the receiver holds about sender `b`. */
  function SenderState(s: State, b: Address)
    : (Option<map<byte, seq<Packet>>>, Option<set<byte>>, Option<seq<byte>>)
  {
    (if b in s.buffer then Some(s.buffer[b]) else None,
     if b in s.completed then Some(s.completed[b]) else None,
     if b in s.queues then Some(s.queues[b]) else None)
  }

  /** A packet from one sender leaves every other sender's buffer and history as they were. */
  lemma OtherSendersUntouched(s: State, p: Packet, a: Address, b: Address, handlerThrows: bool)
    requires a != b
    ensures SenderState(Ingest(s, p, a, handlerThrows).0, b) == SenderState(s, b)
  {
    var s1 := WithHistory(s, a);
    assert SenderState(s1, b) == SenderState(s, b);
    if p.msgId !in s1.completed[a] {
      var held := TableOf(s1, a, p.msgId) + [p];
      var s2 := Store(s1, a, p.msgId, held);
      assert SenderState(s2, b) == SenderState(s, b);
      if p.index !in Indices(TableOf(s1, a, p.msgId)) && |held| == p.total {
        assert SenderState(Complete(s2, p.msgId, held, a, handlerThrows).0, b) == SenderState(s, b);
      }
    }
  }

  /**
   * An illustration of the general rule stated by `NewFragment`, on one
   * concrete message: completion is judged against the Total of the packet
   * just stored, so when the first fragment announces three and the second
   * announces two, the second completes the message.
   */
  lemma CurrentTotalDecides()
    ensures Ingest(Empty, Packet(7, 1, 3, [65]), 1, false).1 == None
    ensures Ingest(Ingest(Empty, Packet(7, 1, 3, [65]), 1, false).0, Packet(7, 2, 2, [66]), 1, false).1 == Some([65, 66])
  {
    FirstOfThreeWaits();
    SecondOfTwoCompletes();
  }

  /** The first fragment of three is stored under a fresh history and nothing is delivered. */
  lemma FirstOfThreeWaits()
    ensures Ingest(Empty, Packet(7, 1, 3, [65]), 1, false) ==
              (State(map[1 := map[7 := [Packet(7, 1, 3, [65])]]], map[1 := {}], map[1 := []]), None)
  {
    var s1 := State(map[], map[1 := {}], map[1 := []]);
    assert WithHistory(Empty, 1) == s1;
    assert TableOf(s1, 1, 7) == [];
    assert Indices([]) == {};
    var p1 := Packet(7, 1, 3, [65]);
    assert TableOf(s1, 1, 7) + [p1] == [p1];
    assert Store(s1, 1, 7, [Packet(7, 1, 3, [65])]) ==
             State(map[1 := map[7 := [Packet(7, 1, 3, [65])]]], map[1 := {}], map[1 := []]);
  }

  /** The second fragment, announcing two, completes the message held with the first. */
  lemma SecondOfTwoCompletes()
    ensures var p1 := Packet(7, 1, 3, [65]);
            Ingest(State(map[1 := map[7 := [p1]]], map[1 := {}], map[1 := []]), Packet(7, 2, 2, [66]), 1, false).1
              == Some([65, 66])
  {
    var p1, p2 := Packet(7, 1, 3, [65]), Packet(7, 2, 2, [66]);
    var s1 := State(map[1 := map[7 := [p1]]], map[1 := {}], map[1 := []]);
    assert TableOf(s1, 1, 7) == [p1];
    assert Indices([p1]) == {1};
    assert SortByIndex([p1, p2]) == [p1, p2] by {
      assert [p1, p2][1..] == [p2] && [p2][1..] == [];
      assert SortByIndex([p2]) == [p2];
    }
    assert JoinPayloads([p1, p2]) == [65, 66] by {
      assert [p1, p2][..1] == [p1] && [p1][..0] == [];
      assert JoinPayloads([p1]) == [65];
    }
  }

  // ---------------------------------------------------------------------------
  // A sequence of packets from one sender
  // ---------------------------------------------------------------------------

  /** The packets `ps` received in order from sender `a`, and the messages delivered. */
  function IngestAll(s: State, ps: seq<Packet>, a: Address): (State, seq<seq<byte>>)
    decreases |ps|
  {
    if ps == [] then (s, [])
    else
      var first := Ingest(s, ps[0], a, false);
      var later := IngestAll(first.0, ps[1..], a);
      (later.0, (if first.1.Some? then [first.1.value] else []) + later.1)
  }

  /** Every fragment of a message carries its MsgId and the fragment count as Total. */
  lemma FragmentHeader(data: seq<byte>, id: byte, p: Packet)
    requires FragmentCount(|data|, MaxPayloadSize) <= MaxFragments
    requires p in Fragments(data, id, MaxPayloadSize)
    ensures p.msgId == id && p.total == |Fragments(data, id, MaxPayloadSize)|
  {
    var f := Fragments(data, id, MaxPayloadSize);
    var k :| 0 <= k < |f| && f[k] == p;
  }

  /** The next fragment of a message is new to the table and announces the full count. */
  lemma NextFragmentFits(data: seq<byte>, id: byte, done: seq<Packet>, rest: seq<Packet>)
    requires FragmentCount(|data|, MaxPayloadSize) <= MaxFragments
    requires rest != []
    requires multiset(done + rest) == multiset(Fragments(data, id, MaxPayloadSize))
    ensures rest[0].msgId == id
    ensures rest[0].total == |done| + |rest|
    ensures rest[0].index !in Indices(done)
  {
    var f := Fragments(data, id, MaxPayloadSize);
    var all := done + rest;
    var p := rest[0];
    assert p == all[|done|];
    assert p in multiset(f);
    FragmentHeader(data, id, p);
    FragmentsStrictlySorted(data, id, MaxPayloadSize);
    PermutationKeepsDistinct(all, f);
    forall q | q in done ensures q.index != p.index {
      var k :| 0 <= k < |done| && done[k] == q;
      assert all[k] == q;
    }
    calc {
      |all|;
      |multiset(all)|;
      |multiset(f)|;
      |f|;
    }
  }

  /** The last missing fragment completes the message with the original data. */
  lemma LastFragment(s: State, a: Address, data: seq<byte>, id: byte, done: seq<Packet>, rest: seq<Packet>)
    requires FragmentCount(|data|, MaxPayloadSize) <= MaxFragments
    requires Inv(s) && id !in CompletedOf(s, a) && TableOf(s, a, id) == done
    requires |rest| == 1
    requires multiset(done + rest) == multiset(Fragments(data, id, MaxPayloadSize))
    ensures IngestAll(s, rest, a).1 == [data]
    ensures id in CompletedOf(IngestAll(s, rest, a).0, a)
  {
    var p := rest[0];
    assert rest == [p] && rest[1..] == [];
    NextFragmentFits(data, id, done, rest);
    NewFragment(s, p, a, false);
    SortFragmentsAnyOrder(data, id, MaxPayloadSize, done + rest);
    CompletionRecords(s, p, a);
  }

  /** A fragment that is not the last is held and nothing is delivered. */
  lemma MiddleFragment(s: State, a: Address, data: seq<byte>, id: byte, done: seq<Packet>, rest: seq<Packet>)
    returns (t: State)
    requires FragmentCount(|data|, MaxPayloadSize) <= MaxFragments
    requires Inv(s) && id !in CompletedOf(s, a) && TableOf(s, a, id) == done
    requires |rest| > 1
    requires multiset(done + rest) == multiset(Fragments(data, id, MaxPayloadSize))
    ensures Inv(t) && id !in CompletedOf(t, a) && TableOf(t, a, id) == done + [rest[0]]
    ensures IngestAll(s, rest, a) == IngestAll(t, rest[1..], a)
  {
    NextFragmentFits(data, id, done, rest);
    NewFragment(s, rest[0], a, false);
    IngestKeepsInv(s, rest[0], a, false);
    t := Ingest(s, rest[0], a, false).0;
    var later := IngestAll(t, rest[1..], a);
    assert [] + later.1 == later.1;
  }

  /**
   * With the fragments `done` already held, the remaining fragments `rest`
   * (in any order) complete the message: it is delivered once, equal to the
   * original data, and its MsgId is then completed.
   */
  lemma {:induction false} DeliverRest(s: State, a: Address, data: seq<byte>, id: byte,
                                       done: seq<Packet>, rest: seq<Packet>)
    requires FragmentCount(|data|, MaxPayloadSize) <= MaxFragments
    requires Inv(s) && id !in CompletedOf(s, a) && TableOf(s, a, id) == done
    requires rest != []
    requires multiset(done + rest) == multiset(Fragments(data, id, MaxPayloadSize))
    ensures IngestAll(s, rest, a).1 == [data]
    ensures id in CompletedOf(IngestAll(s, rest, a).0, a)
    decreases |rest|, 1
  {
    if |rest| == 1 {
      LastFragment(s, a, data, id, done, rest);
    } else {
      var t := MiddleFragment(s, a, data, id, done, rest);
      DeliverLater(t, a, data, id, done, rest);
    }
  }

  /** DeliverRest once the first of `rest` is held in `t`. */
  lemma {:induction false} DeliverLater(t: State, a: Address, data: seq<byte>, id: byte,
                                        done: seq<Packet>, rest: seq<Packet>)
    requires FragmentCount(|data|, MaxPayloadSize) <= MaxFragments
    requires |rest| > 1
    requires Inv(t) && id !in CompletedOf(t, a) && TableOf(t, a, id) == done + [rest[0]]
    requires multiset(done + rest) == multiset(Fragments(data, id, MaxPayloadSize))
    ensures IngestAll(t, rest[1..], a).1 == [data]
    ensures id in CompletedOf(IngestAll(t, rest[1..], a).0, a)
    decreases |rest|, 0
  {
    assert done + rest == (done + [rest[0]]) + rest[1..];
    DeliverRest(t, a, data, id, done + [rest[0]], rest[1..]);
  }

  /**
   * End to end: a sender with no fragments of MsgId `id` held and `id` not
   * completed delivers the message exactly once whatever the arrival order of
   * its fragments, and remembers `id` afterwards.
   */
  lemma DeliverOnceAnyOrder(s: State, a: Address, data: seq<byte>, id: byte, ps: seq<Packet>)
    requires FragmentCount(|data|, MaxPayloadSize) <= MaxFragments && data != []
    requires Inv(s) && id !in CompletedOf(s, a) && TableOf(s, a, id) == []
    requires multiset(ps) == multiset(Fragments(data, id, MaxPayloadSize))
    ensures IngestAll(s, ps, a).1 == [data]
    ensures id in CompletedOf(IngestAll(s, ps, a).0, a)
  {
    assert |ps| == |Fragments(data, id, MaxPayloadSize)| > 0 by {
      calc {
        |ps|;
        |multiset(ps)|;
        |multiset(Fragments(data, id, MaxPayloadSize))|;
        |Fragments(data, id, MaxPayloadSize)|;
      }
    }
    assert [] + ps == ps;
    DeliverRest(s, a, data, id, [], ps);
  }

  /** Once `id` is completed, replaying any of its packets delivers nothing and changes nothing. */
  lemma {:induction false} ReplayDeliversNothing(s: State, a: Address, id: byte, ps: seq<Packet>)
    requires id in CompletedOf(s, a)
    requires forall k :: 0 <= k < |ps| ==> ps[k].msgId == id
    ensures IngestAll(s, ps, a) == (s, [])
    decreases |ps|
  {
    if ps != [] {
      DropsCompleted(s, ps[0], a, false);
      assert Ingest(s, ps[0], a, false) == (s, None);
      ReplayDeliversNothing(s, a, id, ps[1..]);
      assert IngestAll(s, ps[1..], a) == (s, []);
      assert IngestAll(s, ps, a).1 == [];
      assert IngestAll(s, ps, a).0 == s;
    }
  }
}
