/**
 * Device discovery (DeviceInfo.cs): the compact `DEV|…` record broadcast by
 * every node, the device id derived from a hardware hash or a GUID, and the
 * registry of peers keyed by device id.
 */
module Devices {
  import opened Wrappers
  import opened Bytes
  import opened Text

  /** The fields of a device record that travel in the compact string. */
  datatype DeviceInfo = DeviceInfo(
    deviceId: string,
    machineName: string,
    userName: string,
    platform: string,
    macAddress: string,
    ipAddresses: seq<string>)

  // ---------------------------------------------------------------------------
  // The compact string
  // ---------------------------------------------------------------------------

  const Tag := "DEV"

  /** ToCompactString: "DEV", the five fields and the comma-joined IP list, separated by '|'. */
  function ToCompactString(d: DeviceInfo): (r: string)
    ensures StartsWith(r, Tag + "|")
  {
    Join("|", [Tag, d.deviceId, d.machineName, d.userName, d.platform, d.macAddress,
               Join(",", d.ipAddresses)])
  }

  /**
   * FromCompactString: split on '|'; at least six parts with "DEV" first give
   * a record whose fields are taken by position, the IP list being the
   * seventh part split on ',' (none when there is no seventh part). Anything
   * else gives null.
   */
  function FromCompactString(compact: string): (r: Option<DeviceInfo>)
    ensures r.Some? <==> StartsWith(compact, Tag + "|") && Occurrences(compact, '|') >= 5
  {
    var parts := Split(compact, '|');
    SplitPieces(compact, '|');
    TagFirst(compact);
    if |parts| >= 6 && parts[0] == Tag then
      Some(DeviceInfo(parts[1], parts[2], parts[3], parts[4], parts[5],
                      if |parts| > 6 then Split(parts[6], ',') else []))
    else None
  }

  /** The first piece is "DEV" and is followed by a separator exactly when the string starts with "DEV|". */
  lemma TagFirst(s: string)
    ensures |Split(s, '|')| >= 2 && Split(s, '|')[0] == Tag <==> StartsWith(s, Tag + "|")
  {
    if StartsWith(s, Tag + "|") {
      TagThenSplit(s);
    }
    if |Split(s, '|')| >= 2 && Split(s, '|')[0] == Tag {
      SplitThenTag(s);
    }
  }

  lemma TagThenSplit(s: string)
    requires StartsWith(s, Tag + "|")
    ensures |Split(s, '|')| >= 2 && Split(s, '|')[0] == Tag
  {
    assert s[..3] == Tag && s[3] == '|';
    IndexOfAt(s, '|', 3);
  }

  lemma SplitThenTag(s: string)
    requires |Split(s, '|')| >= 2 && Split(s, '|')[0] == Tag
    ensures StartsWith(s, Tag + "|")
  {
    var k := IndexOf(s, '|');
    assert k >= 0;
    assert s[..k] == Tag;
    assert s[..4] == s[..k] + [s[k]];
  }

  /** No '|' inside a field, and no ',' or '|' inside an address. */
  predicate Separable(d: DeviceInfo)
  {
    && '|' !in d.deviceId && '|' !in d.machineName && '|' !in d.userName
    && '|' !in d.platform && '|' !in d.macAddress
    && forall k :: 0 <= k < |d.ipAddresses| ==> '|' !in d.ipAddresses[k] && ',' !in d.ipAddresses[k]
  }

  /** Joining pieces without `c` yields a string without `c` when the glue is not `c` either. */
  lemma {:induction false} JoinAvoids(sep: char, parts: seq<string>, c: char)
    requires sep != c
    requires forall k :: 0 <= k < |parts| ==> c !in parts[k]
    ensures c !in Join([sep], parts)
  {
    if |parts| > 1 {
      JoinAvoids(sep, parts[1..], c);
    }
  }

  /** The pieces of the compact string are the tag, the five fields and the joined IP list. */
  lemma CompactParts(d: DeviceInfo)
    requires Separable(d)
    ensures Split(ToCompactString(d), '|') ==
      [Tag, d.deviceId, d.machineName, d.userName, d.platform, d.macAddress, Join(",", d.ipAddresses)]
  {
    var parts := [Tag, d.deviceId, d.machineName, d.userName, d.platform, d.macAddress,
                  Join(",", d.ipAddresses)];
    JoinAvoids(',', d.ipAddresses, '|');
    SplitJoin(parts, '|');
  }

  /**
   * Round trip: every field comes back when no field holds '|', no address
   * holds ',' and the IP list is not empty.
   */
  lemma CompactRoundTrip(d: DeviceInfo)
    requires Separable(d) && |d.ipAddresses| >= 1
    ensures FromCompactString(ToCompactString(d)) == Some(d)
  {
    CompactParts(d);
    SplitJoin(d.ipAddresses, ',');
  }

  /** An empty IP list comes back as a list holding one empty address. */
  lemma CompactEmptyAddresses(d: DeviceInfo)
    requires Separable(d) && d.ipAddresses == []
    ensures FromCompactString(ToCompactString(d)) == Some(d.(ipAddresses := [""]))
  {
    CompactParts(d);
    assert Split("", ',') == [""];
  }

  /** A record of six parts, with no IP-list part, parses with an empty IP list. */
  lemma CompactSixParts(id: string, machine: string, user: string, platform: string, mac: string)
    requires '|' !in id && '|' !in machine && '|' !in user && '|' !in platform && '|' !in mac
    ensures FromCompactString(Join("|", [Tag, id, machine, user, platform, mac])) ==
              Some(DeviceInfo(id, machine, user, platform, mac, []))
  {
    SplitJoin([Tag, id, machine, user, platform, mac], '|');
  }

  /** Pieces after the seventh are ignored. */
  lemma CompactIgnoresTrailingParts(d: DeviceInfo, extra: string)
    requires Separable(d)
    ensures FromCompactString(ToCompactString(d) + "|" + extra) == FromCompactString(ToCompactString(d))
  {
    var parts := [Tag, d.deviceId, d.machineName, d.userName, d.platform, d.macAddress,
                  Join(",", d.ipAddresses)];
    var longer := parts + Split(extra, '|');
    JoinAvoids(',', d.ipAddresses, '|');
    CompactParts(d);
    SplitJoinAppend(parts, extra);
    assert longer[..7] == parts;
  }

  /** Splitting "joined|extra" gives the pieces of the join followed by those of extra. */
  lemma SplitJoinAppend(parts: seq<string>, extra: string)
    requires |parts| >= 1
    requires forall k :: 0 <= k < |parts| ==> '|' !in parts[k]
    ensures Split(Join("|", parts) + "|" + extra, '|') == parts + Split(extra, '|')
  {
    var pieces := Split(extra, '|');
    SplitPieces(extra, '|');
    JoinAppend("|", parts, pieces);
    SplitJoin(parts + pieces, '|');
  }

  // ---------------------------------------------------------------------------
  // The device id
  // ---------------------------------------------------------------------------

  type Nibble = x: int | 0 <= x < 16

  /** The hexadecimal digit of a nibble: 0-9, then A-F or a-f. */
  function HexDigit(n: Nibble, upper: bool): char
  {
    if n < 10 then ('0' as int + n) as char
    else if upper then ('A' as int + n - 10) as char
    else ('a' as int + n - 10) as char
  }

  predicate IsUpperHex(c: char)
  {
    '0' <= c <= '9' || 'A' <= c <= 'F'
  }

  /** Sixteen upper-case hexadecimal digits. */
  predicate IsDeviceId(id: string)
  {
    |id| == 16 && forall k :: 0 <= k < |id| ==> IsUpperHex(id[k])
  }

  /** The two upper-case hex digits of a byte, high nibble first. */
  function ByteHex(b: byte): string
  {
    [HexDigit(b / 16, true), HexDigit(b % 16, true)]
  }

  /** The bytes in hex, two digits each, without separators. */
  function Hex(bs: seq<byte>): (r: string)
    ensures |r| == 2 * |bs|
    ensures forall k :: 0 <= k < |bs| ==> r[2 * k] == HexDigit(bs[k] / 16, true) && r[2 * k + 1] == HexDigit(bs[k] % 16, true)
    ensures forall k :: 0 <= k < |r| ==> IsUpperHex(r[k])
  {
    if bs == [] then []
    else
      var r := Hex(bs[1..]);
      assert forall k :: 1 <= k < |bs| ==> bs[k] == bs[1..][k - 1];
      ByteHex(bs[0]) + r
  }

  /** BitConverter.ToString: the bytes as upper-case hex pairs separated by '-'. */
  function BitConverterString(bs: seq<byte>): string
  {
    Join("-", seq(|bs|, k requires 0 <= k < |bs| => ByteHex(bs[k])))
  }

  /** String.Replace(c, ""): every occurrence of `c` removed. */
  function Remove(s: string, c: char): (r: string)
    ensures c !in r
  {
    if s == [] then [] else (if s[0] == c then [] else [s[0]]) + Remove(s[1..], c)
  }

  lemma {:induction false} RemoveAppend(s: string, t: string, c: char)
    ensures Remove(s + t, c) == Remove(s, c) + Remove(t, c)
  {
    if s == [] {
      assert s + t == t;
    } else {
      var head := if s[0] == c then [] else [s[0]];
      assert (s + t)[0] == s[0] && (s + t)[1..] == s[1..] + t;
      assert Remove(s + t, c) == head + Remove(s[1..] + t, c);
      RemoveAppend(s[1..], t, c);
      assert head + (Remove(s[1..], c) + Remove(t, c)) == (head + Remove(s[1..], c)) + Remove(t, c);
    }
  }

  lemma {:induction false} RemoveAbsent(s: string, c: char)
    requires c !in s
    ensures Remove(s, c) == s
  {
    if s != [] {
      RemoveAbsent(s[1..], c);
    }
  }

  function Concat(parts: seq<string>): string
  {
    if parts == [] then [] else parts[0] + Concat(parts[1..])
  }

  /** Removing the glue from a join of pieces without it leaves the plain concatenation. */
  lemma {:induction false} RemoveJoin(parts: seq<string>, c: char)
    requires forall k :: 0 <= k < |parts| ==> c !in parts[k]
    ensures Remove(Join([c], parts), c) == Concat(parts)
  {
    if |parts| == 1 {
      RemoveAbsent(parts[0], c);
      assert Concat(parts) == parts[0] + Concat([]);
    } else if |parts| > 1 {
      RemoveJoin(parts[1..], c);
      RemoveAppend(parts[0] + [c], Join([c], parts[1..]), c);
      RemoveAppend(parts[0], [c], c);
      RemoveAbsent(parts[0], c);
      assert Remove([c], c) == [] by {
        assert [c][1..] == [];
      }
    }
  }

  /** The plain hex of the bytes is the concatenation of their hex pairs. */
  lemma {:induction false} HexPairs(bs: seq<byte>)
    ensures Hex(bs) == Concat(seq(|bs|, k requires 0 <= k < |bs| => ByteHex(bs[k])))
  {
    var pairs := seq(|bs|, k requires 0 <= k < |bs| => ByteHex(bs[k]));
    if bs != [] {
      HexPairs(bs[1..]);
      assert pairs[1..] == seq(|bs| - 1, k requires 0 <= k < |bs| - 1 => ByteHex(bs[1..][k]));
    }
  }

  /** Removing the dashes from BitConverter's string leaves the plain hex of the bytes. */
  lemma BitConverterWithoutDashes(bs: seq<byte>)
    ensures Remove(BitConverterString(bs), '-') == Hex(bs)
  {
    var pairs := seq(|bs|, k requires 0 <= k < |bs| => ByteHex(bs[k]));
    RemoveJoin(pairs, '-');
    HexPairs(bs);
  }

  /** Upper-casing leaves upper-case hex digits as they are. */
  lemma UpperHexUnchanged(s: string)
    requires forall k :: 0 <= k < |s| ==> IsUpperHex(s[k])
    ensures ToUpperAscii(s) == s
  {
  }

  /** The hash path: the first eight hash bytes as hex, dashes removed, upper-cased. */
  function HashId(hash: seq<byte>): string
    requires |hash| >= 8
  {
    ToUpperAscii(Remove(BitConverterString(hash[..8]), '-'))
  }

  /** The GUID in format "N": 32 lower-case hex digits. */
  function GuidN(guid: seq<Nibble>): (r: string)
    requires |guid| == 32
  {
    seq(32, k requires 0 <= k < 32 => HexDigit(guid[k], false))
  }

  /** The fallback path: the first 16 digits of the GUID, upper-cased. */
  function GuidId(guid: seq<Nibble>): string
    requires |guid| == 32
  {
    ToUpperAscii(GuidN(guid)[..16])
  }

  /**
   * GenerateDeviceId: `hash` is the SHA-256 digest of the hardware string, or
   * None when collecting or hashing threw; then the random GUID `guid` is used.
   */
  function GenerateDeviceId(hash: Option<seq<byte>>, guid: seq<Nibble>): (r: string)
    requires hash.Some? ==> |hash.value| >= 8
    requires |guid| == 32
    ensures hash.Some? ==> r == Hex(hash.value[..8])
    ensures hash.None? ==> |r| == 16 && forall k :: 0 <= k < 16 ==> r[k] == HexDigit(guid[k], true)
  {
    match hash
    case Some(h) => HashIdSpellsBytes(h); HashId(h)
    case None => GuidIdSpellsDigits(guid); GuidId(guid)
  }

  /** The hash path spells the first eight bytes of the hash in upper-case hex. */
  lemma HashIdSpellsBytes(hash: seq<byte>)
    requires |hash| >= 8
    ensures HashId(hash) == Hex(hash[..8])
  {
    BitConverterWithoutDashes(hash[..8]);
    UpperHexUnchanged(Hex(hash[..8]));
  }

  /** The fallback path spells the first 16 GUID digits in upper case. */
  lemma GuidIdSpellsDigits(guid: seq<Nibble>)
    requires |guid| == 32
    ensures forall k :: 0 <= k < 16 ==> GuidId(guid)[k] == HexDigit(guid[k], true)
  {
  }

  /** Both paths give 16 upper-case hexadecimal digits. */
  lemma DeviceIdShape(hash: Option<seq<byte>>, guid: seq<Nibble>)
    requires hash.Some? ==> |hash.value| >= 8
    requires |guid| == 32
    ensures IsDeviceId(GenerateDeviceId(hash, guid))
  {
    match hash
    case Some(h) =>
      HashIdSpellsBytes(h);
    case None =>
      GuidIdSpellsDigits(guid);
  }

  // ---------------------------------------------------------------------------
  // The registry
  // ---------------------------------------------------------------------------

  /** The event RegisterDevice raises, carrying the registered record. */
  datatype RegistryEvent = DeviceDiscovered(device: DeviceInfo) | DeviceUpdated(device: DeviceInfo)

  /** RegisterDevice on the dictionary: store under the id and report whether the id was new. */
  function Register(devices: map<string, DeviceInfo>, d: DeviceInfo): (map<string, DeviceInfo>, RegistryEvent)
  {
    var isNew := d.deviceId !in devices;
    (devices[d.deviceId := d], if isNew then DeviceDiscovered(d) else DeviceUpdated(d))
  }

  /** GetDevice on the dictionary. */
  function Lookup(devices: map<string, DeviceInfo>, id: string): Option<DeviceInfo>
  {
    if id in devices then Some(devices[id]) else None
  }

  class DeviceRegistry {
    var devices: map<string, DeviceInfo>

    constructor ()
      ensures devices == map[]
    {
      devices := map[];
    }

    method RegisterDevice(device: DeviceInfo) returns (event: RegistryEvent)
      modifies this
      ensures (devices, event) == Register(old(devices), device)
      ensures Count() == old(Count()) + (if device.deviceId in old(devices) then 0 else 1)
    {
      RegisterCount(devices, device);
      var isNew := device.deviceId !in devices;
      devices := devices[device.deviceId := device];
      if isNew {
        event := DeviceDiscovered(device);
      } else {
        event := DeviceUpdated(device);
      }
    }

    method GetDevice(deviceId: string) returns (r: Option<DeviceInfo>)
      ensures r.Some? <==> deviceId in devices
      ensures r.Some? ==> r.value == devices[deviceId] && r.value in devices.Values
    {
      if deviceId in devices {
        r := Some(devices[deviceId]);
      } else {
        r := None;
      }
    }

    function Count(): (r: nat)
      reads this
      ensures r == 0 <==> devices == map[]
    {
      |devices|
    }
  }

  /**
   * A registration stores the record under its id, keeps every other record,
   * and raises DeviceDiscovered exactly when the id was absent.
   */
  lemma RegisterStores(devices: map<string, DeviceInfo>, d: DeviceInfo, other: string)
    requires other != d.deviceId
    ensures Lookup(Register(devices, d).0, d.deviceId) == Some(d)
    ensures Lookup(Register(devices, d).0, other) == Lookup(devices, other)
    ensures Register(devices, d).1.device == d
    ensures Register(devices, d).1.DeviceDiscovered? <==> Lookup(devices, d.deviceId).None?
  {
  }

  /** The count grows by one exactly when the id was new. */
  lemma RegisterCount(devices: map<string, DeviceInfo>, d: DeviceInfo)
    ensures |Register(devices, d).0| == |devices| + (if d.deviceId in devices then 0 else 1)
  {
    var m := Register(devices, d).0;
    if d.deviceId in devices {
      assert m.Keys == devices.Keys;
    } else {
      assert m.Keys == devices.Keys + {d.deviceId};
    }
  }

  /** A sequence of registrations, in order, and the events raised. */
  function RegisterAll(devices: map<string, DeviceInfo>, ds: seq<DeviceInfo>): (map<string, DeviceInfo>, seq<RegistryEvent>)
    decreases |ds|
  {
    if ds == [] then (devices, [])
    else
      var first := Register(devices, ds[0]);
      var later := RegisterAll(first.0, ds[1..]);
      (later.0, [first.1] + later.1)
  }

  function Discoveries(events: seq<RegistryEvent>): nat
  {
    if events == [] then 0
    else (if events[0].DeviceDiscovered? then 1 else 0) + Discoveries(events[1..])
  }

  function Ids(ds: seq<DeviceInfo>): set<string>
  {
    set k | 0 <= k < |ds| :: ds[k].deviceId
  }

  lemma IdsCons(ds: seq<DeviceInfo>)
    requires ds != []
    ensures Ids(ds) == {ds[0].deviceId} + Ids(ds[1..])
  {
    forall x | x in Ids(ds) ensures x in {ds[0].deviceId} + Ids(ds[1..]) {
      var k :| 0 <= k < |ds| && ds[k].deviceId == x;
      if k > 0 {
        assert ds[1..][k - 1].deviceId == x;
      }
    }
    forall x | x in Ids(ds[1..]) ensures x in Ids(ds) {
      var k :| 0 <= k < |ds[1..]| && ds[1..][k].deviceId == x;
      assert ds[k + 1].deviceId == x;
    }
  }

  /**
   * After any sequence of registrations the registry holds one record per
   * distinct id seen, one event was raised per registration, and the number
   * of DeviceDiscovered events equals the growth of the count.
   */
  lemma {:induction false} RegisterAllCounts(devices: map<string, DeviceInfo>, ds: seq<DeviceInfo>)
    ensures RegisterAll(devices, ds).0.Keys == devices.Keys + Ids(ds)
    ensures |RegisterAll(devices, ds).1| == |ds|
    ensures |RegisterAll(devices, ds).0| == |devices| + Discoveries(RegisterAll(devices, ds).1)
    decreases |ds|
  {
    if ds != [] {
      var first := Register(devices, ds[0]);
      RegisterCount(devices, ds[0]);
      RegisterAllCounts(first.0, ds[1..]);
      IdsCons(ds);
      var later := RegisterAll(first.0, ds[1..]);
      assert ([first.1] + later.1)[1..] == later.1;
    }
  }
}
