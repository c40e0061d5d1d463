# Windows/macOS BLE mesh chat: the protocol engine in Dafny

This project models the protocol engine of a small broadcast chat. Windows
and macOS peers exchange text over Bluetooth Low Energy advertisements. A
message is encoded as UTF-8 and cut into packets. Each packet has the
three-byte header `[MsgId, Index, Total]` followed by a payload chunk. The
packets are advertised as manufacturer-specific data behind the company id
0x1234. The receiver reassembles them by MsgId and Index, delivers each
message once, and remembers completed MsgIds so that repeats are dropped.
Above that layer, the chat window decides what an inbound line is:
- a `DEV|…` discovery record of a peer;
- an echo of our own `id|text` line;
- chat text, possibly carrying a `cmd "…"` or `run:` command.

The modules follow the source files:

| module | file | source |
|---|---|---|
| `Wrappers`, `Bytes` | wrappers.dfy, bytes.dfy | `Option`/`Result`, `byte`, `u16`, the Bluetooth address |
| `BleProtocol` | ble_protocol.dfy | BleProtocol.cs: packet codec, fragmenter, in-place sort and reassembly |
| `BleWatcher` | ble_watcher.dfy | BleWatcher.cs: the per-sender reassembly buffer and the bounded history of completed MsgIds |
| `Text` | text.dfy | the .NET string operations the chat and discovery code uses (IndexOf, Split, Join, Trim, prefix tests) |
| `Devices` | device_info.dfy | DeviceInfo.cs: the compact discovery record, the device id format, the device registry |
| `Chat` | chat_form.dfy | ChatForm.cs: the inbound-message decision and the outbound payload |
| `Utf8` | utf8.dfy | UTF-8 encoding and strict decoding as the macOS side uses them |
| `BleMesh` | ble_mesh.dfy | macOS/BleMesh.swift: wire format, pass-through security, publisher, manufacturer data, watcher |

Code that changes state in place is modelled as classes with the same fields:
- the Windows `BleWatcher`, as `BleWatcher.Watcher`;
- the macOS `BleWatcher`, as `BleMesh.MacWatcher`;
- `DeviceRegistry`, as `Devices.DeviceRegistry`.

Each of these methods is proved against a pure function of the old state
(`Ingest`, `MacProcess`, `Register`, …), and the lemmas are stated about
those functions. The loops keep their loops:
- `FragmentData`;
- the insertion sort and the append loop of `ReassembleData`;
- the packet and advertising loops of `publish`;
- the append loop of the macOS `completeMessage`.

Five behaviours of the code are easy to get wrong, and the model follows
the code in each:
- **Which Total decides completion.** Both receivers compare the count of
  held packets with the Total of the packet just stored, not with the Total
  of the first fragment seen. `BleWatcher.CurrentTotalDecides` shows a
  message that completes because its second fragment announces two where
  the first announced three.
- **Empty input.** `FragmentData` yields no fragments at all for a
  zero-length payload, not one empty fragment with Total 1.
- **No decryption on Windows.** The Windows watcher hands on the raw
  reassembled bytes; its decryption call is commented out.
- **An empty IP list.** A record with six parts parses with an empty IP
  list (`Devices.CompactSixParts`). A record serialised from an empty list still has a seventh, empty
  part, so it parses back as `[""]` (`Devices.CompactEmptyAddresses`).
- **A leading U+FEFF.** On macOS, `String(data:encoding: .utf8)` skips a
  leading byte-order mark, so a message that starts with U+FEFF arrives
  without it (`Utf8.LeadingMarkLost`, `BleMesh.DecryptEncrypt`).

## Model

| member | source | states |
|---|---|---|
| BleProtocol.ToBytes | BleProtocol.cs:15-26 | the encoding is MsgId, Index, Total, then the payload, so its length is 3 + the payload length |
| BleProtocol.FromBytes | BleProtocol.cs:28-47 | fails with the invalid-data error exactly when the input is shorter than 3 bytes; otherwise the header comes from bytes 0-2 and the payload is the rest, empty for exactly 3 bytes |
| BleProtocol.DecodeEncode | BleProtocol.cs:15-47 | decoding an encoded packet gives the packet back |
| BleProtocol.EncodeDecode | BleProtocol.cs:15-47 | every input of at least 3 bytes decodes, and re-encoding gives the same bytes |
| BleProtocol.FragmentCount | BleProtocol.cs:60 | the packet count is the ceiling of length/size: the smallest count whose chunks cover the data, and 0 exactly for empty data |
| BleProtocol.FragmentData | BleProtocol.cs:57-82 | fails when more than 255 packets are needed; otherwise returns the packets whose i-th element has the MsgId, Index i+1, the packet count as Total and the i-th 240-byte chunk, and none for empty data |
| BleProtocol.FragmentSizes | BleProtocol.cs:65-70 | every chunk is non-empty, and every chunk but the last is exactly the chunk size |
| BleProtocol.JoinFragments | BleProtocol.cs:57-94 | the payloads of the packets, concatenated in order, are the original data |
| BleProtocol.FragmentsStrictlySorted | BleProtocol.cs:72-78 | the packets' Indices strictly increase |
| BleProtocol.SortedPermutationUnique | BleProtocol.cs:86 | an Index-sorted rearrangement of packets with distinct Indices is unique |
| BleProtocol.ReassembleAnyOrder | BleProtocol.cs:84-94 | any Index-sorted rearrangement of the packets of some data joins back to that data |
| BleProtocol.SortByIndexSorted | BleProtocol.cs:86 | the sort specification is Index-sorted and a permutation of its input |
| BleProtocol.SortFragmentsAnyOrder | BleProtocol.cs:84-94 | sorting the packets of some data, received in any order, gives back the packets in order, and their payloads join to the data |
| BleProtocol.SortInPlace | BleProtocol.cs:86 | the in-place sort leaves the array Index-sorted and a permutation of what it held |
| BleProtocol.SinkLast | BleProtocol.cs:86 | one insertion step extends the sorted prefix by one element, permutes the array and leaves the rest alone |
| BleProtocol.Swap | BleProtocol.cs:86 | exchanging two elements permutes the array and changes nothing else |
| BleProtocol.ReassembleData | BleProtocol.cs:84-94 | the caller's list ends up sorted by Index and permuted; the result is its payloads concatenated in that order |
| BleWatcher.Watcher.constructor | BleWatcher.cs:15-20 | the three dictionaries start empty, and the receiver invariant holds |
| BleWatcher.Watcher.ProcessPacket | BleWatcher.cs:77-115 | the new dictionaries and the delivered bytes are those of `Ingest` on the old state, and the receiver invariant is kept |
| BleWatcher.Watcher.CompleteMessage | BleWatcher.cs:117-152 | the new dictionaries and the delivered bytes are those of `Complete`: the payloads joined in Index order; the history is updated and the table removed only when the handler returns |
| BleWatcher.Record | BleWatcher.cs:127-141 | recording adds no id other than the new one; an id already completed leaves set and queue as they were; a new id is enqueued at the back; below 50 entries it is simply added to both, and every earlier id survives unless it is the oldest entry of a full queue |
| BleWatcher.RecordKeepsHistory | BleWatcher.cs:127-141 | recording a MsgId keeps the history sound: the set equals the queue's elements, the queue has no repeats and at most 50 ids, and the id is then in the set |
| BleWatcher.RecordEvictsOldest | BleWatcher.cs:131-140 | a new id recorded when the queue is full dequeues the oldest id and removes it from the set |
| BleWatcher.IngestKeepsInv | BleWatcher.cs:77-115 | one packet keeps the receiver invariant: the set and the queue of a sender exist together and agree, and a buffered table is non-empty, of one MsgId, with distinct Indices, for a MsgId not completed |
| BleWatcher.CompleteKeepsInv | BleWatcher.cs:117-152 | completing a message keeps the receiver invariant |
| BleWatcher.DropsCompleted | BleWatcher.cs:88-89 | a packet whose MsgId the sender has completed changes nothing and delivers nothing |
| BleWatcher.FirstWriterWins | BleWatcher.cs:103-106 | a packet whose Index is already held is ignored: the table is unchanged and nothing is delivered |
| BleWatcher.NewFragment | BleWatcher.cs:103-112 | a new fragment delivers exactly when the held count reaches this packet's Total, and then it delivers the payloads joined in Index order; otherwise the fragment is held and the history is unchanged |
| BleWatcher.CompletionRecords | BleWatcher.cs:128-146 | after a completion the MsgId is in the sender's completed set and its table is gone |
| BleWatcher.HandlerThrowsKeepsState | BleWatcher.cs:119-151 | when the MessageReceived handler throws, the message has been raised but neither history nor buffer is updated |
| BleWatcher.OtherSendersUntouched | BleWatcher.cs:91-103 | a packet from one address leaves every other address's buffer, set and queue unchanged |
| BleWatcher.CurrentTotalDecides | BleWatcher.cs:108-111 | an illustration on one message of the rule `NewFragment` states in general: a second fragment announcing Total 2 completes a message whose first fragment announced 3 |
| BleWatcher.DeliverOnceAnyOrder | BleWatcher.cs:77-152 | the packets of a message, received from one sender in any order, deliver the data exactly once and mark the MsgId completed |
| BleWatcher.ReplayDeliversNothing | BleWatcher.cs:88-89 | packets replaying a completed MsgId leave the state as it was and deliver nothing |
| Text.IndexOf | ChatForm.cs:275 | the first position of the character, and -1 exactly when it does not occur |
| Text.Split | DeviceInfo.cs:222 | at least one piece, and no piece holds the separator |
| Text.SplitPieces | DeviceInfo.cs:222 | one piece more than there are separators, and joining the pieces with the separator gives the string back |
| Text.SplitJoin | DeviceInfo.cs:212-222 | splitting a join of parts that do not hold the separator gives the parts back |
| Text.TrimSlice | ChatForm.cs:335 | Trim keeps a middle slice, cuts off only white space, and leaves no white space at either end |
| Text.TrimEmpty | ChatForm.cs:335-336 | Trim gives "" exactly when the whole string is white space |
| Text.TrimIdempotent | ChatForm.cs:308 | trimming twice is trimming once |
| Devices.ToCompactString | DeviceInfo.cs:210-213 | the compact string starts with "DEV" and a pipe; `CompactRoundTrip` parses it back |
| Devices.FromCompactString | DeviceInfo.cs:218-239 | parses exactly when the string starts with "DEV" and a pipe and holds at least five pipes |
| Devices.CompactParts | DeviceInfo.cs:210-213 | the compact string splits into "DEV", the five fields and the comma-joined IP list, when no field holds a pipe |
| Devices.CompactRoundTrip | DeviceInfo.cs:210-239 | parsing the compact string of a record with a non-empty IP list and no separators in its fields gives the record back |
| Devices.CompactEmptyAddresses | DeviceInfo.cs:210-239 | a record with no IP addresses comes back with the one address "" |
| Devices.CompactSixParts | DeviceInfo.cs:222-232 | a record of six parts, without an IP-list part, parses with its five fields and an empty IP list |
| Devices.CompactIgnoresTrailingParts | DeviceInfo.cs:222-232 | parts after the seventh are ignored |
| Devices.BitConverterWithoutDashes | DeviceInfo.cs:49 | removing the dashes from BitConverter's output leaves two upper-case hex digits per byte |
| Devices.HashIdSpellsBytes | DeviceInfo.cs:47-49 | the hash path spells the first eight hash bytes in upper-case hex |
| Devices.GuidIdSpellsDigits | DeviceInfo.cs:55 | the fallback path spells the first 16 GUID digits in upper case |
| Devices.GenerateDeviceId | DeviceInfo.cs:33-57 | with a hash, the id is the first eight hash bytes in upper-case hex; without one, it is the first 16 GUID digits in upper case |
| Devices.DeviceIdShape | DeviceInfo.cs:33-57 | on both paths the device id is 16 upper-case hex digits |
| Devices.DeviceRegistry.constructor | DeviceInfo.cs:252 | the registry starts empty |
| Devices.DeviceRegistry.RegisterDevice | DeviceInfo.cs:258-274 | the record is stored under its id, replacing an earlier one; the event is DeviceDiscovered for a new id and DeviceUpdated otherwise; the count grows by one exactly for a new id |
| Devices.DeviceRegistry.GetDevice | DeviceInfo.cs:284-290 | returns the record stored under the id, and None exactly when there is none |
| Devices.DeviceRegistry.Count | DeviceInfo.cs:292-298 | the count is 0 exactly when the registry holds no record |
| Devices.RegisterStores | DeviceInfo.cs:258-290 | after registering, lookup of the id gives the new record, every other id is unchanged, and DeviceDiscovered is raised exactly when the id was absent |
| Devices.RegisterCount | DeviceInfo.cs:258-298 | the count grows by one exactly when the id was new |
| Devices.RegisterAllCounts | DeviceInfo.cs:258-298 | after a series of registrations the ids are the old ids plus the registered ones, one event is raised per registration, and the count grows by the number of DeviceDiscovered events |
| Chat.Receive | ChatForm.cs:245-289 | a message is ignored or registered exactly when it parses as a discovery record, and only a record of another device is registered; a dropped echo starts with our id and a pipe; shown text is a suffix of the message and carries the command extracted from it |
| Chat.ExtractCommand | ChatForm.cs:291-310 | in the `cmd "…"` form a command is found exactly when the quotes enclose something, and the message is the prefix, the command and the final quote; otherwise a command is found exactly when the message starts with `run:` in any case |
| Chat.DiscoveryRecord | ChatForm.cs:256-271 | a message that parses as a discovery record is ignored when it carries our own id and registered otherwise; it is never shown |
| Chat.MalformedDiscoveryFallsThrough | ChatForm.cs:256-289 | a "DEV" message with a pipe that does not parse is treated as chat text from sender "DEV" |
| Chat.NoSenderPrefix | ChatForm.cs:275-289 | without a first pipe at positions 1..19 the message is shown unchanged |
| Chat.SenderPrefixStripped | ChatForm.cs:275-289 | S, a pipe and t, from a sender id S of 1..19 characters is dropped when S is our id and otherwise shown as exactly t |
| Chat.CmdCommand | ChatForm.cs:293-304 | `cmd "c"` with the prefix in any case yields the command c when c is non-empty |
| Chat.EmptyCmdCommand | ChatForm.cs:293-310 | `cmd ""` and a bare `cmd "` yield no command, and the `run:` form is not consulted |
| Chat.RunCommand | ChatForm.cs:306-310 | `run:rest` with the prefix in any case yields the trimmed rest |
| Chat.NoCommand | ChatForm.cs:293-310 | a message starting with neither form yields no command |
| Chat.Send | ChatForm.cs:333-349 | nothing is sent exactly when the trimmed input is empty; simulation mode loops back exactly the trimmed text; otherwise the payload is our id, a pipe and the trimmed text, which trimming leaves unchanged |
| Chat.LoopbackReceived | ChatForm.cs:335-345 | in simulation mode the receive decision is taken on exactly the trimmed text, with no sender id attached |
| Chat.SendNothing | ChatForm.cs:335-336 | nothing is sent exactly when the input is all white space |
| Chat.DeviceIdIsSenderId | ChatForm.cs:276 | a generated device id is short enough and free of pipes, so it works as a sender prefix |
| Chat.BroadcastReceived | ChatForm.cs:335-349 | the payload built from our id and the trimmed text is dropped by the sender itself and shown as exactly the trimmed text by any other receiver |
| Utf8.Encode | macOS/BleMesh.swift:35 | between one and four bytes per character |
| Utf8.Decode | macOS/BleMesh.swift:49 | a decoded text has at most one character per byte |
| Utf8.DecodeEncodeChar | macOS/BleMesh.swift:35 | a character's UTF-8 bytes decode back to it, whatever follows |
| Utf8.DecodedCharEncodes | macOS/BleMesh.swift:49 | the bytes a decoded character took are exactly its encoding |
| Utf8.DecodeEncode | macOS/BleMesh.swift:34-50 | the strict decoder, applied after a leading byte-order mark, gives every string back from its encoding |
| Utf8.EncodeDecode | macOS/BleMesh.swift:47-50 | whatever the strict decoder accepts is the encoding of its text, so strict decoding loses nothing |
| Utf8.EncodingStartsWithMark | macOS/BleMesh.swift:35-49 | an encoding starts with the byte-order mark EF BB BF exactly when the text starts with U+FEFF |
| Utf8.DecodeDataEncode | macOS/BleMesh.swift:34-50 | `String(data:encoding: .utf8)` of a text's encoding gives the text back less a leading U+FEFF |
| Utf8.EncodeDecodeData | macOS/BleMesh.swift:47-50 | whatever `String(data:encoding: .utf8)` accepts re-encodes to its bytes less a leading byte-order mark |
| Utf8.LeadingMarkLost | macOS/BleMesh.swift:34-50 | U+FEFF followed by "hi" comes back as "hi" |
| BleMesh.ToData | macOS/BleMesh.swift:13-17 | the Swift encoding is the same as the Windows one |
| BleMesh.From | macOS/BleMesh.swift:19-26 | nil exactly for fewer than 3 bytes; otherwise the same packet as the Windows decoder |
| BleMesh.FromToData | macOS/BleMesh.swift:13-26 | decoding an encoded packet gives it back |
| BleMesh.Encrypt | macOS/BleMesh.swift:34-45 | encryption never fails, because aesEncrypt passes the UTF-8 bytes through |
| BleMesh.Decrypt | macOS/BleMesh.swift:47-50 | a decrypted text has at most one character per byte |
| BleMesh.DecryptEncrypt | macOS/BleMesh.swift:34-61 | decrypt(encrypt(s)) is s less a leading U+FEFF, which the decoder takes for a byte-order mark |
| BleMesh.EncryptDecrypt | macOS/BleMesh.swift:34-61 | whatever decrypts encrypts back to the same bytes less a leading byte-order mark |
| BleMesh.EncryptNonEmpty | macOS/BleMesh.swift:34-45 | a non-empty message encrypts to non-empty bytes |
| BleMesh.ManufacturerData | macOS/BleMesh.swift:130-144 | two bytes holding 0x1234 little-endian, then the packet bytes unchanged |
| BleMesh.ParseManufacturerData | macOS/BleMesh.swift:173-186 | a packet comes out exactly when there are at least 2 + 3 bytes and the first two hold 0x1234 little-endian, and it is the packet of the remaining bytes |
| BleMesh.ParseAdvertisement | macOS/BleMesh.swift:130-186 | the manufacturer data of a packet is recognised and parsed back to that packet |
| BleMesh.Adverts | macOS/BleMesh.swift:101-113 | one advertisement per packet, each parsing back to its packet |
| BleMesh.Publish | macOS/BleMesh.swift:81-128 | traps when more than 255 packets are needed; otherwise advertises the manufacturer data of the 21-byte packets of the UTF-8 message, the whole list three times |
| BleMesh.Advertise | macOS/BleMesh.swift:99-127 | the advertising loop emits every packet's manufacturer data in order, once per round |
| BleMesh.MacWatcher.constructor | macOS/BleMesh.swift:152-153 | the buffer and the completed set start empty |
| BleMesh.MacWatcher.DidDiscover | macOS/BleMesh.swift:173-186 | the new state and delivery are those of `MacDiscover`: missing data, a foreign company id or a short packet are ignored, anything else is processed |
| BleMesh.MacWatcher.Process | macOS/BleMesh.swift:188-203 | the new state and delivery are those of `MacProcess`, and the watcher invariant is kept |
| BleMesh.MacWatcher.CompleteMessage | macOS/BleMesh.swift:205-223 | the new state and delivery are those of `MacComplete`: the payloads joined in Index order and decrypted, delivered only when they decode; the MsgId is completed and its table dropped either way |
| BleMesh.JoinLoop | macOS/BleMesh.swift:209-212 | the append loop leaves the payloads of the sorted packets concatenated in order |
| BleMesh.MacProcessKeepsInv | macOS/BleMesh.swift:188-203 | processing keeps the watcher invariant: each table holds packets of its MsgId under their own Index, and no completed MsgId has a table |
| BleMesh.CompletedStaysCompleted | macOS/BleMesh.swift:188-223 | the completed set only grows |
| BleMesh.NewPacket | macOS/BleMesh.swift:195-222 | a new packet completes its MsgId exactly when the table reaches this packet's Total, and then delivers the decrypted join of the table in Index order and drops the table; otherwise it is stored and nothing is delivered |
| BleMesh.HeldIndexIgnored | macOS/BleMesh.swift:188-203 | a packet whose Index is already held is ignored: the state is unchanged and nothing is delivered |
| BleMesh.InOrderSorted | macOS/BleMesh.swift:207 | the values listed by key are strictly sorted by Index and are exactly the table's packets |
| BleMesh.FragmentTableInOrder | macOS/BleMesh.swift:205-212 | the table built from the packets of a message, received in any order, lists them back in order |
| BleMesh.DeliverAnyOrder | macOS/BleMesh.swift:188-223 | the packets of a non-empty message, in any order, deliver it (less a leading U+FEFF) exactly once, complete its MsgId and leave the other tables as they were |
| BleMesh.ReplayDropped | macOS/BleMesh.swift:189 | packets of completed MsgIds change nothing and deliver nothing |
| BleMesh.DiscoverAdverts | macOS/BleMesh.swift:173-186 | discovering the advertisements of packets is processing the packets |
| BleMesh.RoundDropped | macOS/BleMesh.swift:99-122 | a further round of advertisements of a completed message changes nothing and delivers nothing |
| BleMesh.RepeatsDropped | macOS/BleMesh.swift:99-122 | any number of further rounds of a completed message change nothing and deliver nothing |
| BleMesh.PublishedMessageDelivered | macOS/BleMesh.swift:81-223 | everything publish advertises for a message, received by a watcher that has not seen its MsgId, delivers the message, less a leading U+FEFF, exactly once |
| BleMesh.ReusedMsgIdLost | macOS/BleMesh.swift:188-223 | once a MsgId has been delivered, a later message that draws the same MsgId delivers nothing |

## Left out

- AES-128-ECB in BleSecurity.cs is not part of this model. It is a foreign library, and the Windows receiver does not call it.
- BlePublisher.cs, UdpMesh.cs, Program.cs and macOS/ContentView.swift are not part of this model. They are radio, socket, timing and UI code.
- BleWatcher.cs, `OnAdvertisementReceived`: the WinRT callback, its company-id filter and its catch-all, plus `Start`, `Stop` and the `Log` events, are left out. The `lock` is left out too, since `ProcessPacket` is modelled as a sequential step.
- BleWatcher.Watcher.ProcessPacket, BleWatcher.Watcher.CompleteMessage: deliver the reassembled bytes. The lossy `Encoding.UTF8.GetString` that `CompleteMessage` applies to them (BleWatcher.cs:123) is not modelled, because its replacement of invalid sequences is a library detail. A throwing handler is a boolean parameter.
- BleWatcher: a fragment dictionary is kept as a list in arrival order. The Index-sorted result does not depend on that order (`BleProtocol.SortedPermutationUnique`).
- DeviceInfo.cs: `CollectLocalInfo` and the WMI, network-interface and DNS queries are left out, as are JSON, `ToString` and the timestamp. The record holds only the fields that travel in the compact string.
- Devices.GenerateDeviceId: SHA-256 and `Guid.NewGuid` are inputs. The hash is a parameter, None when collecting or hashing throws, and the GUID is its 32 digits.
- DeviceRegistry: `GetAllDevices` only copies the values and is not modelled. The two events are modelled as a returned `RegistryEvent`.
- ChatForm.cs: the window, the list box, the tray icon and `Invoke` marshalling are left out. So are `ExecuteCommand`'s `Process.Start`, which the model replaces with the returned command, and the simulation-mode delay.
- Strings are sequences of Unicode scalar values. .NET indexes UTF-16 code units, so the 20-position sender limit and `Substring(5)` agree with the source only for text without surrogate pairs.
- Chat.Receive, Chat.ExtractCommand: `message.StartsWith("DEV|")` (ChatForm.cs:256) and `message.EndsWith("\"")` (ChatForm.cs:293) pass no `StringComparison`, so .NET compares them culture-sensitively; the model compares ordinally. The two can differ on text with characters the collation ignores, such as U+00AD or U+0000, or with a combining mark at the boundary. For example, `cmd "dir"` followed by U+00AD runs `dir"` in the source and nothing in the model. For the `DEV|` test, a record that parses always starts with `DEV|` ordinally, so only a combining mark right after that prefix can separate the two.
- Chat.ExtractCommand: `OrdinalIgnoreCase` is modelled as ASCII upper-casing. That is exact for the ASCII prefixes `cmd "` and `run:`, since no other character upper-cases to their letters.
- Text.IsWhiteSpace: the `char.IsWhiteSpace` set is written out for the BMP separators and controls. Culture-specific behaviour does not arise.
- Null strings, null payloads and null lists are left out. Dafny values are never null, and the source never produces them on these paths.
- BleProtocol.FragmentCount: `Math.Ceiling((double)n / 240)` and Swift's `ceil(Double(n) / 21)` are modelled as integer ceiling division. The two agree for every length below 2^53.
- BleMesh.Publish: the random MsgId is a parameter. CoreBluetooth advertising, `DispatchQueue` and the 0.2 s dwell are left out; the result is the sequence of manufacturer-data frames in the order they are advertised. The `UInt8` conversion trap is a `Failure` result.
- BleMesh.MacWatcher.DidDiscover: the advertisement dictionary is reduced to its manufacturer data, None when that key is absent or not `Data`.
- macOS/BleMesh.swift: printing and the `onMessageReceived` callback are left out. The watcher methods return the delivered text instead.
