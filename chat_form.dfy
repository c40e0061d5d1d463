/**
 * The decisions the chat window takes on an inbound message and on sending
 * (ChatForm.OnMessageReceived and SendButton_Click), as functions returning
 * what the window then does.
 */
module Chat {
  import opened Wrappers
  import opened Text
  import opened Devices

  /** What the window does with an inbound message. */
  datatype Inbound =
    | IgnoreOwnDevice                             // our own discovery record
    | RegisterPeer(device: DeviceInfo)            // handed to DeviceRegistry.RegisterDevice
    | DropLoopback                                // our own chat message, echoed back
    | Show(text: string, command: Option<string>) // shown as "Peer: text"; the command, if any, is run

  /** A first '|' strictly before this position marks a sender id prefix. */
  const SenderIdLimit := 20

  const CmdPrefix := "cmd \""
  const RunPrefix := "run:"

  /** `cmd "` (any case) at the start and a final `"`. */
  predicate IsCmdForm(message: string)
  {
    StartsWithIgnoreCase(message, CmdPrefix) && EndsWith(message, "\"")
  }

  /**
   * The remote command in a shown message: the text between `cmd "` (any
   * case) and a final `"`, when there is any; otherwise, for a message that
   * is not of that form, the trimmed rest after `run:` (any case).
   */
  function ExtractCommand(message: string): (r: Option<string>)
    ensures IsCmdForm(message) ==> (r.Some? <==> |message| > |CmdPrefix| + 1)
    ensures IsCmdForm(message) && r.Some? ==> message == message[..|CmdPrefix|] + r.value + "\""
    ensures !IsCmdForm(message) ==> (r.Some? <==> StartsWithIgnoreCase(message, RunPrefix))
  {
    if IsCmdForm(message) then
      var length := |message| - |CmdPrefix| - 1;
      if length > 0 then Some(message[|CmdPrefix|..|CmdPrefix| + length]) else None
    else if StartsWithIgnoreCase(message, RunPrefix) then
      Some(Trim(message[|RunPrefix|..]))
    else None
  }

  function Deliver(text: string): Inbound
  {
    Show(text, ExtractCommand(text))
  }

  /**
   * OnMessageReceived: a "DEV|" message that parses is a discovery record,
   * ignored when it is our own; anything else loses a sender id prefix (a
   * first '|' at positions 1..19), is dropped when that id is ours, and is
   * otherwise shown.
   */
  function Receive(message: string, localId: string): (r: Inbound)
    ensures r.IgnoreOwnDevice? || r.RegisterPeer? <==> FromCompactString(message).Some?
    ensures r.RegisterPeer? ==> FromCompactString(message) == Some(r.device) && r.device.deviceId != localId
    ensures r.DropLoopback? ==> |localId| < |message| && message[..|localId|] == localId && message[|localId|] == '|'
    ensures r.Show? ==> r.command == ExtractCommand(r.text) && |r.text| <= |message| &&
                        r.text == message[|message| - |r.text|..]
  {
    if StartsWith(message, "DEV|") && FromCompactString(message).Some? then
      var device := FromCompactString(message).value;
      if device.deviceId == localId then IgnoreOwnDevice else RegisterPeer(device)
    else
      assert FromCompactString(message).None? by {
        assert Tag + "|" == "DEV|";
      }
      var separator := IndexOf(message, '|');
      if 0 < separator < SenderIdLimit then
        if message[..separator] == localId then
          assert |localId| == separator && message[separator] == '|';
          DropLoopback
        else
          var text := message[separator + 1..];
          assert message[|message| - |text|..] == text;
          Deliver(text)
      else Deliver(message)
  }

  // ---------------------------------------------------------------------------
  // Inbound properties
  // ---------------------------------------------------------------------------

  /** A discovery record is registered unless it carries our own id, and is never shown. */
  lemma DiscoveryRecord(message: string, localId: string, d: DeviceInfo)
    requires FromCompactString(message) == Some(d)
    ensures Receive(message, localId) == (if d.deviceId == localId then IgnoreOwnDevice else RegisterPeer(d))
  {
  }

  /** A discovery record that does not parse is treated like chat text from sender "DEV". */
  lemma MalformedDiscoveryFallsThrough(message: string, localId: string)
    requires StartsWith(message, "DEV|") && FromCompactString(message).None?
    ensures Receive(message, localId) == (if localId == "DEV" then DropLoopback else Deliver(message[4..]))
  {
    DiscoverySeparator(message);
    assert message[..3] == "DEV";
  }

  /** A message starting "DEV|" has its first '|' at position 3. */
  lemma DiscoverySeparator(message: string)
    ensures StartsWith(message, "DEV|") ==> IndexOf(message, '|') == 3
  {
    if StartsWith(message, "DEV|") {
      assert message[..3] == "DEV" && message[3] == '|';
      IndexOfAt(message, '|', 3);
    }
  }

  /** Without a '|' at positions 1..19 the message is shown unchanged. */
  lemma NoSenderPrefix(message: string, localId: string)
    requires !(0 < IndexOf(message, '|') < SenderIdLimit)
    ensures Receive(message, localId) == Deliver(message)
  {
    DiscoverySeparator(message);
  }

  /** A sender id of 1..19 characters without '|', other than "DEV". */
  predicate IsSenderId(id: string)
  {
    0 < |id| < SenderIdLimit && '|' !in id && id != "DEV"
  }

  /**
   * "S|t" from a sender S other than ourselves is shown as exactly t; from
   * ourselves it is dropped.
   */
  lemma SenderPrefixStripped(sender: string, text: string, localId: string)
    requires IsSenderId(sender)
    ensures Receive(sender + "|" + text, localId) ==
              (if sender == localId then DropLoopback else Deliver(text))
  {
    var message := sender + "|" + text;
    assert message[..|sender|] == sender && message[|sender|] == '|';
    IndexOfAt(message, '|', |sender|);
    assert message[|sender| + 1..] == text;
    if StartsWith(message, "DEV|") {
      assert message[..3] == "DEV";
    }
  }

  // ---------------------------------------------------------------------------
  // Command extraction
  // ---------------------------------------------------------------------------

  /** `cmd "c"` (the prefix in any case) yields c whenever c is not empty. */
  lemma CmdCommand(prefix: string, command: string)
    requires |prefix| == |CmdPrefix| && StartsWithIgnoreCase(prefix, CmdPrefix)
    requires command != []
    ensures ExtractCommand(prefix + command + "\"") == Some(command)
  {
    var m := prefix + command + "\"";
    assert m[|m| - 1..] == "\"";
    assert m[|CmdPrefix|..|CmdPrefix| + |command|] == command;
  }

  /**
   * `cmd ""` and a bare `cmd "` yield no command: the quotes enclose nothing,
   * and the `run:` form is then not consulted.
   */
  lemma EmptyCmdCommand(prefix: string)
    requires |prefix| == |CmdPrefix| && StartsWithIgnoreCase(prefix, CmdPrefix)
    ensures ExtractCommand(prefix + "\"") == None
    ensures ExtractCommand(prefix) == None
  {
    assert AsciiUpper(prefix[4]) == '"';
    assert prefix[|prefix| - 1..] == "\"";
    var m := prefix + "\"";
    assert m[|m| - 1..] == "\"";
    assert StartsWithIgnoreCase(m, CmdPrefix) by {
      assert forall k :: 0 <= k < |CmdPrefix| ==> m[k] == prefix[k];
    }
  }

  /** `run:rest` (the prefix in any case) yields the trimmed rest. */
  lemma RunCommand(prefix: string, rest: string)
    requires |prefix| == |RunPrefix| && StartsWithIgnoreCase(prefix, RunPrefix)
    ensures ExtractCommand(prefix + rest) == Some(Trim(rest))
  {
    var m := prefix + rest;
    assert AsciiUpper(m[0]) == 'R';
    assert m[|RunPrefix|..] == rest;
  }

  /** A message that starts with neither form yields no command. */
  lemma NoCommand(message: string)
    requires !StartsWithIgnoreCase(message, CmdPrefix) && !StartsWithIgnoreCase(message, RunPrefix)
    ensures ExtractCommand(message) == None
  {
  }

  // ---------------------------------------------------------------------------
  // Sending
  // ---------------------------------------------------------------------------

  /** What SendButton_Click does with the text box content. */
  datatype Outbound =
    | Nothing                   // nothing to send
    | Loopback(text: string)    // simulation mode: handed straight to OnMessageReceived
    | Broadcast(payload: string) // published over BLE and UDP

  /** The trimmed text, prefixed with our id and '|', unless it is empty. */
  function Send(input: string, localId: string, simulation: bool): (r: Outbound)
    ensures r.Nothing? <==> Trim(input) == ""
    ensures !r.Nothing? ==> (r.Loopback? <==> simulation)
    ensures r.Loopback? ==> r.text == Trim(input)
    ensures r.Broadcast? ==> r.payload == localId + "|" + Trim(input)
    ensures r.Broadcast? ==> |r.payload| > |localId| + 1 && r.payload[..|localId| + 1] == localId + "|" &&
                             Trim(r.payload[|localId| + 1..]) == r.payload[|localId| + 1..]
  {
    TrimIdempotent(input);
    var text := Trim(input);
    if text == "" then Nothing
    else if simulation then Loopback(text)
    else Broadcast(localId + "|" + text)
  }

  /** Nothing is sent exactly when the input is all white space. */
  lemma SendNothing(input: string, localId: string, simulation: bool)
    ensures Send(input, localId, simulation) == Nothing <==>
              forall k :: 0 <= k < |input| ==> IsWhiteSpace(input[k])
  {
    TrimEmpty(input);
  }

  /**
   * Simulation mode: the trimmed text itself is handed to the receive
   * decision, with no sender id attached.
   */
  lemma LoopbackReceived(input: string, localId: string)
    requires Trim(input) != ""
    ensures Send(input, localId, true) == Loopback(Trim(input))
    ensures Receive(Send(input, localId, true).text, localId) == Receive(Trim(input), localId)
  {
  }

  /** Every generated device id can serve as a sender id prefix. */
  lemma DeviceIdIsSenderId(id: string)
    requires IsDeviceId(id)
    ensures IsSenderId(id)
  {
    assert '|' !in id by {
      forall k | 0 <= k < |id| ensures id[k] != '|' {
        assert IsUpperHex(id[k]);
      }
    }
  }

  /**
   * End to end: a peer whose id is a generated device id broadcasts its
   * trimmed text; a receiver with another id shows exactly that text, and the
   * sender itself drops the echo.
   */
  lemma BroadcastReceived(input: string, senderId: string, receiverId: string)
    requires IsDeviceId(senderId)
    requires Send(input, senderId, false).Broadcast?
    ensures Receive(Send(input, senderId, false).payload, receiverId) ==
              (if receiverId == senderId then DropLoopback else Deliver(Trim(input)))
  {
    DeviceIdIsSenderId(senderId);
    SenderPrefixStripped(senderId, Trim(input), receiverId);
  }
}
