/**
 `NetJoyServer`: the send path. Each accepted connection replaces the single client slot;
 every polled state change is serialised and written to the current client as one line;
 with no client attached the line is dropped.
 */
module Server {
  import opened Wrappers
  import opened DotNet
  import opened Packets

  /** The bytes `Send` writes for one message: its ASCII encoding and one `'\n'`. */
  function Frame(message: string): (bytes: seq<byte>)
    ensures bytes == AsciiEncode(message) + ['\n' as int]
  {
    AsciiEncodeAppend(message, "\n");
    AsciiEncode(message + "\n")
  }

  /** The bytes written for several messages, one frame after the other. */
  function Frames(messages: seq<string>): (bytes: seq<byte>)
  {
    if messages == [] then [] else Frame(messages[0]) + Frames(messages[1..])
  }

  /** The serialised form of each buffered state change, in buffer order. */
  function Messages(buffered: seq<StatePacket>, encode: StatePacket -> string): (ms: seq<string>)
  {
    seq(|buffered|, i requires 0 <= i < |buffered| => encode(buffered[i]))
  }

  /** Frames append: writing `ms` then `m` writes the frames of `ms + [m]`. */
  lemma {:induction false} FramesAppend(ms: seq<string>, m: string)
    ensures Frames(ms + [m]) == Frames(ms) + Frame(m)
  {
    if ms == [] {
      assert [m][1..] == [];
    } else {
      FramesAppend(ms[1..], m);
      assert (ms + [m])[1..] == ms[1..] + [m];
    }
  }

  class NetJoyServer {
    /** `_joystick != null`: a device was selected and acquired. */
    var joystickAcquired: bool
    /** `_clientSocket`: which accepted connection, if any, sends go to. */
    var client: Option<nat>
    /** The bytes written to each accepted connection, in order of acceptance. */
    var streams: seq<seq<byte>>

    ghost predicate Valid()
      reads this
    {
      client.Some? ==> client.value < |streams|
    }

    constructor ()
      ensures Valid() && !joystickAcquired && client == None && streams == []
    {
      joystickAcquired, client, streams := false, None, [];
    }

    /** `GetJoystick` having found and acquired a device. */
    method AcquireJoystick()
      requires Valid()
      modifies this
      ensures Valid() && joystickAcquired && client == old(client) && streams == old(streams)
    {
      joystickAcquired := true;
    }

    /** `AcceptCallback`: the new connection becomes the client; earlier ones keep what they
        were sent and receive nothing more. */
    method AcceptCallback() returns (id: nat)
      requires Valid()
      modifies this
      ensures Valid()
      ensures id == |old(streams)| && streams == old(streams) + [[]] && client == Some(id)
      ensures joystickAcquired == old(joystickAcquired)
    {
      id := |streams|;
      streams := streams + [[]];
      client := Some(id);
    }

    /** `Send`: with no client the message is dropped; otherwise its frame is appended to
        the current client's stream and no other stream changes. */
    method Send(message: string)
      requires Valid()
      modifies this
      ensures Valid() && client == old(client) && joystickAcquired == old(joystickAcquired)
      ensures client.None? ==> streams == old(streams)
      ensures client.Some? ==> streams == old(streams)[client.value := old(streams)[client.value] + Frame(message)]
    {
      if client.None? {
        return;
      }
      var byteData := AsciiEncode(message + "\n");
      streams := streams[client.value := streams[client.value] + byteData];
    }

    /**
     One pass of the controller-listener loop: with no joystick nothing happens; otherwise
     every buffered state change is serialised with `encode` and sent, in buffer order.
     */
    method PollOnce(buffered: seq<StatePacket>, encode: StatePacket -> string)
      requires Valid()
      modifies this
      ensures Valid() && client == old(client) && joystickAcquired == old(joystickAcquired)
      ensures !joystickAcquired || client.None? ==> streams == old(streams)
      ensures joystickAcquired && client.Some? ==>
                streams == old(streams)[client.value := old(streams)[client.value] + Frames(Messages(buffered, encode))]
    {
      if !joystickAcquired {
        return;
      }
      ghost var msgs := Messages(buffered, encode);
      var i := 0;
      if client.Some? {
        assert msgs[..0] == [] && old(streams)[client.value] + [] == old(streams)[client.value];
      }
      while i < |buffered|
        invariant 0 <= i <= |buffered|
        invariant Valid() && client == old(client) && joystickAcquired
        invariant client.None? ==> streams == old(streams)
        invariant client.Some? ==>
                    streams == old(streams)[client.value := old(streams)[client.value] + Frames(msgs[..i])]
      {
        var jsonData := encode(buffered[i]);
        ghost var before := streams;
        Send(jsonData);
        FramesAppend(msgs[..i], jsonData);
        assert msgs[..i + 1] == msgs[..i] + [jsonData];
        if client.Some? {
          var c := client.value;
          assert before[c] == old(streams)[c] + Frames(msgs[..i]);
          assert streams == before[c := before[c] + Frame(jsonData)];
          assert old(streams)[c] + Frames(msgs[..i]) + Frame(jsonData) == old(streams)[c] + Frames(msgs[..i + 1]);
        }
        i := i + 1;
      }
      assert msgs[..i] == msgs;
    }
  }

  // ---------------------------------------------------------------- stick selection

  datatype Device = Device(productName: string, instanceGuid: nat)

  /** One round of `SelectStick`: the devices it lists and the line then typed. */
  datatype Scan = Scan(devices: seq<Device>, line: Option<string>)

  /** The device a round selects: the typed number must parse and lie in 1..count. */
  function StickChoice(scan: Scan): (guid: Option<nat>)
  {
    match ParseInt32(scan.line)
    case Some(choice) =>
      if 1 <= choice <= |scan.devices| then Some(scan.devices[choice - 1].instanceGuid) else None
    case None => None
  }

  /**
   `SelectStick`: rounds repeat until one selects a device; `used` is the number of rounds
   taken. `None` means the rounds ran out first (the source would keep asking).
   */
  method SelectStick(scans: seq<Scan>) returns (guid: Option<nat>, used: nat)
    ensures used <= |scans|
    ensures forall j :: 0 <= j < used - 1 ==> StickChoice(scans[j]).None?
    ensures guid.Some? ==> 0 < used && StickChoice(scans[used - 1]) == guid
    ensures guid.None? ==> used == |scans| && forall j :: 0 <= j < |scans| ==> StickChoice(scans[j]).None?
  {
    used, guid := 0, None;
    while used < |scans| && guid.None?
      invariant used <= |scans|
      invariant forall j :: 0 <= j < used - 1 ==> StickChoice(scans[j]).None?
      invariant guid.None? ==> forall j :: 0 <= j < used ==> StickChoice(scans[j]).None?
      invariant guid.Some? ==> 0 < used && StickChoice(scans[used - 1]) == guid
    {
      guid := StickChoice(scans[used]);
      used := used + 1;
    }
  }

  /** A round with no devices never selects; with devices, only numbers 1..count do. */
  lemma StickChoiceRange(scan: Scan, choice: int32)
    requires ParseInt32(scan.line) == Some(choice)
    ensures StickChoice(scan).Some? <==> 1 <= choice <= |scan.devices|
    ensures StickChoice(scan).Some? ==> StickChoice(scan).value == scan.devices[choice - 1].instanceGuid
  {
  }

  // ---------------------------------------------------------------- scenarios

  /**
   Client A connects and is sent `first`; client B connects and is sent `second`: A holds
   only the frame of `first`, B only that of `second`.
   */
  method ReplacedClientScenario(first: string, second: string) returns (a: seq<byte>, b: seq<byte>)
    ensures a == Frame(first) && b == Frame(second)
  {
    var server := new NetJoyServer();
    var idA := server.AcceptCallback();
    server.Send(first);
    var idB := server.AcceptCallback();
    server.Send(second);
    a, b := server.streams[idA], server.streams[idB];
  }

  /**
   States polled before any client attaches are lost; once a client attaches it receives
   the later ones, in poll order.
   */
  method DetachedStatesDiscardedScenario(early: seq<StatePacket>, late: seq<StatePacket>, encode: StatePacket -> string)
    returns (delivered: seq<seq<byte>>)
    ensures delivered == [Frames(Messages(late, encode))]
  {
    var server := new NetJoyServer();
    server.AcquireJoystick();
    server.PollOnce(early, encode);
    var id := server.AcceptCallback();
    server.PollOnce(late, encode);
    assert [] + Frames(Messages(late, encode)) == Frames(Messages(late, encode));
    delivered := server.streams;
  }
}
