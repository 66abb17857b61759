/**
 The two ends together: the bytes the server writes for a run of polled states, read by the
 client in one go, give the client exactly the effect of handling those states one by one.
 The JSON library is a pair of parameters here; what the lemmas need of it is stated as
 hypotheses: its text is ASCII and has no line break, it decodes what it encoded, and it
 decodes the empty piece to the null object.
 */
module Relay {
  import opened Wrappers
  import opened DotNet
  import opened Packets
  import opened Client
  import opened Server

  /** The text of `k` frames followed by `tail` is the messages and the tail joined by `'\n'`. */
  lemma {:induction false} FramesThen(ms: seq<string>, tail: string)
    requires forall i :: 0 <= i < |ms| ==> IsAscii(ms[i])
    ensures AsciiDecode(Frames(ms)) + tail == Join(ms + [tail], '\n')
  {
    if ms == [] {
      assert [] + [tail] == [tail];
    } else {
      FramesThen(ms[1..], tail);
      assert IsAscii(ms[0] + "\n");
      AsciiRoundTrip(ms[0] + "\n");
      AsciiDecodeAppend(Frame(ms[0]), Frames(ms[1..]));
      assert (ms + [tail])[1..] == ms[1..] + [tail];
    }
  }

  /** Splitting `k` frames gives the `k` messages, in order, and then one empty piece. */
  lemma FramesSplit(ms: seq<string>)
    requires forall i :: 0 <= i < |ms| ==> IsAscii(ms[i]) && '\n' !in ms[i]
    ensures Pieces(Frames(ms)) == ms + [""]
  {
    FramesThen(ms, "");
    assert AsciiDecode(Frames(ms)) + "" == AsciiDecode(Frames(ms));
    SplitJoin(ms + [""], '\n');
  }

  /** The text of `k` frames and then part of one more frame. */
  lemma FramesThenPartialText(ms: seq<string>, partial: string)
    requires forall i :: 0 <= i < |ms| ==> IsAscii(ms[i])
    requires IsAscii(partial)
    ensures AsciiDecode(Frames(ms) + AsciiEncode(partial)) == Join(ms + [partial], '\n')
  {
    calc {
      AsciiDecode(Frames(ms) + AsciiEncode(partial));
      { AsciiDecodeAppend(Frames(ms), AsciiEncode(partial)); }
      AsciiDecode(Frames(ms)) + AsciiDecode(AsciiEncode(partial));
      { AsciiRoundTrip(partial); }
      AsciiDecode(Frames(ms)) + partial;
      { FramesThen(ms, partial); }
      Join(ms + [partial], '\n');
    }
  }

  /** A read that stops inside a frame hands the partial frame over as the last piece; it is
      not kept for the next read. */
  lemma FramesCutMidRecord(ms: seq<string>, partial: string)
    requires forall i :: 0 <= i < |ms| ==> IsAscii(ms[i]) && '\n' !in ms[i]
    requires IsAscii(partial) && '\n' !in partial
    ensures Pieces(Frames(ms) + AsciiEncode(partial)) == ms + [partial]
  {
    FramesThenPartialText(ms, partial);
    forall i | 0 <= i < |ms| + 1
      ensures '\n' !in (ms + [partial])[i]
    {
      if i < |ms| {
        assert (ms + [partial])[i] == ms[i];
      }
    }
    SplitJoin(ms + [partial], '\n');
  }

  /** A final outcome that does nothing changes nothing. */
  lemma {:induction false} ReplayTrailingNoAction(hs: seq<Handled>)
    ensures Replay(hs + [NoAction]) == Replay(hs)
  {
    if hs == [] {
      assert [NoAction][1..] == [];
    } else {
      ReplayTrailingNoAction(hs[1..]);
      assert (hs + [NoAction])[1..] == hs[1..] + [NoAction];
    }
  }

  /** The client-side effect of each state, handled directly. */
  function PacketOutcomes(packets: seq<StatePacket>): (hs: seq<Handled>)
  {
    seq(|packets|, i requires 0 <= i < |packets| => HandlePacket(packets[i]))
  }

  /**
   Reading in one go what the server wrote for `packets` has the effect of handling the
   packets one by one: the framing adds and loses nothing.
   */
  lemma ClientReplaysServer(packets: seq<StatePacket>, encode: StatePacket -> string, decode: string -> DecodeOutcome)
    requires forall i :: 0 <= i < |packets| ==> IsAscii(encode(packets[i])) && '\n' !in encode(packets[i])
    requires forall i :: 0 <= i < |packets| ==> decode(encode(packets[i])) == Decoded(packets[i])
    requires decode("") == NullObject
    ensures Receive(Frames(Messages(packets, encode)), decode) == Replay(PacketOutcomes(packets))
  {
    var ms := Messages(packets, encode);
    FramesSplit(ms);
    var hs := Outcomes(ms + [""], decode);
    assert hs == PacketOutcomes(packets) + [NoAction];
    ReplayTrailingNoAction(PacketOutcomes(packets));
  }

  /**
   The whole relay for one batch: a server with a joystick and an attached client polls
   `packets`; the client receives the bytes and reads once. The client then holds the
   events of handling the packets directly.
   */
  method RelayScenario(packets: seq<StatePacket>, encode: StatePacket -> string, decode: string -> DecodeOutcome)
    returns (events: seq<ButtonEvent>, fault: Option<Fault>)
    requires forall i :: 0 <= i < |packets| ==> IsAscii(encode(packets[i])) && '\n' !in encode(packets[i])
    requires forall i :: 0 <= i < |packets| ==> decode(encode(packets[i])) == Decoded(packets[i])
    requires decode("") == NullObject
    ensures events == Replay(PacketOutcomes(packets)).events
    ensures fault == Replay(PacketOutcomes(packets)).fault
  {
    ghost var bytes := Frames(Messages(packets, encode));
    ClientReplaysServer(packets, encode, decode);
    var server := new NetJoyServer();
    server.AcquireJoystick();
    var id := server.AcceptCallback();
    server.PollOnce(packets, encode);
    assert server.streams[id] == [] + bytes == bytes;
    var client := new NetJoyClient();
    client.Connected();
    client.Deliver(server.streams[id]);
    assert client.available == bytes && client.emitted == [];
    fault := client.Read(decode);
    events := client.emitted;
    if packets == [] {
      assert Messages(packets, encode) == [] && PacketOutcomes(packets) == [];
    } else {
      assert |Frame(Messages(packets, encode)[0])| > 0;
    }
  }
}
