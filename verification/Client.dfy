/**
 `NetJoyClient`: the receive path. Each read takes every byte the socket holds, decodes it
 as ASCII, splits it on `'\n'` and handles the pieces in order. A piece that names a button
 turns into a button event `(index, pressed)` handed to the joystick handler; everything
 else is ignored, except that some malformed input raises an exception nothing catches.
 */
module Client {
  import opened Wrappers
  import opened DotNet
  import opened Packets
  import opened Controller
  import opened Handling

  /** What the client asks the joystick handler to do: set button `index` to `pressed`. */
  datatype ButtonEvent = ButtonEvent(index: int32, pressed: bool)

  /** The exceptions that escape `HandleData`. */
  datatype Fault =
    | NullReference        // dereferencing a null offset
    | ArgumentOutOfRange   // `Substring` past the end of the offset
    | Deserialize          // the deserializer rejecting a piece

  /** The effect of handling one piece. */
  datatype Handled = NoAction | Emit(event: ButtonEvent) | Throw(fault: Fault)

  /** The effect of handling the pieces of one read: the events, in order, and the
      exception that ended it early, if any. */
  datatype ReadResult = ReadResult(events: seq<ButtonEvent>, fault: Option<Fault>)

  const ButtonWord: string := "Button"
  /** The index `"Button".Length + 1` from which the button number is parsed. */
  const SuffixStart: nat := |ButtonWord| + 1

  /**
   `HandleButtonUpdate`: parse the offset from character 7 on, add one with `int`
   wrap-around, and emit an event when the result is positive. Only a suffix parsing to
   `0 <= n < int.MaxValue` survives: -1 becomes 0, smaller values stay negative, and
   `int.MaxValue` wraps to `int.MinValue`.
   */
  function HandleButtonUpdate(packet: StatePacket): (h: Handled)
    ensures h.Throw? <==> packet.offset.None? || |packet.offset.value| < SuffixStart
    ensures h.Throw? ==> h.fault == (if packet.offset.None? then NullReference else ArgumentOutOfRange)
    ensures h.Emit? ==> h.event.index > 0 && h.event.pressed == IsPressed(packet.value)
    ensures h.Emit? ==>
              var n := ParseInt32(Some(packet.offset.value[SuffixStart..]));
              n.Some? && n.value < Int32Max && h.event.index == n.value + 1
  {
    match packet.offset
    case None => Throw(NullReference)
    case Some(offset) =>
      if |offset| < SuffixStart then Throw(ArgumentOutOfRange)
      else match ParseInt32(Some(offset[SuffixStart..]))
        case None => NoAction
        case Some(n) =>
          var index := Wrap32(n + 1);
          if index <= 0 then NoAction else Emit(ButtonEvent(index, packet.value == 128))
  }

  /** Both directions of `HandleButtonUpdate` once the offset is long enough: a suffix that
      parses to `0 <= n < int.MaxValue` emits button `n + 1`; any other suffix does nothing. */
  lemma ButtonUpdateCases(packet: StatePacket)
    requires packet.offset.Some? && |packet.offset.value| >= SuffixStart
    ensures var n := ParseInt32(Some(packet.offset.value[SuffixStart..]));
            HandleButtonUpdate(packet) ==
              if n.Some? && 0 <= n.value < Int32Max then Emit(ButtonEvent(n.value + 1, IsPressed(packet.value)))
              else NoAction
  {
  }

  /** `HandleData` after deserialisation: a null offset is ignored, and only an offset
      containing `"Button"` is handled, as a button. */
  function HandlePacket(packet: StatePacket): (h: Handled)
    ensures h != NoAction ==> packet.offset.Some? && Contains(packet.offset.value, ButtonWord)
    ensures h.Throw? ==> h.fault == ArgumentOutOfRange
  {
    match packet.offset
    case None => NoAction
    case Some(offset) => if Contains(offset, ButtonWord) then HandleButtonUpdate(packet) else NoAction
  }

  /** `HandleData`: deserialise one piece with `decode`, then handle the packet. */
  function HandleData(piece: string, decode: string -> DecodeOutcome): (h: Handled)
    ensures h == Throw(Deserialize) <==> decode(piece).Malformed?
    ensures decode(piece).NullObject? ==> h == NoAction
  {
    match decode(piece)
    case Malformed => Throw(Deserialize)
    case NullObject => NoAction
    case Decoded(packet) => HandlePacket(packet)
  }

  /** The effect of handling outcomes in order: events accumulate until the first exception,
      which abandons the rest. */
  function Replay(hs: seq<Handled>): (r: ReadResult)
  {
    if hs == [] then ReadResult([], None)
    else match hs[0]
      case Throw(f) => ReadResult([], Some(f))
      case NoAction => Replay(hs[1..])
      case Emit(e) =>
        var rest := Replay(hs[1..]);
        ReadResult([e] + rest.events, rest.fault)
  }

  /** Replaying from position `i` is the effect of outcome `i` followed by replaying the rest. */
  lemma ReplayStep(hs: seq<Handled>, i: nat)
    requires i < |hs|
    ensures hs[i].Throw? ==> Replay(hs[i..]) == ReadResult([], Some(hs[i].fault))
    ensures hs[i].NoAction? ==> Replay(hs[i..]) == Replay(hs[i + 1..])
    ensures hs[i].Emit? ==> Replay(hs[i..]) == ReadResult([hs[i].event] + Replay(hs[i + 1..]).events, Replay(hs[i + 1..]).fault)
  {
    assert hs[i..][0] == hs[i] && hs[i..][1..] == hs[i + 1..];
  }

  /** The events among some outcomes, in order. */
  function Emitted(hs: seq<Handled>): (events: seq<ButtonEvent>)
  {
    if hs == [] then []
    else (if hs[0].Emit? then [hs[0].event] else []) + Emitted(hs[1..])
  }

  /** The outcome of each piece. */
  function Outcomes(pieces: seq<string>, decode: string -> DecodeOutcome): (hs: seq<Handled>)
  {
    seq(|pieces|, i requires 0 <= i < |pieces| => HandleData(pieces[i], decode))
  }

  /** The pieces one read hands to `HandleData`. */
  function Pieces(bytes: seq<byte>): (pieces: seq<string>)
  {
    Split(AsciiDecode(bytes), '\n')
  }

  /** What one read of `bytes` does. */
  function Receive(bytes: seq<byte>, decode: string -> DecodeOutcome): (r: ReadResult)
  {
    Replay(Outcomes(Pieces(bytes), decode))
  }

  class NetJoyClient {
    /** `_client != null`: the connect callback has completed. */
    var connected: bool
    /** The bytes waiting on the socket (`Available` of them). */
    var available: seq<byte>
    /** Every button event handed to the joystick handler so far. */
    var emitted: seq<ButtonEvent>

    constructor ()
      ensures !connected && available == [] && emitted == []
    {
      connected, available, emitted := false, [], [];
    }

    /** `ConnectCallback` storing the connected socket. */
    method Connected()
      modifies this
      ensures connected && available == [] && emitted == old(emitted)
    {
      connected, available := true, [];
    }

    /** Bytes arriving from the server. */
    method Deliver(bytes: seq<byte>)
      requires connected
      modifies this
      ensures connected && available == old(available) + bytes && emitted == old(emitted)
    {
      available := available + bytes;
    }

    /**
     `Read`: with no socket or nothing available, nothing happens. Otherwise every available
     byte is taken (nothing is kept for the next read) and the pieces are handled in order;
     an exception ends the read early and is returned as `fault`.
     */
    method Read(decode: string -> DecodeOutcome) returns (fault: Option<Fault>)
      modifies this
      ensures connected == old(connected)
      ensures !old(connected) || |old(available)| == 0 ==>
                available == old(available) && emitted == old(emitted) && fault == None
      ensures old(connected) && |old(available)| > 0 ==>
                available == [] &&
                emitted == old(emitted) + Receive(old(available), decode).events &&
                fault == Receive(old(available), decode).fault
    {
      if !connected {
        return None;
      }
      if |available| <= 0 {
        return None;
      }
      var bytes := available;
      available := [];
      var data := Split(AsciiDecode(bytes), '\n');
      ghost var hs := Outcomes(data, decode);
      ghost var whole := Replay(hs);
      assert whole == Receive(bytes, decode);
      assert hs[0..] == hs && |hs| == |data|;
      var i := 0;
      while i < |data|
        invariant 0 <= i <= |data| == |hs|
        invariant available == [] && connected
        invariant old(emitted) + whole.events == emitted + Replay(hs[i..]).events
        invariant whole.fault == Replay(hs[i..]).fault
      {
        var h := HandleData(data[i], decode);
        assert h == hs[i];
        ReplayStep(hs, i);
        if h.Throw? {
          assert emitted == old(emitted) + whole.events && whole.fault == Some(h.fault);
          return Some(h.fault);
        }
        if h.Emit? {
          ghost var rest := Replay(hs[i + 1..]).events;
          assert emitted + ([h.event] + rest) == (emitted + [h.event]) + rest;
          emitted := emitted + [h.event];
        }
        i := i + 1;
      }
      assert hs[i..] == [];
      fault := None;
    }
  }

  /** `GetValidInt`: read lines until one parses as an `int`; `used` is how many were read. */
  method GetValidInt(lines: seq<Option<string>>) returns (port: Option<int32>, used: nat)
    ensures used <= |lines|
    ensures forall j :: 0 <= j < used - 1 ==> ParseInt32(lines[j]).None?
    ensures port.Some? ==> 0 < used && ParseInt32(lines[used - 1]) == port
    ensures port.None? ==> used == |lines| && forall j :: 0 <= j < |lines| ==> ParseInt32(lines[j]).None?
  {
    used := 0;
    while used < |lines|
      invariant used <= |lines|
      invariant forall j :: 0 <= j < used ==> ParseInt32(lines[j]).None?
    {
      var parsed := ParseInt32(lines[used]);
      used := used + 1;
      if parsed.Some? {
        return parsed, used;
      }
    }
    port := None;
  }

  // ---------------------------------------------------------------- properties

  /** A null object or a null offset causes no action. */
  lemma NullRecordsIgnored(piece: string, decode: string -> DecodeOutcome)
    requires decode(piece).NullObject? || (decode(piece).Decoded? && decode(piece).packet.offset.None?)
    ensures HandleData(piece, decode) == NoAction
  {
  }

  /** Axis records are never applied by the client. */
  lemma AxisRecordsIgnored(packet: StatePacket)
    requires StateToXbox360Axis(packet).Some?
    ensures HandlePacket(packet) == NoAction
  {
    var offset := packet.offset.value;
    assert 'B' !in offset by {
      AxisRecognisedOnlyForSticks(packet);
    }
    NotContainsWithoutHead(offset, ButtonWord);
  }

  /** Any offset of the form `Buttons<n>` names button `n + 1`, for `0 <= n < int.MaxValue`. */
  lemma ButtonNumberFromSuffix(n: int32, value: int32)
    requires 0 <= n < Int32Max
    ensures HandlePacket(StatePacket(Some("Buttons" + FormatInt32(n)), value)) ==
            Emit(ButtonEvent(n + 1, IsPressed(value)))
  {
    ParseFormatInt32(n);
    ParsedSuffixEmits(FormatInt32(n), n, value);
  }

  /** Whatever follows `"Buttons"`, if `int.TryParse` reads it as `0 <= n < int.MaxValue`,
      the packet names button `n + 1`. */
  lemma ParsedSuffixEmits(suffix: string, n: int32, value: int32)
    requires ParseInt32(Some(suffix)) == Some(n) && 0 <= n < Int32Max
    ensures HandlePacket(StatePacket(Some("Buttons" + suffix), value)) == Emit(ButtonEvent(n + 1, IsPressed(value)))
  {
    var offset := "Buttons" + suffix;
    assert OccursAt(offset, ButtonWord, 0);
    assert offset[SuffixStart..] == suffix;
  }

  /** White space around the number does not change the button: `"Buttons 3"` names
      button 4 as `"Buttons3"` does. */
  lemma PaddedButtonNumber(lead: string, n: int32, trail: string, value: int32)
    requires AllWhite(lead) && AllWhite(trail)
    requires 0 <= n < Int32Max
    ensures HandlePacket(StatePacket(Some("Buttons" + lead + FormatInt32(n) + trail), value)) ==
            Emit(ButtonEvent(n + 1, IsPressed(value)))
  {
    var core := FormatInt32(n);
    assert "Buttons" + lead + core + trail == "Buttons" + (lead + core + trail);
    assert IsDigit(core[0]) && IsDigit(core[|core| - 1]);
    ParsePadded(lead, core, trail);
    ParseFormatInt32(n);
    ParsedSuffixEmits(lead + core + trail, n, value);
  }

  /** `"Buttons3"` names button 4. */
  lemma ThirdSlotIsButtonFour(value: int32)
    ensures HandlePacket(StatePacket(Some("Buttons3"), value)) == Emit(ButtonEvent(4, IsPressed(value)))
  {
    assert FormatInt32(3) == "3";
    assert "Buttons" + FormatInt32(3) == "Buttons3";
    ButtonNumberFromSuffix(3, value);
  }

  /** `"Buttons0"` names button 1. */
  lemma FirstSlotIsButtonOne(value: int32)
    ensures HandlePacket(StatePacket(Some("Buttons0"), value)) == Emit(ButtonEvent(1, IsPressed(value)))
  {
    assert FormatInt32(0) == "0";
    assert "Buttons" + FormatInt32(0) == "Buttons0";
    ButtonNumberFromSuffix(0, value);
  }

  /** A negative number, and `int.MaxValue` (whose increment wraps to `int.MinValue`), cause no action. */
  lemma NonPositiveIndexIgnored(n: int32, value: int32)
    requires n < 0 || n == Int32Max
    ensures HandlePacket(StatePacket(Some("Buttons" + FormatInt32(n)), value)) == NoAction
  {
    var offset := "Buttons" + FormatInt32(n);
    assert OccursAt(offset, ButtonWord, 0);
    assert offset[SuffixStart..] == FormatInt32(n);
    ParseFormatInt32(n);
  }

  /** A suffix that does not parse causes no action. */
  lemma UnparsableSuffixIgnored(suffix: string, value: int32)
    requires ParseInt32(Some(suffix)) == None
    ensures HandlePacket(StatePacket(Some("Buttons" + suffix), value)) == NoAction
  {
    var offset := "Buttons" + suffix;
    assert OccursAt(offset, ButtonWord, 0);
    assert offset[SuffixStart..] == suffix;
  }

  /** The offset `"Button"` itself makes `Substring(7)` throw. */
  lemma BareButtonThrows(value: int32)
    ensures HandlePacket(StatePacket(Some("Button"), value)) == Throw(ArgumentOutOfRange)
  {
    assert OccursAt("Button", ButtonWord, 0);
  }

  /** `"Button0"` leaves nothing to parse after character 7. */
  lemma ButtonWithoutPluralIgnored(value: int32)
    ensures HandlePacket(StatePacket(Some("Button0"), value)) == NoAction
  {
    var offset := "Button0";
    assert OccursAt(offset, ButtonWord, 0);
    assert offset[SuffixStart..] == "";
    assert ParseInt32(Some("")) == None;
  }

  /** Once an outcome throws, the outcomes after it have no effect. */
  lemma {:induction false} ReplayStopsAtFault(hs: seq<Handled>, k: nat)
    requires k < |hs| && hs[k].Throw?
    requires forall j :: 0 <= j < k ==> !hs[j].Throw?
    ensures Replay(hs) == ReadResult(Emitted(hs[..k]), Some(hs[k].fault))
  {
    if k > 0 {
      ReplayStopsAtFault(hs[1..], k - 1);
      assert hs[1..][..k - 1] == hs[..k][1..];
    }
  }

  /** Without an exception every event is kept, in order. */
  lemma {:induction false} ReplayWithoutFault(hs: seq<Handled>)
    requires forall j :: 0 <= j < |hs| ==> !hs[j].Throw?
    ensures Replay(hs) == ReadResult(Emitted(hs), None)
  {
    if hs != [] {
      ReplayWithoutFault(hs[1..]);
    }
  }
}
