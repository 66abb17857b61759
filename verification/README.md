# NetJoy in Dafny

A model of the core of NetJoy, a program that relays a physical joystick from one machine
to a virtual Xbox 360 controller on another. The **server** lets the user pick a DirectInput
device, polls it, serialises each buffered state change (`StatePacket { offset, value }`) as
JSON and writes it, followed by `'\n'`, as ASCII to the one connected client. The **client**
reads whatever bytes its socket holds, decodes them as ASCII, splits them on `'\n'`,
deserialises each piece and turns pieces whose offset contains `"Button"` into button
updates. `JoyHandler` maps packets onto the virtual controller, `ControllerUtils` holds the
offset-name tables, `NgrokUtils` trims the tunnel URL it reports, and `Prompts` asks yes/no
questions on the console.

Modules, one per concern:

- `Wrappers`: `Option`.
- `DotNet`: the .NET behaviours the code relies on, written out: unchecked `int`
  wrap-around (`Wrap32`), the `(short)` cast (`Wrap16`), `int.TryParse` (surrounding white
  space, optional sign, decimal digits, `int` range, `null` input), `String.Split(char)`,
  ordinal `IndexOf`/`Contains`, `ToLowerInvariant` on ASCII letters, and
  `Encoding.ASCII` (`'?'` for anything above 127).
- `Packets`: `StatePacket`, with a nullable `offset`, and the three outcomes of
  deserialising one piece (a packet, a JSON `null`, malformed input).
- `Controller`: `ControllerUtils.StateToXbox360Button` / `StateToXbox360Axis`.
- `Handling`: the raw-to-axis conversion and the `JoyHandler` class; the virtual controller
  is represented by ghost maps holding its buttons and axes.
- `Client`: the receive path as functions (`HandleButtonUpdate`, `HandlePacket`,
  `HandleData`, `Replay`, `Receive`) and the `NetJoyClient` class whose `Read` method loops
  over the pieces; `GetValidInt`.
- `Server`: framing (`Frame`, `Frames`), the `NetJoyServer` class (`AcceptCallback`,
  `Send`, one pass of the controller-listener loop) and `SelectStick`.
- `Ngrok`: the URL trimming in `GetNgrok`.
- `Prompts`: `YesNoPrompt`.
- `Relay`: server and client together: the bytes the server writes for a sequence of
  packets, read by the client in one read, have the effect of handling those packets in
  order.

Console input is a sequence of lines (`None` standing for a `null` line); a prompt loop
that the source repeats forever returns `None` when the lines run out. JSON serialisation
and deserialisation are parameters (`encode`, `decode`). The one end-to-end lemma,
`Relay.ClientReplaysServer`, takes as hypotheses what it needs of the JSON library: the
serialised form of a packet is ASCII without `'\n'` (Json.NET escapes control characters
and `Formatting.None` writes one line), deserialising it gives the packet back, and
deserialising the empty string gives `null`.

Points where the code does something other than its comments or names suggest:

- The comment at `Core/NetJoy/Client/Handling/JoyHandler.cs:75` gives the axis range as
  -32768 to 32768. The code at lines 68-73 subtracts 32767 and caps only from above, so
  raw 0 gives -32767 and -32768 is never produced over the unsigned 16-bit range
  (`Handling.AxisBottom`, `Handling.AxisRange`); outside that range the `short` cast wraps
  (`Handling.AxisWrapsBelowZero`).
- The client never applies axis records: `HandleData` only handles offsets containing
  `"Button"` (`Client.AxisRecordsIgnored`).
- `HandleButtonUpdate` parses the offset from character 7 (`"Button".Length + 1`), so
  `"Buttons3"` becomes button 4, `"Button0"` is ignored, and `"Button"` throws.
- `NetJoyClient.Start` creates its handler with `new JoyHandler((uint) joystickPort)`
  (`Core/NetJoy/Client/NetJoyClient.cs:54`), and `HandleButtonUpdate` calls
  `setButton(index, pressed)` on it, but `JoyHandler` declares neither a `JoyHandler(uint)`
  constructor nor a `setButton(int, bool)` method. The model records each such call as a
  `ButtonEvent(index, pressed)` appended to the client's `emitted` log.
- `JoyHandler` reads `packet.Value`, which `StatePacket` declares as `value`; the model
  reads `value`.

## Model

| member | source | states |
|---|---|---|
| Controller.StateToXbox360Button | Core/Utils/Controller/ControllerUtils.cs:15-28 | No contract of its own; characterised by `ButtonSlotsInOrder`, `ButtonRecognisedOnlyForSlots`, `ButtonNearMisses` and `ButtonTableInjective` |
| Controller.ButtonSlotsInOrder | Core/Utils/Controller/ControllerUtils.cs:15-28 | Slot name `Buttons<k>`, k in 0..9, maps to the k-th of A, B, X, Y, LeftShoulder, RightShoulder, Back, Start, Left, Right, whatever the value |
| Controller.ButtonRecognisedOnlyForSlots | Core/Utils/Controller/ControllerUtils.cs:15-28 | A button is recognised if and only if the offset is one of the ten slot names; a null offset gives none |
| Controller.ButtonNearMisses | Core/Utils/Controller/ControllerUtils.cs:15-28 | Matching is exact and case-sensitive: `Buttons10`, `Button0`, `buttons0`, `BUTTONS0` and null give none |
| Controller.ButtonTableInjective | Core/Utils/Controller/ControllerUtils.cs:17-26 | Two offsets giving the same button are the same offset |
| Controller.AxisRecognisedOnlyForSticks | Core/Utils/Controller/ControllerUtils.cs:38-45 | An axis is recognised exactly for `X`, `Y`, `RotationX`, `RotationY`, mapping to LeftThumbX, LeftThumbY, RightThumbX, RightThumbY |
| Controller.StateToXbox360Axis | Core/Utils/Controller/ControllerUtils.cs:38-45 | No contract of its own; characterised by `AxisRecognisedOnlyForSticks` and `ButtonAndAxisDisjoint` |
| Controller.ButtonAndAxisDisjoint | Core/Utils/Controller/ControllerUtils.cs:13-45 | No offset is recognised by both tables |
| Handling.AxisValue | Core/NetJoy/Client/Handling/JoyHandler.cs:68-73 | On raw values 0..65535 the result is `value - 32767`, capped at 32767 |
| Handling.IsPressed | Core/NetJoy/Client/Handling/JoyHandler.cs:50 | No contract of its own (the `== 128` test, also at `Core/NetJoy/Client/NetJoyClient.cs:218`); characterised by `PressedOnlyAt128` |
| Handling.PressedOnlyAt128 | Core/NetJoy/Client/Handling/JoyHandler.cs:50 | 128 is pressed; its neighbours 127 and 129 are not |
| Handling.AxisCentre | Core/NetJoy/Client/Handling/JoyHandler.cs:68-73 | Raw 32767 gives the centre 0 |
| Handling.AxisBottom | Core/NetJoy/Client/Handling/JoyHandler.cs:68-73 | Raw 0 gives -32767 |
| Handling.AxisTop | Core/NetJoy/Client/Handling/JoyHandler.cs:68-73 | Raw 65534 and 65535 both give 32767 |
| Handling.AxisRange | Core/NetJoy/Client/Handling/JoyHandler.cs:68-73 | Over 0..65535 the result lies in [-32767, 32767] |
| Handling.AxisMonotone | Core/NetJoy/Client/Handling/JoyHandler.cs:68-73 | Over 0..65535 a larger raw value never gives a smaller axis value |
| Handling.AxisWrapsBelowZero | Core/NetJoy/Client/Handling/JoyHandler.cs:68-73 | Below 0 the `short` cast wraps: raw -2 gives 32767 |
| Handling.JoyHandler.constructor | Core/NetJoy/Client/Handling/JoyHandler.cs:18-32 | The new controller has every button released and every axis at 0 |
| Handling.JoyHandler.SetButton | Core/NetJoy/Client/Handling/JoyHandler.cs:38-54 | Unrecognised offset: no change; otherwise only the mapped button changes, to pressed iff value is 128; axes unchanged |
| Handling.JoyHandler.SetAxis | Core/NetJoy/Client/Handling/JoyHandler.cs:60-84 | Unrecognised offset: the exception is caught and nothing changes; otherwise only the mapped axis changes, to `AxisValue`; buttons unchanged |
| Client.HandleButtonUpdate | Core/NetJoy/Client/NetJoyClient.cs:196-222 | Throws iff the offset is null or shorter than 7; an event has index = parsed suffix + 1 > 0 and pressed iff value is 128 |
| Client.ButtonUpdateCases | Core/NetJoy/Client/NetJoyClient.cs:201-221 | With an offset of at least 7 characters: a suffix parsing to 0 <= n < int.MaxValue emits button n + 1, pressed iff value is 128; any other suffix causes no action |
| Client.HandlePacket | Core/NetJoy/Client/NetJoyClient.cs:180-189 | Any action needs a non-null offset containing `Button`; the only exception it lets through is the out-of-range `Substring` |
| Client.HandleData | Core/NetJoy/Client/NetJoyClient.cs:173-190 | Throws an exception from the deserializer iff the deserializer rejects the piece; a JSON `null` causes no action |
| Client.Pieces | Core/NetJoy/Client/NetJoyClient.cs:160 | No contract of its own; the split of the decoded bytes, characterised by `DotNet.Split`, `Relay.FramesSplit` and `Relay.FramesCutMidRecord` |
| Client.Replay | Core/NetJoy/Client/NetJoyClient.cs:162-165 | No contract of its own; characterised by `ReplayStep`, `ReplayStopsAtFault` and `ReplayWithoutFault` |
| Client.Receive | Core/NetJoy/Client/NetJoyClient.cs:157-165 | No contract of its own; what `NetJoyClient.Read` is proved to do, and what `Relay.ClientReplaysServer` relates to the server's frames |
| Client.ReplayStep | Core/NetJoy/Client/NetJoyClient.cs:162-165 | Handling from position i is: stop on an exception, skip a no-action, or emit then continue |
| Client.ReplayStopsAtFault | Core/NetJoy/Client/NetJoyClient.cs:162-165 | The first exception ends the read: only the events before it are kept and it is the fault |
| Client.ReplayWithoutFault | Core/NetJoy/Client/NetJoyClient.cs:162-165 | Without an exception every event is kept, in order |
| Client.NullRecordsIgnored | Core/NetJoy/Client/NetJoyClient.cs:176-183 | A null object or a null offset causes no action |
| Client.AxisRecordsIgnored | Core/NetJoy/Client/NetJoyClient.cs:185-189 | A packet naming an axis causes no action on the client |
| Client.ButtonNumberFromSuffix | Core/NetJoy/Client/NetJoyClient.cs:201-221 | `Buttons<n>` with 0 <= n < int.MaxValue emits button n + 1 with pressed iff value is 128 |
| Client.ParsedSuffixEmits | Core/NetJoy/Client/NetJoyClient.cs:186-221 | Any suffix after `Buttons` that `int.TryParse` reads as 0 <= n < int.MaxValue names button n + 1 |
| Client.PaddedButtonNumber | Core/NetJoy/Client/NetJoyClient.cs:201-221 | White space around the number does not change the button: `Buttons 3` names button 4 like `Buttons3` |
| Client.ThirdSlotIsButtonFour | Core/NetJoy/Client/NetJoyClient.cs:201-221 | `Buttons3` emits button 4 |
| Client.FirstSlotIsButtonOne | Core/NetJoy/Client/NetJoyClient.cs:201-221 | `Buttons0` emits button 1 |
| Client.NonPositiveIndexIgnored | Core/NetJoy/Client/NetJoyClient.cs:209-215 | A negative n, and int.MaxValue whose increment wraps, cause no action |
| Client.UnparsableSuffixIgnored | Core/NetJoy/Client/NetJoyClient.cs:201-207 | A suffix `int.TryParse` rejects causes no action |
| Client.BareButtonThrows | Core/NetJoy/Client/NetJoyClient.cs:201 | The offset `Button` makes `Substring(7)` throw |
| Client.ButtonWithoutPluralIgnored | Core/NetJoy/Client/NetJoyClient.cs:201-207 | `Button0` leaves an empty suffix, which does not parse: no action |
| Client.NetJoyClient.constructor | Core/NetJoy/Client/NetJoyClient.cs:24-27 | A new client has no socket, nothing buffered and no events |
| Client.NetJoyClient.Connected | Core/NetJoy/Client/NetJoyClient.cs:228-251 | The connect callback stores the socket; events so far are kept |
| Client.NetJoyClient.Deliver | Core/NetJoy/Client/NetJoyClient.cs:147-157 | Bytes from the server join the end of what the socket holds |
| Client.NetJoyClient.Read | Core/NetJoy/Client/NetJoyClient.cs:138-167 | No socket or no bytes: nothing changes; otherwise every byte is consumed and the events and fault are those of `Receive` on them |
| Client.GetValidInt | Core/NetJoy/Client/NetJoyClient.cs:60-82 | Returns the first line that parses as an int, having read exactly up to it; every earlier line fails to parse |
| DotNet.Wrap32 | Core/NetJoy/Client/Handling/JoyHandler.cs:68 | Unchecked int arithmetic: identity in range, minus or plus 2^32 just outside it |
| DotNet.Wrap16 | Core/NetJoy/Client/Handling/JoyHandler.cs:73 | The `(short)` cast: identity in range, minus or plus 2^16 just outside it |
| DotNet.ParseInt32 | Core/NetJoy/Client/NetJoyClient.cs:71 | A null line never parses |
| DotNet.ParseDigits | Core/NetJoy/Client/NetJoyClient.cs:201 | A string of digits whose value fits an int parses to that value |
| DotNet.ParseFormatInt32 | Core/NetJoy/Client/NetJoyClient.cs:201 | Every int parses back from its decimal form |
| DotNet.TrimPadded | Core/NetJoy/Client/NetJoyClient.cs:201 | The trimming `int.TryParse` does removes exactly the white space around a number |
| DotNet.ParsePadded | Core/NetJoy/Client/NetJoyClient.cs:201 | White space on either side of a number does not change what `int.TryParse` makes of it |
| DotNet.ParseNeedsDigit | Core/NetJoy/Client/NetJoyClient.cs:201 | A string without a digit (the empty one included) does not parse |
| DotNet.Split | Core/NetJoy/Client/NetJoyClient.cs:160 | One piece more than there are separators, and no piece holds a separator |
| DotNet.JoinSplit | Core/NetJoy/Client/NetJoyClient.cs:160 | Joining the pieces with the separator gives back the text |
| DotNet.SplitJoin | Core/NetJoy/Client/NetJoyClient.cs:160 | Splitting pieces joined by the separator, none holding it, gives back the pieces |
| DotNet.AsciiDecode | Core/NetJoy/Client/NetJoyClient.cs:160 | One character per byte, all ASCII |
| DotNet.AsciiEncode | Core/NetJoy/Server/NetJoyServer.cs:178 | One byte per character, all below 128 |
| DotNet.AsciiRoundTrip | Core/NetJoy/Server/NetJoyServer.cs:178 | Decoding the encoding of ASCII text gives the text back |
| DotNet.Contains | Core/NetJoy/Client/NetJoyClient.cs:186 | No contract of its own; ordinal containment as `IndexOf` != -1, whose contract gives the first occurrence; characterised by `NotContainsWithoutHead` |
| DotNet.NotContainsWithoutHead | Core/NetJoy/Client/NetJoyClient.cs:186 | Text lacking the first character of a pattern does not contain it |
| DotNet.IndexOf | Core/NetJoy/Server/NgrokUtils.cs:74 | -1 iff the pattern does not occur; otherwise its first occurrence |
| DotNet.ToLowerInvariant | Core/Utils/General/Prompts.cs:27 | Same length as the input |
| DotNet.LowerIsLetter | Core/Utils/General/Prompts.cs:27-39 | Under the model's ASCII-only lowering, a one-letter result c comes exactly from c and its upper-case form; for the `y` and `n` that `YesNoPrompt` tests, .NET's invariant lowering agrees |
| Server.Frame | Core/NetJoy/Server/NetJoyServer.cs:177-180 | A message is written as its ASCII bytes followed by one newline byte |
| Server.FramesAppend | Core/NetJoy/Server/NetJoyServer.cs:149-156 | Sending one more message appends exactly its frame |
| Server.NetJoyServer.constructor | Core/NetJoy/Server/NetJoyServer.cs:19-20 | No joystick, no client, nothing sent |
| Server.NetJoyServer.AcquireJoystick | Core/NetJoy/Server/NetJoyServer.cs:186-221 | The joystick becomes available; client and streams unchanged |
| Server.NetJoyServer.AcceptCallback | Core/NetJoy/Server/NetJoyServer.cs:111-124 | The new connection replaces the client; earlier connections keep what they received |
| Server.NetJoyServer.Send | Core/NetJoy/Server/NetJoyServer.cs:169-181 | No client: the message is dropped; otherwise only the client's stream grows, by the frame |
| Server.NetJoyServer.PollOnce | Core/NetJoy/Server/NetJoyServer.cs:134-157 | No joystick or no client: nothing written; otherwise the client's stream grows by the frames of every buffered state, in order |
| Server.SelectStick | Core/NetJoy/Server/NetJoyServer.cs:228-275 | The chosen device is the one the first valid round names; every earlier round chose nothing |
| Server.StickChoice | Core/NetJoy/Server/NetJoyServer.cs:255-266 | No contract of its own; characterised by `StickChoiceRange` |
| Server.StickChoiceRange | Core/NetJoy/Server/NetJoyServer.cs:255-266 | A round selects iff the number is within 1..count, and then selects device number-1 |
| Server.ReplacedClientScenario | Core/NetJoy/Server/NetJoyServer.cs:111-181 | After a second client connects, the first holds only what was sent before, the second only what came after |
| Server.DetachedStatesDiscardedScenario | Core/NetJoy/Server/NetJoyServer.cs:130-181 | States polled before any client connects are never delivered; later ones are, in order |
| Ngrok.PrettyUrl | Core/NetJoy/Server/NgrokUtils.cs:71-81 | Null iff the URL is null or empty; otherwise a proper suffix of the URL |
| Ngrok.SchemeStripped | Core/NetJoy/Server/NgrokUtils.cs:74 | With `//` first at i, the result is everything after it |
| Ngrok.NoSchemeDropsFirstChar | Core/NetJoy/Server/NgrokUtils.cs:74 | Without `//` only the first character is dropped |
| Ngrok.TunnelUrlExample | Core/NetJoy/Server/NgrokUtils.cs:74 | `tcp://0.tcp.ngrok.io:12345` gives `0.tcp.ngrok.io:12345` |
| Prompts.YesNoPrompt | Core/Utils/General/Prompts.cs:8-41 | The answer is that of the first decisive line, read up to it; every earlier line was indecisive |
| Prompts.Answer | Core/Utils/General/Prompts.cs:18-39 | No contract of its own; characterised by `YesLines`, `NoLines` and `IndecisiveLines` |
| Prompts.YesLines | Core/Utils/General/Prompts.cs:27-33 | A line means yes exactly when it is `y` or `Y` |
| Prompts.NoLines | Core/Utils/General/Prompts.cs:27-39 | A line means no exactly when it is `n` or `N` |
| Prompts.IndecisiveLines | Core/Utils/General/Prompts.cs:18-40 | `yes`, ` y`, the empty line and a null line decide nothing |
| Relay.FramesSplit | Core/NetJoy/Client/NetJoyClient.cs:160 | Splitting the decoded frames of newline-free ASCII messages gives the messages and one empty piece |
| Relay.FramesCutMidRecord | Core/NetJoy/Client/NetJoyClient.cs:155-165 | A read ending inside a record hands the partial record to the handler as a piece |
| Relay.ReplayTrailingNoAction | Core/NetJoy/Client/NetJoyClient.cs:176-183 | A trailing piece that causes no action changes nothing |
| Relay.ClientReplaysServer | Core/NetJoy/Client/NetJoyClient.cs:155-165 | One read of the server's frames for some packets has the effect of handling those packets in order |
| Relay.RelayScenario | Core/NetJoy/Server/NetJoyServer.cs:149-180 | Server poll then client read yields exactly the events and fault of handling the packets in order |

## Left out

- Sockets, DNS, `BeginAccept`/`BeginConnect` and the reset events: a connection is a stream of bytes per accepted client; `Connect`, `StartServerListener` and `Start` are not modelled beyond `AcceptCallback` and `Connected`.
- Threads and the `for (;;)` loops around `Read` and the controller poll: one iteration each is modelled (`Client.NetJoyClient.Read`, `Server.NetJoyServer.PollOnce`); interleavings are not.
- DirectInput device enumeration, `Poll`, `GetBufferedData`, effects and buffer size: the devices of a round and the buffered states are parameters.
- The ViGEm virtual controller: represented by ghost maps; `Connect` and the 500 ms sleep are left out.
- JSON: Json.NET serialisation and deserialisation are the parameters `encode` and `decode`; their properties are hypotheses of `Relay.ClientReplaysServer` and `Relay.RelayScenario`, not proved.
- Ngrok process start-up, the HTTP request to the local API and the JSON path lookup: `Ngrok.PrettyUrl` starts from the URL string.
- Console output, `Logger`, `Console.Clear` and the text of prompts.
- Configuration loading and `NetJoyManager`.
- Server.SelectStick, Client.GetValidInt, Prompts.YesNoPrompt: the source asks forever; the model stops when its finite sequence of lines runs out and then returns `None`.
- Server.NetJoyServer.AcquireJoystick: the exit on `Guid.Empty` and the device handle itself are not modelled; only that a joystick is present.
- DotNet.ToLowerInvariant: only ASCII letters are case-mapped; other Unicode case mappings are not modelled.
- DotNet.ParseInt32: trailing `'\0'` characters, which `int.TryParse` accepts after a number, make the model's parse fail, so the model ignores `"Buttons3\0"` where the source emits button 4; the signs are fixed to the invariant culture's `+` and `-`, where the one-argument overload uses the current culture's.
- Server.NetJoyServer.Send: a write to a client that has gone away throws in the source, and nothing catches it, so the controller-listener task ends and no later client receives anything; the model's `Send`, `PollOnce` and the two scenarios assume every write succeeds.
- Client.NetJoyClient.Read: `Available` and `Receive` on a broken socket throw in the source; the model's reads cannot fail that way.
- Handling.JoyHandler.SetAxis: that ViGEm's `SetAxisValue` throws on a null axis before it changes anything is an assumption about that library; the model's unrecognised-offset branch changes nothing.
- Client.HandleButtonUpdate: strings are sequences of Unicode scalar values, not the UTF-16 code units C# counts, so `Substring(7)` and its length test fall at a different place than in the source for an offset holding a character outside the Basic Multilingual Plane, and a lone surrogate (which a JSON `\ud800` escape can carry) cannot be represented; the offsets the server sends, DirectInput offset names, are ASCII.
- Handling.JoyHandler.constructor: that the new virtual controller has every button released and every axis at 0 is an assumption about ViGEm, which is not part of this model.
- Client.NetJoyClient.Read: the exception it returns as `fault` would in the source escape the read loop's task; what happens to the process after that is not modelled.
