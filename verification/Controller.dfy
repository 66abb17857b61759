/** `ControllerUtils`: the fixed tables from device offset names to Xbox 360 controls. */
module Controller {
  import opened Wrappers
  import opened DotNet
  import opened Packets

  datatype Xbox360Button = A | B | X | Y | LeftShoulder | RightShoulder | Back | Start | Left | Right

  datatype Xbox360Axis = LeftThumbX | LeftThumbY | RightThumbX | RightThumbY

  /** The buttons in the order of the device slots `Buttons0` .. `Buttons9`. */
  const ButtonOrder: seq<Xbox360Button> :=
    [A, B, X, Y, LeftShoulder, RightShoulder, Back, Start, Left, Right]

  /** The offset name of device button slot `k`. */
  function ButtonOffset(k: nat): (name: string)
    requires k < 10
    ensures |name| == 8 && name[..7] == "Buttons"
  {
    "Buttons" + [('0' as int + k) as char]
  }

  /** `StateToXbox360Button`: exact match on the offset, `null` for anything else. */
  function StateToXbox360Button(packet: StatePacket): (button: Option<Xbox360Button>)
  {
    match packet.offset
    case Some("Buttons0") => Some(A)
    case Some("Buttons1") => Some(B)
    case Some("Buttons2") => Some(X)
    case Some("Buttons3") => Some(Y)
    case Some("Buttons4") => Some(LeftShoulder)
    case Some("Buttons5") => Some(RightShoulder)
    case Some("Buttons6") => Some(Back)
    case Some("Buttons7") => Some(Start)
    case Some("Buttons8") => Some(Left)
    case Some("Buttons9") => Some(Right)
    case _ => None
  }

  /** `StateToXbox360Axis`: exact match on the offset, `null` for anything else. */
  function StateToXbox360Axis(packet: StatePacket): (axis: Option<Xbox360Axis>)
  {
    match packet.offset
    case Some("X") => Some(LeftThumbX)
    case Some("Y") => Some(LeftThumbY)
    case Some("RotationX") => Some(RightThumbX)
    case Some("RotationY") => Some(RightThumbY)
    case _ => None
  }

  /** Slot `k` maps to the `k`-th button of `ButtonOrder`, whatever the value. */
  lemma ButtonSlotsInOrder(k: nat, value: int32)
    requires k < 10
    ensures StateToXbox360Button(StatePacket(Some(ButtonOffset(k)), value)) == Some(ButtonOrder[k])
  {
    var name := ButtonOffset(k);
    if k == 0 { assert name == "Buttons0"; }
    else if k == 1 { assert name == "Buttons1"; }
    else if k == 2 { assert name == "Buttons2"; }
    else if k == 3 { assert name == "Buttons3"; }
    else if k == 4 { assert name == "Buttons4"; }
    else if k == 5 { assert name == "Buttons5"; }
    else if k == 6 { assert name == "Buttons6"; }
    else if k == 7 { assert name == "Buttons7"; }
    else if k == 8 { assert name == "Buttons8"; }
    else { assert name == "Buttons9"; }
  }

  /** Only the ten slot names are recognised; every other offset, and a null one, gives null. */
  lemma ButtonRecognisedOnlyForSlots(packet: StatePacket)
    ensures StateToXbox360Button(packet).Some? <==>
            exists k :: 0 <= k < 10 && packet.offset == Some(ButtonOffset(k))
  {
    if StateToXbox360Button(packet).Some? {
      var name := packet.offset.value;
      var k := if name == "Buttons0" then 0 else if name == "Buttons1" then 1
        else if name == "Buttons2" then 2 else if name == "Buttons3" then 3
        else if name == "Buttons4" then 4 else if name == "Buttons5" then 5
        else if name == "Buttons6" then 6 else if name == "Buttons7" then 7
        else if name == "Buttons8" then 8 else 9;
      ButtonSlotsInOrder(k, packet.value);
      assert packet.offset == Some(ButtonOffset(k));
    } else {
      forall k | 0 <= k < 10
        ensures packet.offset != Some(ButtonOffset(k))
      {
        ButtonSlotsInOrder(k, packet.value);
      }
    }
  }

  /** Names close to a slot name are not recognised. */
  lemma ButtonNearMisses(value: int32)
    ensures StateToXbox360Button(StatePacket(Some("Buttons10"), value)) == None
    ensures StateToXbox360Button(StatePacket(Some("Button0"), value)) == None
    ensures StateToXbox360Button(StatePacket(Some("buttons0"), value)) == None
    ensures StateToXbox360Button(StatePacket(Some("BUTTONS0"), value)) == None
    ensures StateToXbox360Button(StatePacket(None, value)) == None
  {
  }

  /** Two different offsets never give the same button. */
  lemma ButtonTableInjective(p: StatePacket, q: StatePacket)
    requires StateToXbox360Button(p).Some? && StateToXbox360Button(p) == StateToXbox360Button(q)
    ensures p.offset == q.offset
  {
  }

  /** The axis table recognises exactly four names. */
  lemma AxisRecognisedOnlyForSticks(packet: StatePacket)
    ensures StateToXbox360Axis(packet).Some? <==>
            packet.offset in {Some("X"), Some("Y"), Some("RotationX"), Some("RotationY")}
    ensures packet.offset == Some("X") ==> StateToXbox360Axis(packet) == Some(LeftThumbX)
    ensures packet.offset == Some("Y") ==> StateToXbox360Axis(packet) == Some(LeftThumbY)
    ensures packet.offset == Some("RotationX") ==> StateToXbox360Axis(packet) == Some(RightThumbX)
    ensures packet.offset == Some("RotationY") ==> StateToXbox360Axis(packet) == Some(RightThumbY)
  {
  }

  /** No offset is both a button and an axis. */
  lemma ButtonAndAxisDisjoint(packet: StatePacket)
    ensures !(StateToXbox360Button(packet).Some? && StateToXbox360Axis(packet).Some?)
  {
  }
}
