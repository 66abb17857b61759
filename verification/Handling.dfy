/**
 `JoyHandler`: applies received packets to the virtual Xbox 360 controller. The controller
 device itself is foreign; it is represented by the ghost state it would hold, one pressed
 flag per button and one signed value per axis.
 */
module Handling {
  import opened DotNet
  import opened Packets
  import opened Controller

  /** A button counts as pressed exactly when the raw value is 128. */
  predicate IsPressed(value: int32)
  {
    value == 128
  }

  /**
   The signed axis value `SetAxis` computes from a raw value: `value - 32767` in unchecked
   `int` arithmetic, replaced by 32767 when it exceeds 32767, otherwise cast to `short`.
   */
  function AxisValue(value: int32): (r: int16)
    ensures 0 <= value <= 0xffff ==>
              r == if value - Int16Max > Int16Max then Int16Max else value - Int16Max
  {
    var src := Wrap32(value - Int16Max);
    if src > Int16Max then Int16Max else Wrap16(src)
  }

  lemma PressedOnlyAt128()
    ensures IsPressed(128) && !IsPressed(127) && !IsPressed(129)
  {
  }

  /** The centre 32767 gives 0. */
  lemma AxisCentre()
    ensures AxisValue(32767) == 0
  {
  }

  /** Zero gives -32767, not -32768. */
  lemma AxisBottom()
    ensures AxisValue(0) == -32767
  {
  }

  /** The top two raw values both give 32767. */
  lemma AxisTop()
    ensures AxisValue(65534) == 32767 && AxisValue(65535) == 32767
  {
  }

  /** Over the unsigned 16-bit range the result stays within [-32767, 32767]: -32768 is never produced. */
  lemma AxisRange(value: int32)
    requires 0 <= value <= 0xffff
    ensures -Int16Max <= AxisValue(value) <= Int16Max
  {
  }

  /** Over the unsigned 16-bit range a larger raw value never gives a smaller axis value. */
  lemma AxisMonotone(v: int32, w: int32)
    requires 0 <= v <= w <= 0xffff
    ensures AxisValue(v) <= AxisValue(w)
  {
  }

  /** Outside that range the `short` cast wraps: a raw -2 turns into full positive deflection. */
  lemma AxisWrapsBelowZero()
    ensures AxisValue(-2) == 32767
  {
  }

  class JoyHandler {
    /** Whether each button of the virtual controller is held. */
    ghost var buttons: map<Xbox360Button, bool>
    /** The value of each axis of the virtual controller. */
    ghost var axes: map<Xbox360Axis, int16>

    ghost predicate Valid()
      reads this
    {
      (forall b: Xbox360Button :: b in buttons) && (forall a: Xbox360Axis :: a in axes)
    }

    /** A freshly connected controller, then `X` released. That ViGEm starts the virtual
        controller with nothing pressed and every stick centred is an assumption about that
        library, not something the source states. */
    constructor ()
      ensures Valid()
      ensures forall b: Xbox360Button :: !buttons[b]
      ensures forall a: Xbox360Axis :: axes[a] == 0
    {
      buttons := map[A := false, B := false, X := false, Y := false, LeftShoulder := false,
                     RightShoulder := false, Back := false, Start := false, Left := false,
                     Right := false];
      axes := map[LeftThumbX := 0, LeftThumbY := 0, RightThumbX := 0, RightThumbY := 0];
      new;
      buttons := buttons[X := false];
      forall b: Xbox360Button ensures b in buttons {
        assert b.A? || b.B? || b.X? || b.Y? || b.LeftShoulder? || b.RightShoulder? || b.Back? ||
               b.Start? || b.Left? || b.Right?;
      }
      forall a: Xbox360Axis ensures a in axes {
        assert a.LeftThumbX? || a.LeftThumbY? || a.RightThumbX? || a.RightThumbY?;
      }
    }

    /** `SetButton`: an unrecognised offset changes nothing; a recognised one sets that one
        button to pressed-or-released and leaves every other button and every axis alone. */
    method SetButton(packet: StatePacket)
      requires Valid()
      modifies this
      ensures Valid()
      ensures axes == old(axes)
      ensures StateToXbox360Button(packet).None? ==> buttons == old(buttons)
      ensures StateToXbox360Button(packet).Some? ==>
                buttons == old(buttons)[StateToXbox360Button(packet).value := IsPressed(packet.value)]
      ensures forall b: Xbox360Button :: b != StateToXbox360Button(packet).GetOr(b) ==> buttons[b] == old(buttons)[b]
    {
      var button := StateToXbox360Button(packet);
      if button.None? {
        return;
      }
      var pressed := packet.value == 128;
      buttons := buttons[button.value := pressed];
    }

    /**
     `SetAxis`: a recognised axis takes `AxisValue` of the raw value. An unrecognised offset
     hands a null axis to the controller, whose exception is caught and logged; `caught`
     reports that, and nothing changes then.
     */
    method SetAxis(state: StatePacket) returns (caught: bool)
      requires Valid()
      modifies this
      ensures Valid()
      ensures buttons == old(buttons)
      ensures caught <==> StateToXbox360Axis(state).None?
      ensures caught ==> axes == old(axes)
      ensures !caught ==> axes == old(axes)[StateToXbox360Axis(state).value := AxisValue(state.value)]
    {
      var axis := StateToXbox360Axis(state);
      var src := Wrap32(state.value - Int16Max);
      var value: int16 := if src > Int16Max then Int16Max else Wrap16(src);
      if axis.None? {
        caught := true;
        return;
      }
      axes := axes[axis.value := value];
      caught := false;
    }
  }
}
