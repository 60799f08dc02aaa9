/** The libretro joypad button identifiers (the `RETRO_DEVICE_ID_JOYPAD_*`
    constants of `libretro.h`) and the gilrs gamepad buttons they are
    translated to. */
module Joypad {
  import opened Wrappers

  const JOYPAD_B: nat := 0
  const JOYPAD_Y: nat := 1
  const JOYPAD_SELECT: nat := 2
  const JOYPAD_START: nat := 3
  const JOYPAD_UP: nat := 4
  const JOYPAD_DOWN: nat := 5
  const JOYPAD_LEFT: nat := 6
  const JOYPAD_RIGHT: nat := 7
  const JOYPAD_A: nat := 8
  const JOYPAD_X: nat := 9
  const JOYPAD_L: nat := 10
  const JOYPAD_R: nat := 11

  /** The twelve identifiers the front-end binds. */
  const JOYPAD_IDS: set<nat> := {JOYPAD_B, JOYPAD_Y, JOYPAD_SELECT, JOYPAD_START,
                                 JOYPAD_UP, JOYPAD_DOWN, JOYPAD_LEFT, JOYPAD_RIGHT,
                                 JOYPAD_A, JOYPAD_X, JOYPAD_L, JOYPAD_R}

  /** Number of entries of the shared button-state vector. */
  const BUTTON_COUNT: nat := 16

  /** A gilrs gamepad button. Only the first twelve are ever consulted. */
  datatype Button =
    | East | South | North | West
    | LeftTrigger | RightTrigger
    | DPadDown | DPadUp | DPadRight | DPadLeft
    | Start | Select
    | LeftTrigger2 | RightTrigger2 | LeftThumb | RightThumb | Mode

  lemma JoypadIdsFitButtonVector()
    ensures |JOYPAD_IDS| == 12
    ensures forall id :: id in JOYPAD_IDS ==> id < BUTTON_COUNT
  {
  }

  /** Translation of a libretro joypad id to the gamepad button it is read from. */
  function LibretroToButton(id: nat): (r: Option<Button>)
    ensures r.Some? <==> id in JOYPAD_IDS
    ensures r.Some? ==> ButtonToLibretro(r.value) == Some(id)
  {
    if id == JOYPAD_A then Some(East)
    else if id == JOYPAD_B then Some(South)
    else if id == JOYPAD_X then Some(North)
    else if id == JOYPAD_Y then Some(West)
    else if id == JOYPAD_L then Some(LeftTrigger)
    else if id == JOYPAD_R then Some(RightTrigger)
    else if id == JOYPAD_DOWN then Some(DPadDown)
    else if id == JOYPAD_UP then Some(DPadUp)
    else if id == JOYPAD_RIGHT then Some(DPadRight)
    else if id == JOYPAD_LEFT then Some(DPadLeft)
    else if id == JOYPAD_START then Some(Start)
    else if id == JOYPAD_SELECT then Some(Select)
    else None
  }

  /** The reverse reading of the same table; not part of the front-end,
      it is the partner that shows the translation loses nothing. */
  function ButtonToLibretro(b: Button): (r: Option<nat>)
  {
    match b
    case East => Some(JOYPAD_A)
    case South => Some(JOYPAD_B)
    case North => Some(JOYPAD_X)
    case West => Some(JOYPAD_Y)
    case LeftTrigger => Some(JOYPAD_L)
    case RightTrigger => Some(JOYPAD_R)
    case DPadDown => Some(JOYPAD_DOWN)
    case DPadUp => Some(JOYPAD_UP)
    case DPadRight => Some(JOYPAD_RIGHT)
    case DPadLeft => Some(JOYPAD_LEFT)
    case Start => Some(JOYPAD_START)
    case Select => Some(JOYPAD_SELECT)
    case _ => None
  }

  /** Distinct joypad ids are read from distinct gamepad buttons. */
  lemma LibretroToButtonInjective(a: nat, b: nat)
    requires LibretroToButton(a).Some? && LibretroToButton(a) == LibretroToButton(b)
    ensures a == b
  {
    assert ButtonToLibretro(LibretroToButton(a).value) == Some(a);
    assert ButtonToLibretro(LibretroToButton(b).value) == Some(b);
  }

  /** Every button that has a libretro id is exactly the button that id is read from. */
  lemma ButtonRoundTrip(b: Button)
    requires ButtonToLibretro(b).Some?
    ensures LibretroToButton(ButtonToLibretro(b).value) == Some(b)
  {
  }
}
