/** Input state of the front-end: the sixteen-entry button vector that the
    libretro core polls, the keyboard and gamepad updates that write it, and
    the configuration maps from key or button names to joypad ids. */
module Input {
  import opened Wrappers
  import opened Joypad
  import opened Decimal
  import opened MachineInts

  /** The shared button vector; it always has `BUTTON_COUNT` entries. */
  type ButtonVector = s: seq<i16> | |s| == BUTTON_COUNT witness seq(16, _ => 0)

  /** The front-end's configuration: option name to option value. */
  type Config = map<string, string>

  datatype ElementState = Pressed | Released

  datatype InputError =
    | MissingConfigKey(key: string)   // `config[key]` on an absent key
    | MissingKeycode                  // `virtual_keycode.unwrap()` on `None`
    | IndexOutOfRange(index: nat)     // `buttons_pressed[index]` past the end

  /** The value a button entry takes for a pressed (1) or released (0) button. */
  function Level(pressed: bool): i16 {
    if pressed then 1 else 0
  }

  // ---------------------------------------------------------------------
  // Configuration maps
  // ---------------------------------------------------------------------

  /** The last position of `ps` whose name is that of position `i`. */
  ghost predicate IsLastWithName(ps: seq<(string, nat)>, i: nat)
    requires i < |ps|
  {
    forall j :: i < j < |ps| ==> ps[j].0 != ps[i].0
  }

  /** `m` has a key for every pair of `ps`, and every key of `m` takes the
      id of some pair with that name. */
  ghost predicate MapOfPairs(m: map<string, nat>, ps: seq<(string, nat)>) {
    && (forall i :: 0 <= i < |ps| ==> ps[i].0 in m)
    && (forall k :: k in m ==> exists i :: 0 <= i < |ps| && ps[i].0 == k && m[k] == ps[i].1)
  }

  /** Inserting one more pair keeps `MapOfPairs` for the longer list. */
  lemma InsertPair(m: map<string, nat>, ps: seq<(string, nat)>, p: (string, nat))
    requires MapOfPairs(m, ps)
    ensures MapOfPairs(m[p.0 := p.1], ps + [p])
  {
    var m' := m[p.0 := p.1];
    var ps' := ps + [p];
    forall k | k in m'
      ensures exists i :: 0 <= i < |ps'| && ps'[i].0 == k && m'[k] == ps'[i].1
    {
      if k != p.0 {
        var i :| 0 <= i < |ps| && ps[i].0 == k && m[k] == ps[i].1;
        assert ps'[i] == ps[i];
      } else {
        assert ps'[|ps|] == p;
      }
    }
    forall i | 0 <= i < |ps'|
      ensures ps'[i].0 in m'
    {
      if i < |ps| { assert ps'[i] == ps[i]; }
    }
  }

  /** `HashMap::from` over a list of (name, id) pairs: pairs are inserted in
      order, so a later pair overwrites an earlier one with the same name. */
  function FromPairs(ps: seq<(string, nat)>): (m: map<string, nat>)
    ensures forall i :: 0 <= i < |ps| ==> ps[i].0 in m
    ensures |m| <= |ps|
  {
    if |ps| == 0 then map[]
    else
      var front := ps[..|ps| - 1];
      var last := ps[|ps| - 1];
      var init := FromPairs(front);
      assert forall i :: 0 <= i < |front| ==> ps[i] == front[i];
      init[last.0 := last.1]
  }

  /** Every key of `FromPairs(ps)` takes the id of some pair with that name. */
  lemma {:induction false} FromPairsKeys(ps: seq<(string, nat)>)
    ensures MapOfPairs(FromPairs(ps), ps)
  {
    if |ps| > 0 {
      var front := ps[..|ps| - 1];
      var last := ps[|ps| - 1];
      FromPairsKeys(front);
      InsertPair(FromPairs(front), front, last);
      assert front + [last] == ps;
    }
  }

  /** A name maps to the id of the last pair that carries it. */
  lemma {:induction false} FromPairsLastWins(ps: seq<(string, nat)>, i: nat)
    requires i < |ps| && IsLastWithName(ps, i)
    ensures FromPairs(ps)[ps[i].0] == ps[i].1
  {
    var front := ps[..|ps| - 1];
    var last := ps[|ps| - 1];
    if i < |front| {
      assert ps[i] == front[i];
      assert last.0 != ps[i].0;
      assert IsLastWithName(front, i) by {
        forall j | i < j < |front| ensures front[j].0 != front[i].0 {
          assert front[j] == ps[j];
        }
      }
      FromPairsLastWins(front, i);
    }
  }

  /** The configuration options read by `key_device_map`, each with the
      joypad id it binds, in the order the source lists them. */
  const KEY_BINDINGS: seq<(string, nat)> := [
    ("input_player1_a", JOYPAD_A),
    ("input_player1_b", JOYPAD_B),
    ("input_player1_x", JOYPAD_X),
    ("input_player1_y", JOYPAD_Y),
    ("input_player1_l", JOYPAD_L),
    ("input_player1_r", JOYPAD_R),
    ("input_player1_down", JOYPAD_DOWN),
    ("input_player1_up", JOYPAD_UP),
    ("input_player1_right", JOYPAD_RIGHT),
    ("input_player1_left", JOYPAD_LEFT),
    ("input_player1_start", JOYPAD_START),
    ("input_player1_select", JOYPAD_SELECT)
  ]

  /** The configuration options read by `setup_joypad_device_map`. */
  const BUTTON_BINDINGS: seq<(string, nat)> := [
    ("input_player1_a_btn", JOYPAD_A),
    ("input_player1_b_btn", JOYPAD_B),
    ("input_player1_x_btn", JOYPAD_X),
    ("input_player1_y_btn", JOYPAD_Y),
    ("input_player1_l_btn", JOYPAD_L),
    ("input_player1_r_btn", JOYPAD_R),
    ("input_player1_down_btn", JOYPAD_DOWN),
    ("input_player1_up_btn", JOYPAD_UP),
    ("input_player1_right_btn", JOYPAD_RIGHT),
    ("input_player1_left_btn", JOYPAD_LEFT),
    ("input_player1_start_btn", JOYPAD_START),
    ("input_player1_select_btn", JOYPAD_SELECT)
  ]

  lemma BindingsBindJoypadIds()
    ensures |KEY_BINDINGS| == 12 && |BUTTON_BINDINGS| == 12
    ensures forall i :: 0 <= i < 12 ==> KEY_BINDINGS[i].1 in JOYPAD_IDS
    ensures forall i :: 0 <= i < 12 ==> BUTTON_BINDINGS[i].1 == KEY_BINDINGS[i].1
  {
  }

  /** Option `i` of `bindings` is absent from `config` and every earlier
      option is present: it is the lookup that panics. */
  predicate FirstAbsent(config: Config, bindings: seq<(string, nat)>, i: nat) {
    && i < |bindings|
    && bindings[i].0 !in config
    && forall j :: 0 <= j < i ==> bindings[j].0 in config
  }

  /** Looks every option of `bindings` up with `config[...]`, in order; the
      first absent option is a panic. */
  function LookUpNames(config: Config, bindings: seq<(string, nat)>): (r: Result<seq<(string, nat)>, InputError>)
    ensures r.Ok? <==> forall i :: 0 <= i < |bindings| ==> bindings[i].0 in config
    ensures r.Ok? ==> |r.value| == |bindings|
    ensures r.Ok? ==> forall i :: 0 <= i < |bindings| ==> r.value[i] == (config[bindings[i].0], bindings[i].1)
    ensures r.Err? ==> exists i: nat :: FirstAbsent(config, bindings, i) && r.error == MissingConfigKey(bindings[i].0)
  {
    if |bindings| == 0 then Ok([])
    else if bindings[0].0 !in config then Err(MissingConfigKey(bindings[0].0))
    else
      match LookUpNames(config, bindings[1..])
      case Err(e) =>
        assert exists i: nat :: FirstAbsent(config, bindings, i) && e == MissingConfigKey(bindings[i].0) by {
          var i: nat :| FirstAbsent(config, bindings[1..], i) && e == MissingConfigKey(bindings[1..][i].0);
          assert FirstAbsent(config, bindings, i + 1);
        }
        Err(e)
      case Ok(rest) => Ok([(config[bindings[0].0], bindings[0].1)] + rest)
  }

  /** The map from the configured value of each binding's option to the
      binding's id; `Err` when an option is absent. */
  function LookedUpMap(config: Config, bindings: seq<(string, nat)>): (r: Result<map<string, nat>, InputError>)
    ensures r.Ok? <==> forall i :: 0 <= i < |bindings| ==> bindings[i].0 in config
    ensures r.Err? ==> exists i: nat :: FirstAbsent(config, bindings, i) && r.error == MissingConfigKey(bindings[i].0)
    ensures r.Ok? ==> |r.value| <= |bindings|
    ensures r.Ok? ==> forall i :: 0 <= i < |bindings| ==> config[bindings[i].0] in r.value
    ensures r.Ok? ==> forall k :: k in r.value ==>
              exists i :: 0 <= i < |bindings| && config[bindings[i].0] == k && r.value[k] == bindings[i].1
  {
    match LookUpNames(config, bindings)
    case Err(e) => Err(e)
    case Ok(ps) =>
      var m := FromPairs(ps);
      FromPairsKeys(ps);
      assert forall i :: 0 <= i < |bindings| ==> config[bindings[i].0] in m by {
        forall i | 0 <= i < |bindings| ensures config[bindings[i].0] in m {
          assert ps[i].0 in m;
        }
      }
      assert forall k :: k in m ==> exists i :: 0 <= i < |bindings| && config[bindings[i].0] == k && m[k] == bindings[i].1 by {
        forall k | k in m
          ensures exists i :: 0 <= i < |bindings| && config[bindings[i].0] == k && m[k] == bindings[i].1
        {
          var i :| 0 <= i < |ps| && ps[i].0 == k && m[k] == ps[i].1;
        }
      }
      Ok(m)
  }

  /** In a looked-up map, the id bound to a value is that of the last option
      configured with it. */
  lemma LookedUpMapLastWins(config: Config, bindings: seq<(string, nat)>, i: nat)
    requires LookedUpMap(config, bindings).Ok? && i < |bindings|
    requires forall j :: i < j < |bindings| ==> config[bindings[j].0] != config[bindings[i].0]
    ensures LookedUpMap(config, bindings).value[config[bindings[i].0]] == bindings[i].1
  {
    var ps := LookUpNames(config, bindings).value;
    assert ps[i].0 == config[bindings[i].0];
    assert IsLastWithName(ps, i) by {
      forall j | i < j < |ps| ensures ps[j].0 != ps[i].0 {
        assert ps[j].0 == config[bindings[j].0];
      }
    }
    FromPairsLastWins(ps, i);
  }

  /** `key_device_map`: keyboard key name to joypad id, read from the
      twelve `input_player1_*` options. */
  function KeyDeviceMap(config: Config): (r: Result<map<string, nat>, InputError>)
    ensures r.Ok? <==> forall i :: 0 <= i < |KEY_BINDINGS| ==> KEY_BINDINGS[i].0 in config
    ensures r.Err? ==> exists i: nat :: FirstAbsent(config, KEY_BINDINGS, i) && r.error == MissingConfigKey(KEY_BINDINGS[i].0)
    ensures r.Ok? ==> |r.value| <= 12
    ensures r.Ok? ==> forall i :: 0 <= i < |KEY_BINDINGS| ==> config[KEY_BINDINGS[i].0] in r.value
    ensures r.Ok? ==> forall k :: k in r.value ==>
              r.value[k] in JOYPAD_IDS && exists i :: 0 <= i < |KEY_BINDINGS| && config[KEY_BINDINGS[i].0] == k
  {
    BindingsBindJoypadIds();
    LookedUpMap(config, KEY_BINDINGS)
  }

  /** When two options name the same key, the later binding wins. */
  lemma KeyDeviceMapLastWins(config: Config, i: nat)
    requires forall j :: 0 <= j < |KEY_BINDINGS| ==> KEY_BINDINGS[j].0 in config
    requires i < |KEY_BINDINGS|
    requires forall j :: i < j < |KEY_BINDINGS| ==> config[KEY_BINDINGS[j].0] != config[KEY_BINDINGS[i].0]
    ensures KeyDeviceMap(config).Ok?
    ensures KeyDeviceMap(config).value[config[KEY_BINDINGS[i].0]] == KEY_BINDINGS[i].1
  {
    LookedUpMapLastWins(config, KEY_BINDINGS, i);
  }

  /** The gamepad button name for one binding: the configured value when the
      option is present, otherwise the decimal text of the joypad id. */
  function ButtonName(config: Config, option: string, id: nat): (name: string)
    ensures option in config ==> name == config[option]
    ensures option !in config ==> name == DecimalString(id)
  {
    if option in config then config[option] else DecimalString(id)
  }

  /** `HashMap::from` over the bindings, each named by `ButtonName`. */
  function NamedBindings(config: Config, bindings: seq<(string, nat)>): (m: map<string, nat>)
    ensures |m| <= |bindings|
    ensures forall i :: 0 <= i < |bindings| ==> ButtonName(config, bindings[i].0, bindings[i].1) in m
    ensures forall k :: k in m ==>
              exists i :: 0 <= i < |bindings| && ButtonName(config, bindings[i].0, bindings[i].1) == k && m[k] == bindings[i].1
  {
    var ps := seq(|bindings|, i requires 0 <= i < |bindings| =>
                   (ButtonName(config, bindings[i].0, bindings[i].1), bindings[i].1));
    var m := FromPairs(ps);
    FromPairsKeys(ps);
    assert forall k :: k in m ==>
             exists i :: 0 <= i < |bindings| && ButtonName(config, bindings[i].0, bindings[i].1) == k && m[k] == bindings[i].1 by {
      forall k | k in m
        ensures exists i :: 0 <= i < |bindings| && ButtonName(config, bindings[i].0, bindings[i].1) == k && m[k] == bindings[i].1
      {
        var i :| 0 <= i < |ps| && ps[i].0 == k && m[k] == ps[i].1;
        assert ps[i] == (ButtonName(config, bindings[i].0, bindings[i].1), bindings[i].1);
      }
    }
    assert forall i :: 0 <= i < |bindings| ==> ButtonName(config, bindings[i].0, bindings[i].1) in m by {
      forall i | 0 <= i < |bindings| ensures ButtonName(config, bindings[i].0, bindings[i].1) in m {
        assert ps[i].0 in m;
      }
    }
    m
  }

  /** `setup_joypad_device_map`: gamepad button name to joypad id. It never
      fails; an absent option falls back to the id's own decimal text. */
  function JoypadDeviceMap(config: Config): (m: map<string, nat>)
    ensures |m| <= 12
    ensures forall i :: 0 <= i < |BUTTON_BINDINGS| ==> ButtonName(config, BUTTON_BINDINGS[i].0, BUTTON_BINDINGS[i].1) in m
    ensures forall k :: k in m ==> m[k] in JOYPAD_IDS
    ensures forall k :: k in m ==>
              exists i :: 0 <= i < |BUTTON_BINDINGS| && ButtonName(config, BUTTON_BINDINGS[i].0, BUTTON_BINDINGS[i].1) == k
                          && m[k] == BUTTON_BINDINGS[i].1
  {
    BindingsBindJoypadIds();
    NamedBindings(config, BUTTON_BINDINGS)
  }
  /** With no `*_btn` option configured, every binding's joypad id is
      bound under its own decimal name (so the twelve names are distinct). */
  lemma DefaultJoypadDeviceMap(config: Config, i: nat)
    requires forall j :: 0 <= j < |BUTTON_BINDINGS| ==> BUTTON_BINDINGS[j].0 !in config
    requires i < |BUTTON_BINDINGS|
    ensures var m := JoypadDeviceMap(config); var id := BUTTON_BINDINGS[i].1;
      DecimalString(id) in m && m[DecimalString(id)] == id
  {
    var m := JoypadDeviceMap(config);
    var id := BUTTON_BINDINGS[i].1;
    assert ButtonName(config, BUTTON_BINDINGS[i].0, id) == DecimalString(id);
    var j :| 0 <= j < |BUTTON_BINDINGS| && ButtonName(config, BUTTON_BINDINGS[j].0, BUTTON_BINDINGS[j].1) == DecimalString(id)
             && m[DecimalString(id)] == BUTTON_BINDINGS[j].1;
    DecimalStringInjective(BUTTON_BINDINGS[j].1, id);
  }

  // ---------------------------------------------------------------------
  // Button vector
  // ---------------------------------------------------------------------

  /** The input-state callback: the button entry for `id`, or 0 past the
      end of the vector. Port, device and index are not consulted. */
  function InputState(buttons: ButtonVector, port: nat, device: nat, index: nat, id: nat): (v: i16)
    ensures id < BUTTON_COUNT ==> v == buttons[id]
    ensures id >= BUTTON_COUNT ==> v == 0
  {
    if id < |buttons| then buttons[id] else 0
  }

  /** `handle_keyboard_input` without the fullscreen toggle. `keyName` is the
      lower-cased debug name of the event's virtual keycode, `None` when the
      event has none. The source writes the entry twice in a row. */
  function HandleKeyboard(buttons: ButtonVector, keyMap: map<string, nat>, keyName: Option<string>,
                          state: ElementState): (r: Result<ButtonVector, InputError>)
    ensures keyName.None? <==> r == Err(MissingKeycode)
    ensures keyName.Some? && keyName.value !in keyMap ==> r == Ok(buttons)
    ensures (keyName.Some? && keyName.value in keyMap && keyMap[keyName.value] >= BUTTON_COUNT)
              ==> r == Err(IndexOutOfRange(keyMap[keyName.value]))
    ensures keyName.Some? && keyName.value in keyMap && keyMap[keyName.value] < BUTTON_COUNT ==>
              && r.Ok?
              && r.value[keyMap[keyName.value]] == Level(state == Pressed)
              && forall i :: 0 <= i < BUTTON_COUNT && i != keyMap[keyName.value] ==> r.value[i] == buttons[i]
  {
    if keyName.None? then Err(MissingKeycode)
    else if keyName.value !in keyMap then Ok(buttons)
    else
      var id := keyMap[keyName.value];
      if id >= |buttons| then Err(IndexOutOfRange(id))
      else
        var first: ButtonVector := buttons[id := if state == Pressed then 1 else 0];
        var second: ButtonVector := first[id := if state == Released then 0 else 1];
        Ok(second)
  }

  /** A key map built from the configuration never indexes past the vector. */
  lemma ConfiguredKeysStayInRange(config: Config, buttons: ButtonVector, key: string, state: ElementState)
    requires forall j :: 0 <= j < |KEY_BINDINGS| ==> KEY_BINDINGS[j].0 in config
    ensures KeyDeviceMap(config).Ok?
    ensures HandleKeyboard(buttons, KeyDeviceMap(config).value, Some(key), state).Ok?
  {
    JoypadIdsFitButtonVector();
  }

  /** After a key event for a bound key, the core reads 1 while the key is
      down and 0 once it is up. */
  lemma KeyEventIsVisibleToCore(buttons: ButtonVector, keyMap: map<string, nat>, key: string,
                                state: ElementState, port: nat, device: nat, index: nat)
    requires key in keyMap && keyMap[key] < BUTTON_COUNT
    ensures var r := HandleKeyboard(buttons, keyMap, Some(key), state);
      r.Ok? && InputState(r.value, port, device, index, keyMap[key]) == Level(state == Pressed)
  {
  }

  /** Pressing and then releasing a bound key leaves every entry as before,
      except that the key's entry reads 0. */
  lemma PressThenRelease(buttons: ButtonVector, keyMap: map<string, nat>, key: string)
    requires key in keyMap && keyMap[key] < BUTTON_COUNT
    ensures var pressed := HandleKeyboard(buttons, keyMap, Some(key), Pressed).value;
      HandleKeyboard(pressed, keyMap, Some(key), Released) == Ok(buttons[keyMap[key] := 0])
  {
    var pressed := HandleKeyboard(buttons, keyMap, Some(key), Pressed).value;
    var released := HandleKeyboard(pressed, keyMap, Some(key), Released).value;
    assert released == buttons[keyMap[key] := 0];
  }

  /** A joypad map value whose `as u32` truncation is a joypad id but which
      is itself past the end of the vector: translating it succeeds and the
      write that follows indexes out of range. */
  predicate GamepadIndexPanics(id: nat) {
    WrapU32(id) in JOYPAD_IDS && id >= BUTTON_COUNT
  }

  /** One entry of the gamepad pass. The value is truncated to `u32` for the
      translation but indexes the vector untruncated; a value that does not
      translate writes nothing. */
  function GamepadStep(buttons: ButtonVector, id: nat, isPressed: Button -> bool): (r: Result<ButtonVector, InputError>)
    ensures r.Err? <==> GamepadIndexPanics(id)
    ensures r.Err? ==> r.error == IndexOutOfRange(id)
    ensures r.Ok? ==> forall i :: 0 <= i < BUTTON_COUNT ==>
      r.value[i] == if i == id && i in JOYPAD_IDS then Level(isPressed(LibretroToButton(i).value)) else buttons[i]
  {
    match LibretroToButton(WrapU32(id))
    case None => Ok(buttons)
    case Some(button) =>
      if id >= |buttons| then Err(IndexOutOfRange(id))
      else Ok(buttons[id := Level(isPressed(button))])
  }

  /** The gamepad pass over the joypad map, visiting the values in `ids` in
      order. It panics exactly when some value translates but lies past the
      vector; otherwise each joypad id among the values takes its button's
      level and every other entry is unchanged. */
  function ApplyGamepad(buttons: ButtonVector, ids: seq<nat>, isPressed: Button -> bool): (r: Result<ButtonVector, InputError>)
    decreases |ids|
    ensures r.Err? <==> exists j :: 0 <= j < |ids| && GamepadIndexPanics(ids[j])
    ensures r.Err? ==> exists j :: 0 <= j < |ids| && GamepadIndexPanics(ids[j]) && r.error == IndexOutOfRange(ids[j])
    ensures r.Ok? ==> forall i :: 0 <= i < BUTTON_COUNT ==>
      r.value[i] == if i in ids && i in JOYPAD_IDS then Level(isPressed(LibretroToButton(i).value)) else buttons[i]
  {
    if |ids| == 0 then Ok(buttons)
    else
      assert ids == [ids[0]] + ids[1..];
      assert forall j :: 1 <= j < |ids| ==> ids[j] == ids[1..][j - 1];
      match GamepadStep(buttons, ids[0], isPressed)
      case Err(e) => Err(e)
      case Ok(next) => ApplyGamepad(next, ids[1..], isPressed)
  }

  /** `handle_gamepad_input`. `order` is the iteration order of the joypad
      map (a `HashMap`, so any enumeration of its keys); `gamepad` is the
      pressed-state of the active gamepad, `None` when there is none. */
  function HandleGamepad(buttons: ButtonVector, joypadMap: map<string, nat>, order: seq<string>,
                         gamepad: Option<Button -> bool>): (r: Result<ButtonVector, InputError>)
    requires forall k :: k in joypadMap <==> k in order
    ensures gamepad.None? ==> r == Ok(buttons)
    ensures gamepad.Some? ==> (r.Err? <==> exists v :: v in joypadMap.Values && GamepadIndexPanics(v))
    ensures r.Err? ==> exists v :: v in joypadMap.Values && GamepadIndexPanics(v) && r.error == IndexOutOfRange(v)
    ensures gamepad.Some? && r.Ok? ==> forall i :: 0 <= i < BUTTON_COUNT ==>
      r.value[i] == if i in joypadMap.Values && i in JOYPAD_IDS
                    then Level(gamepad.value(LibretroToButton(i).value)) else buttons[i]
  {
    match gamepad
    case None => Ok(buttons)
    case Some(isPressed) =>
      var ids := seq(|order|, j requires 0 <= j < |order| => joypadMap[order[j]]);
      assert forall i :: i in ids <==> i in joypadMap.Values by {
        forall i ensures i in ids <==> i in joypadMap.Values {
          if i in joypadMap.Values {
            var k :| k in joypadMap && joypadMap[k] == i;
            var j :| 0 <= j < |order| && order[j] == k;
            assert ids[j] == i;
          }
        }
      }
      ApplyGamepad(buttons, ids, isPressed)
  }

  /** A joypad map built from the configuration never makes the gamepad
      pass panic: every value is a joypad id, which fits the vector. */
  lemma ConfiguredGamepadStaysInRange(config: Config, buttons: ButtonVector, order: seq<string>,
                                      gamepad: Option<Button -> bool>)
    requires forall k :: k in JoypadDeviceMap(config) <==> k in order
    ensures HandleGamepad(buttons, JoypadDeviceMap(config), order, gamepad).Ok?
  {
    JoypadIdsFitButtonVector();
  }

  /** A map value of 2^32 + 8 truncates to the id of the A button, so the
      pass translates it and then writes past the end of the vector. */
  lemma TruncatedIdPanics(buttons: ButtonVector, name: string, isPressed: Button -> bool)
    ensures HandleGamepad(buttons, map[name := 0x1_0000_0008], [name], Some(isPressed))
            == Err(IndexOutOfRange(0x1_0000_0008))
  {
    assert WrapU32(0x1_0000_0008) == JOYPAD_A;
  }

  /** The binding of `setup_joypad_device_map` that carries joypad id `id`. */
  function BindingOf(id: nat): (b: nat)
    requires id in JOYPAD_IDS
    ensures b < |BUTTON_BINDINGS| && BUTTON_BINDINGS[b].1 == id
  {
    if id == JOYPAD_A then 0 else if id == JOYPAD_B then 1
    else if id == JOYPAD_X then 2 else if id == JOYPAD_Y then 3
    else if id == JOYPAD_L then 4 else if id == JOYPAD_R then 5
    else if id == JOYPAD_DOWN then 6 else if id == JOYPAD_UP then 7
    else if id == JOYPAD_RIGHT then 8 else if id == JOYPAD_LEFT then 9
    else if id == JOYPAD_START then 10 else 11
  }

  /** With the default gamepad map, a gamepad pass sets every one of the
      twelve joypad entries from the gamepad's button state. */
  lemma DefaultGamepadCoversEveryButton(config: Config, buttons: ButtonVector, order: seq<string>,
                                        isPressed: Button -> bool, id: nat)
    requires forall j :: 0 <= j < |BUTTON_BINDINGS| ==> BUTTON_BINDINGS[j].0 !in config
    requires forall k :: k in JoypadDeviceMap(config) <==> k in order
    requires id in JOYPAD_IDS
    ensures id < BUTTON_COUNT
    ensures var r := HandleGamepad(buttons, JoypadDeviceMap(config), order, Some(isPressed));
      r.Ok? && r.value[id] == Level(isPressed(LibretroToButton(id).value))
  {
    JoypadIdsFitButtonVector();
    ConfiguredGamepadStaysInRange(config, buttons, order, Some(isPressed));
    DefaultJoypadDeviceMap(config, BindingOf(id));
    assert id in JoypadDeviceMap(config).Values;
  }
}
