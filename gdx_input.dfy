/**
 * The part of the toolkit's input state that the editor polls: which keys
 * and which mouse buttons are held right now. The codes are those of the
 * libGDX `Input.Keys` and `Input.Buttons` tables (that class is not part of
 * this model). Handlers receive a snapshot of this state as a parameter
 * instead of polling a global.
 */
module GdxInput {

  const ALT_LEFT: int := 57
  const SHIFT_LEFT: int := 59
  const SHIFT_RIGHT: int := 60
  const SPACE: int := 62
  const SYM: int := 63
  const CONTROL_LEFT: int := 129
  const CONTROL_RIGHT: int := 130

  const BUTTON_LEFT: int := 0
  const BUTTON_RIGHT: int := 1

  datatype InputState = InputState(pressedKeys: set<int>, pressedButtons: set<int>) {
    predicate IsKeyPressed(keycode: int) {
      keycode in pressedKeys
    }

    predicate IsButtonPressed(button: int) {
      button in pressedButtons
    }
  }
}
