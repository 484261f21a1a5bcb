/**
 * The numeric keypad of the field editor (Code_Prototype_1.js, lines
 * 242-254): each key either confirms the edit or rewrites the input
 * buffer.
 */
module Keypad {
  /** A keypad key, by its trimmed label. */
  datatype Key = OkKey | ClearKey | BackKey | SignKey | TextKey(text: string)

  /** What a key press leads to: the editor applies the buffer, or the buffer changes. */
  datatype Outcome = Apply | Input(buffer: string)

  /**
   * One key press on the buffer: OK applies it, CLR empties it, the back
   * arrow drops its last character (nothing on an empty buffer), the sign
   * key strips a leading `-` or prepends one, any other key appends its
   * label.
   */
  function Press(buffer: string, key: Key): (r: Outcome)
    ensures r.Apply? <==> key.OkKey?
    ensures key.ClearKey? ==> r == Input("")
    ensures key.BackKey? ==> r.Input? && r.buffer <= buffer
                             && |r.buffer| == if buffer == [] then 0 else |buffer| - 1
    ensures key.TextKey? ==> r == Input(buffer + key.text)
    ensures key.SignKey? && |buffer| > 0 && buffer[0] == '-' ==> r.Input? && "-" + r.buffer == buffer
    ensures key.SignKey? && !(|buffer| > 0 && buffer[0] == '-') ==> r == Input("-" + buffer)
  {
    match key
    case OkKey => Apply
    case ClearKey => Input("")
    case BackKey => Input(if buffer == [] then [] else buffer[..|buffer| - 1])
    case SignKey => Input(if |buffer| > 0 && buffer[0] == '-' then buffer[1..] else "-" + buffer)
    case TextKey(t) => Input(buffer + t)
  }

  /**
   * Pressing the sign key twice gives the buffer back exactly when the
   * buffer does not start with two minus signs; `--5` becomes `5`.
   */
  lemma SignTwice(buffer: string)
    ensures Press(Press(buffer, SignKey).buffer, SignKey) == Input(buffer)
        <==> !(|buffer| > 1 && buffer[0] == '-' && buffer[1] == '-')
  {
    var once := Press(buffer, SignKey).buffer;
    if |buffer| > 0 && buffer[0] == '-' {
      assert once == buffer[1..];
      if |buffer| > 1 && buffer[1] == '-' {
        assert |Press(once, SignKey).buffer| == |buffer| - 2;
      } else {
        assert "-" + once == buffer;
      }
    } else {
      assert ("-" + buffer)[1..] == buffer;
    }
  }

  /** A typed label followed by as many back presses as it has characters is undone. */
  lemma {:induction false} BackUndoesText(buffer: string, typed: string)
    ensures Erase(buffer + typed, |typed|) == buffer
    decreases |typed|
  {
    if typed != [] {
      var shorter := typed[..|typed| - 1];
      assert (buffer + typed)[..|buffer + typed| - 1] == buffer + shorter;
      BackUndoesText(buffer, shorter);
    }
  }

  /** The buffer after `k` presses of the back arrow. */
  function Erase(buffer: string, k: nat): (r: string)
    ensures |r| == if k <= |buffer| then |buffer| - k else 0
    ensures r <= buffer
  {
    if k == 0 then buffer else Erase(Press(buffer, BackKey).buffer, k - 1)
  }
}
