# Key-binding editor of the input settings dialog

This project models the key-binding editor of the input settings dialog of the Citra
emulator (`src/citra_qt/configure_input.cpp`) and proves properties about that model.

The dialog keeps a fixed table of 24 slots, one for each emulated input. Each slot holds two
strings: the text shown on its button and the key name stored with the button. Clicking a
button starts a capture on that slot. The next key press resolves the capture, or a timeout
does. Escape or the timeout cancels and puts the previous name back. Any other key binds its
name to the slot, and every other slot holding that name is cleared. The table can also be
loaded from the settings' integer key codes or from the default codes, and written back as
codes.

- `key_names.dfy` (module `KeyNames`) holds the translation between Qt key codes and key
  names. Three modifiers get fixed names. Meta and -1 are shown as an empty name. Every other
  code goes through Qt's `QKeySequence`, passed in as a `KeySequence` value: a pair of opaque
  functions `render` and `parse` with no assumed relationship. The Qt key values used are
  Qt 5's: Escape 0x01000000, Shift 0x01000020, Control 0x01000021, Meta 0x01000022,
  Alt 0x01000023 and unknown 0x01ffffff.
- `configure_input.dfy` (module `ConfigureInput`) holds the class `KeyBindingEditor`. Its
  two arrays are `text` (the button text) and `key` (the button's `"key"` property). The
  capture state is:
  - `changing`: the capturing slot, None when idle;
  - `previous`: the name that slot held when the capture started;
  - `keyPressed`: the key that resolves the capture;
  - `timerRunning`: whether the timeout is armed.

  The pure functions `Names`, `Codes` and `Rebind` describe loading the table, storing it,
  and what one resolved capture does to the key column. The event methods are proved
  against these functions. `Valid()` is the editor's invariant: every slot except the
  capturing one shows its stored name, and the timer runs exactly while a capture is open.

The model exposes one quirk of the code. A cancelled capture still evicts: `setKey` passes
the name of the Escape key to `removeDuplicates` even when it restores the previous name.
So any other slot bound to Escape's name is cleared (`CancelEvictsEscapeName`, and `Rebind`
with `KEY_ESCAPE` in `Timeout` and `KeyPress`).

Two details of the code shape the model:
- A slot stores the key's name, not its code; the code is produced only on apply
  (configure_input.cpp:73, 83, 104).
- Duplicates are found by comparing the stored key names, not the button texts
  (configure_input.cpp:147-149).

## Model

| member | source | states |
|---|---|---|
| KeyNames.GetKeyName | src/citra_qt/configure_input.cpp:114-127 | Key_Shift, Key_Control and Key_Alt get the names "Shift", "Ctrl" and "Alt" respectively, which read back to the same code; Meta and -1 are shown as "" and read back as Key_unknown; every other code is shown as QKeySequence renders it |
| KeyNames.GetKeyValue | src/citra_qt/configure_input.cpp:129-142 | "Shift", "Ctrl" and "Alt" read back as Key_Shift, Key_Control and Key_Alt respectively; "" and "Meta" read back as Key_unknown; any other text reads back as QKeySequence parses it |
| KeyNames.FixedNameRoundTrip | src/citra_qt/configure_input.cpp:114-142 | a modifier name reads back to a modifier code, which shows as the same name again |
| KeyNames.BlankCodesCollapse | src/citra_qt/configure_input.cpp:114-142 | Meta and -1 are not told apart: both are shown as the same name and both are stored as Key_unknown |
| KeyNames.BlankNameReload | src/citra_qt/configure_input.cpp:114-142 | "" and "Meta" are stored as Key_unknown, and loading that code again shows QKeySequence's text for Key_unknown, because Key_unknown is not one of the codes shown as empty |
| KeyNames.MetaNameOnlyFromRenderer | src/citra_qt/configure_input.cpp:114-137 | getKeyName yields "Meta" only when QKeySequence renders an ordinary code so, so the "Meta" case of getKeyValue is reachable only through the renderer |
| KeyNames.GeneralCodesNeedNotRoundTrip | src/citra_qt/configure_input.cpp:114-142 | outside the special cases nothing guarantees a round trip: for some QKeySequence behaviour, whose text for Escape is an ordinary non-blank name, Escape does not come back as Escape |
| ConfigureInput.NewBindingIsUnique | src/citra_qt/configure_input.cpp:97-155 | after binding a key with a non-empty name no other slot holds that name |
| ConfigureInput.CancelEvictsEscapeName | src/citra_qt/configure_input.cpp:97-106 | a cancelled capture restores the slot and still clears every other slot bound to Escape's name, so the table is not just the old one with the slot restored |
| ConfigureInput.CancelUnchangedIff | src/citra_qt/configure_input.cpp:97-112 | a cancelled capture (Escape or timeout, restoring the name saved at the click) leaves the whole table as it was exactly when Escape's name is empty or no other slot holds it |
| ConfigureInput.RebindKeepsDistinct | src/citra_qt/configure_input.cpp:97-155 | a table without duplicate non-empty names keeps that property through a capture, provided the slot still holds the name a cancel restores |
| ConfigureInput.ApplyAfterCapture | src/citra_qt/configure_input.cpp:70-112 | capturing key K on slot S and then applying stores getKeyValue(getKeyName(K)) for S, which is K itself for the three modifiers |
| ConfigureInput.ReloadAfterApply | src/citra_qt/configure_input.cpp:70-85 | applying and loading again gives back every modifier name and turns every blank name into QKeySequence's text for Key_unknown |
| ConfigureInput.KeyBindingEditor.constructor | src/citra_qt/configure_input.cpp:48-56 | a new editor is idle with no timer running, and every slot shows and stores the name of its settings code |
| ConfigureInput.KeyBindingEditor.HandleClick | src/citra_qt/configure_input.cpp:58-68 | from idle: remembers the slot's stored name, shows "[waiting]" on it, leaves its stored name and every other slot unchanged, opens the capture and arms the timer |
| ConfigureInput.KeyBindingEditor.KeyPress | src/citra_qt/configure_input.cpp:87-95 | nothing changes when idle, for a null event or for Key_unknown; otherwise the timer stops, the capture is resolved as Rebind says, the editor is idle and every slot shows its stored name |
| ConfigureInput.KeyBindingEditor.Timeout | src/citra_qt/configure_input.cpp:51-54 | while the timer runs: resolves the capture as an Escape press (restore plus eviction of Escape's name) and returns to idle |
| ConfigureInput.KeyBindingEditor.SetKey | src/citra_qt/configure_input.cpp:97-112 | the key column becomes Rebind of the old one, every slot shows its stored name, and the editor is idle with no previous name and no pending key |
| ConfigureInput.KeyBindingEditor.RemoveDuplicates | src/citra_qt/configure_input.cpp:144-155 | exactly the slots other than the capturing one whose stored name equals the value get both text and name cleared; all others are unchanged |
| ConfigureInput.KeyBindingEditor.SetConfiguration | src/citra_qt/configure_input.cpp:79-85 | every slot shows and stores the name of the settings code at its index |
| ConfigureInput.KeyBindingEditor.RestoreDefaults | src/citra_qt/configure_input.cpp:157-163 | every slot shows and stores the name of the default code at its index; the capture state is untouched and the settings table is not written |
| ConfigureInput.KeyBindingEditor.ApplyConfiguration | src/citra_qt/configure_input.cpp:70-77 | the settings table written back holds, for every one of the 24 slots in order, the code of the slot's stored name |

## Left out

- Widget construction, `setupUi` and the signal/slot connections: buttons are the slot indices 0..23.
- `grabKeyboard`, `grabMouse`, their release and `setFocus`: platform input capture. Their effect is modelled only as HandleClick's precondition that the editor is idle.
- The 5-second duration of the timer: the timeout is a discrete `Timeout` event, possible only while the timer runs. Stopping the timer clears `timerRunning`.
- `QKeySequence` rendering and parsing: a foreign library, taken as the opaque functions of `KeySequence`.
- `tr()`: taken to be the identity, because getKeyValue compares against the untranslated literals.
- `Settings::Apply()`, the storage behind `Settings::values` and the contents of `Config::defaults`: external persistence. The model reads the settings codes and the defaults as parameters (the defaults after their `toInt()` conversion), and `ApplyConfiguration` returns the table it writes.
- `Settings::NativeInput::All`: its header is not part of this model; it is taken as the identity on indices 0..23.
- KeyBindingEditor.Valid: does not say that the capturing slot still stores `previous`, because SetConfiguration and RestoreDefaults do not require an idle editor; HandleClick's postcondition states it, and RebindKeepsDistinct takes it as a precondition.
