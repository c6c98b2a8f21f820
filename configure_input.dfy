/** The key-binding editor of the input settings dialog: a fixed table of NUM_INPUTS slots,
    one per emulated input (A, B, X, Y, L, R, ZL, ZR, Start, Select, Home, the four D-pad
    directions, the four C-stick directions, the four circle-pad directions and the circle-pad
    modifier, in that order), and the capture cycle that rebinds one slot.

    Each slot holds the text shown on its button (`text`) and the key name stored with the
    button (`key`). A click starts a capture on one slot; the next key press, or the timeout,
    resolves it. The settings table of integer key codes is outside this model: it is read as
    a parameter and written as a result.
 */
module ConfigureInput {
  import opened KeyNames

  datatype Option<T> = None | Some(value: T)

  const NUM_INPUTS: nat := 24

  /** Text a button shows while it waits for a key. */
  const WAITING_TEXT: string := "[waiting]"

  /** The names shown for a table of key codes, slot by slot. */
  function Names(codes: seq<int>, ks: KeySequence): (names: seq<string>)
    ensures |names| == |codes|
  {
    seq(|codes|, i requires 0 <= i < |codes| => GetKeyName(codes[i], ks))
  }

  /** The key codes stored for a table of key names, slot by slot. */
  function Codes(names: seq<string>, ks: KeySequence): (codes: seq<int>)
    ensures |codes| == |names|
  {
    seq(|names|, i requires 0 <= i < |names| => GetKeyValue(names[i], ks))
  }

  /** The key column after a capture on `slot` is resolved with key code `pressed`:
      Escape puts back `previous`, any other key binds its name; then every other slot
      holding the name of `pressed` is cleared. */
  function Rebind(keys: seq<string>, slot: nat, pressed: int, previous: string, ks: KeySequence): (rebound: seq<string>)
    requires slot < |keys|
    ensures |rebound| == |keys|
  {
    var pressedName := GetKeyName(pressed, ks);
    var bound := if pressed == KEY_ESCAPE then previous else pressedName;
    seq(|keys|, j requires 0 <= j < |keys| =>
      if j == slot then bound else if keys[j] == pressedName then "" else keys[j])
  }

  /** No non-empty key name is held by two slots. */
  predicate DistinctNames(keys: seq<string>) {
    forall i, j :: 0 <= i < |keys| && 0 <= j < |keys| && i != j && keys[i] != "" ==> keys[i] != keys[j]
  }

  /** After binding a key with a non-empty name, no other slot holds that name. */
  lemma NewBindingIsUnique(keys: seq<string>, slot: nat, pressed: int, previous: string, ks: KeySequence)
    requires slot < |keys| && pressed != KEY_ESCAPE && GetKeyName(pressed, ks) != ""
    ensures forall j :: 0 <= j < |keys| && j != slot ==>
      Rebind(keys, slot, pressed, previous, ks)[j] != Rebind(keys, slot, pressed, previous, ks)[slot]
  {
  }

  /** A cancelled capture still evicts: every other slot bound to the name of Escape is cleared. */
  lemma CancelEvictsEscapeName(keys: seq<string>, slot: nat, j: nat, previous: string, ks: KeySequence)
    requires slot < |keys| && j < |keys| && j != slot
    requires keys[j] == ks.render(KEY_ESCAPE) && keys[j] != ""
    ensures Rebind(keys, slot, KEY_ESCAPE, previous, ks)[slot] == previous
    ensures Rebind(keys, slot, KEY_ESCAPE, previous, ks)[j] == ""
    ensures Rebind(keys, slot, KEY_ESCAPE, previous, ks) != keys[slot := previous]
  {
  }

  /** A cancelled capture leaves the table exactly as it was before the click if and only if
      no other slot holds the (non-empty) name of Escape. */
  lemma CancelUnchangedIff(keys: seq<string>, slot: nat, ks: KeySequence)
    requires slot < |keys|
    ensures Rebind(keys, slot, KEY_ESCAPE, keys[slot], ks) == keys <==>
      (GetKeyName(KEY_ESCAPE, ks) == "" ||
       forall j :: 0 <= j < |keys| && j != slot ==> keys[j] != GetKeyName(KEY_ESCAPE, ks))
  {
  }

  /** Resolving a capture keeps the table free of duplicate names, provided the capturing slot
      still holds the name that a cancel puts back. */
  lemma RebindKeepsDistinct(keys: seq<string>, slot: nat, pressed: int, previous: string, ks: KeySequence)
    requires slot < |keys| && DistinctNames(keys)
    requires pressed == KEY_ESCAPE ==> previous == keys[slot]
    ensures DistinctNames(Rebind(keys, slot, pressed, previous, ks))
  {
  }

  /** Capturing a key on a slot and then applying stores that key's code for the slot;
      for the three named modifiers it is the pressed code itself. */
  lemma ApplyAfterCapture(keys: seq<string>, slot: nat, pressed: int, previous: string, ks: KeySequence)
    requires slot < |keys| && pressed != KEY_ESCAPE
    ensures Codes(Rebind(keys, slot, pressed, previous, ks), ks)[slot] == GetKeyValue(GetKeyName(pressed, ks), ks)
    ensures IsModifier(pressed) ==> Codes(Rebind(keys, slot, pressed, previous, ks), ks)[slot] == pressed
  {
  }

  /** Applying and then loading again gives back every modifier name, and turns every
      empty name into whatever QKeySequence calls Key_unknown. */
  lemma ReloadAfterApply(names: seq<string>, ks: KeySequence)
    ensures |Names(Codes(names, ks), ks)| == |names|
    ensures forall i :: 0 <= i < |names| && IsFixedName(names[i]) ==> Names(Codes(names, ks), ks)[i] == names[i]
    ensures forall i :: 0 <= i < |names| && IsBlankName(names[i]) ==>
      Names(Codes(names, ks), ks)[i] == ks.render(KEY_UNKNOWN)
  {
  }

  /** The editor. `changing` is the slot being captured (the button pointer of the dialog,
      None when idle), `previous` the key name it held when the capture started,
      `keyPressed` the key that resolves the capture and `timerRunning` whether the
      capture timeout is armed. */
  class KeyBindingEditor {
    const ks: KeySequence
    const text: array<string>
    const key: array<string>
    var changing: Option<nat>
    var previous: string
    var keyPressed: int
    var timerRunning: bool

    /** The fixed table: every slot but the one being captured shows its stored name. */
    ghost predicate Table()
      reads this, text, key
    {
      text.Length == NUM_INPUTS && key.Length == NUM_INPUTS && text != key &&
      (changing.Some? ==> changing.value < NUM_INPUTS) &&
      forall i :: 0 <= i < NUM_INPUTS && changing != Some(i) ==> text[i] == key[i]
    }

    /** Between events: the timer runs exactly while a capture is open, an idle editor keeps
        no previous name, and no key is pending. */
    ghost predicate Valid()
      reads this, text, key
    {
      Table() &&
      (timerRunning <==> changing.Some?) &&
      (changing.None? ==> previous == "") &&
      keyPressed == KEY_UNKNOWN
    }

    /** The dialog's constructor: an idle editor loaded from the settings table. */
    constructor (mappings: seq<int>, ks: KeySequence)
      requires |mappings| == NUM_INPUTS
      ensures Valid() && changing.None? && this.ks == ks
      ensures fresh(text) && fresh(key)
      ensures text[..] == Names(mappings, ks) && key[..] == Names(mappings, ks)
    {
      this.ks := ks;
      text := new string[NUM_INPUTS](_ => "");
      key := new string[NUM_INPUTS](_ => "");
      changing := None;
      previous := "";
      keyPressed := KEY_UNKNOWN;
      timerRunning := false;
      new;
      SetConfiguration(mappings);
    }

    /** handleClick: start capturing on slot `i`. The input grab of the dialog is what keeps a
        second capture from starting, so a click arrives only when idle. */
    method HandleClick(i: nat)
      requires Valid() && changing.None? && i < NUM_INPUTS
      modifies this, text
      ensures Valid() && changing == Some(i) && timerRunning
      ensures previous == old(key[i])
      ensures text[i] == WAITING_TEXT
      ensures forall j :: 0 <= j < NUM_INPUTS && j != i ==> text[j] == old(text[j])
      ensures key[..] == old(key[..])
    {
      previous := key[i];
      text[i] := WAITING_TEXT;
      changing := Some(i);
      timerRunning := true;
    }

    /** keyPressEvent: `event` is None for a null event. Outside a capture, for a null event and
        for Key_unknown nothing changes; any other key stops the timer and resolves the capture. */
    method KeyPress(event: Option<int>)
      requires Valid()
      modifies this, text, key
      ensures Valid()
      ensures old(changing).None? || event.None? || event.value == KEY_UNKNOWN ==>
        changing == old(changing) && previous == old(previous) && timerRunning == old(timerRunning) &&
        text[..] == old(text[..]) && key[..] == old(key[..])
      ensures old(changing).Some? && event.Some? && event.value != KEY_UNKNOWN ==>
        changing.None? && !timerRunning && text[..] == key[..] &&
        key[..] == Rebind(old(key[..]), old(changing).value, event.value, old(previous), ks)
    {
      if changing.None? {
        return;
      }
      if event.None? || event.value == KEY_UNKNOWN {
        return;
      }
      keyPressed := event.value;
      timerRunning := false;
      SetKey();
    }

    /** The timer's handler: the single-shot timer has fired, and the capture is resolved
        as if Escape had been pressed. */
    method Timeout()
      requires Valid() && timerRunning
      modifies this, text, key
      ensures Valid() && changing.None? && !timerRunning
      ensures text[..] == key[..]
      ensures key[..] == Rebind(old(key[..]), old(changing).value, KEY_ESCAPE, old(previous), ks)
    {
      timerRunning := false;
      keyPressed := KEY_ESCAPE;
      SetKey();
    }

    /** setKey: bind the pending key to the capturing slot (Escape restores the previous name),
        evict every other slot holding the pending key's name, and return to idle. */
    method SetKey()
      requires Table() && changing.Some?
      modifies this, text, key
      ensures Table() && changing.None? && previous == "" && keyPressed == KEY_UNKNOWN
      ensures timerRunning == old(timerRunning)
      ensures text[..] == key[..]
      ensures key[..] == Rebind(old(key[..]), old(changing).value, old(keyPressed), old(previous), ks)
    {
      var keyValue := GetKeyName(keyPressed, ks);
      var slot := changing.value;
      if keyPressed == KEY_ESCAPE {
        text[slot] := previous;
        key[slot] := previous;
      } else {
        text[slot] := keyValue;
        key[slot] := keyValue;
      }
      ghost var bound := key[..];
      RemoveDuplicates(keyValue);
      assert forall j :: 0 <= j < NUM_INPUTS ==> text[j] == key[j];
      assert key[..] == Rebind(old(key[..]), slot, old(keyPressed), old(previous), ks) by {
        forall j | 0 <= j < NUM_INPUTS
          ensures key[j] == Rebind(old(key[..]), slot, old(keyPressed), old(previous), ks)[j]
        {
          assert j != slot ==> bound[j] == old(key[j]);
        }
      }
      keyPressed := KEY_UNKNOWN;
      changing := None;
      previous := "";
    }

    /** removeDuplicates: clear text and key of every slot other than the capturing one whose
        stored key name is `newValue`. */
    method RemoveDuplicates(newValue: string)
      requires Table()
      modifies text, key
      ensures Table()
      ensures forall j :: 0 <= j < NUM_INPUTS ==>
        if changing != Some(j) && old(key[j]) == newValue then text[j] == "" && key[j] == ""
        else text[j] == old(text[j]) && key[j] == old(key[j])
    {
      for i := 0 to NUM_INPUTS
        invariant Table()
        invariant forall j :: 0 <= j < i ==>
          if changing != Some(j) && old(key[j]) == newValue then text[j] == "" && key[j] == ""
          else text[j] == old(text[j]) && key[j] == old(key[j])
        invariant forall j :: i <= j < NUM_INPUTS ==> text[j] == old(text[j]) && key[j] == old(key[j])
      {
        if changing != Some(i) {
          var oldValue := key[i];
          if newValue == oldValue {
            text[i] := "";
            key[i] := "";
          }
        }
      }
    }

    /** setConfiguration: show and store, in every slot, the name of the settings table's code. */
    method SetConfiguration(mappings: seq<int>)
      requires Table() && |mappings| == NUM_INPUTS
      modifies text, key
      ensures Table()
      ensures text[..] == Names(mappings, ks) && key[..] == Names(mappings, ks)
    {
      for i := 0 to NUM_INPUTS
        invariant Table()
        invariant forall j :: 0 <= j < i ==> text[j] == GetKeyName(mappings[j], ks) && key[j] == text[j]
      {
        var keyValue := GetKeyName(mappings[i], ks);
        text[i] := keyValue;
        key[i] := keyValue;
      }
    }

    /** restoreDefaults: the same load from the table of default codes. The settings table is
        not a field of the editor and stays as it was until the next apply. */
    method RestoreDefaults(defaults: seq<int>)
      requires Table() && |defaults| == NUM_INPUTS
      modifies text, key
      ensures Table()
      ensures text[..] == Names(defaults, ks) && key[..] == Names(defaults, ks)
    {
      for i := 0 to NUM_INPUTS
        invariant Table()
        invariant forall j :: 0 <= j < i ==> text[j] == GetKeyName(defaults[j], ks) && key[j] == text[j]
      {
        var keyValue := GetKeyName(defaults[i], ks);
        text[i] := keyValue;
        key[i] := keyValue;
      }
    }

    /** applyConfiguration: the settings table written back, the code of every slot's stored
        key name, in slot order. */
    method ApplyConfiguration() returns (mappings: seq<int>)
      requires Table()
      ensures |mappings| == NUM_INPUTS
      ensures mappings == Codes(key[..], ks)
    {
      mappings := [];
      for i := 0 to NUM_INPUTS
        invariant mappings == Codes(key[..i], ks)
      {
        mappings := mappings + [GetKeyValue(key[i], ks)];
      }
      assert key[..NUM_INPUTS] == key[..];
    }
  }
}
