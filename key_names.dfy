/** Translation between Qt key codes and the key names the input dialog shows and stores.

    The few key codes the dialog names itself are spelled out; every other code goes
    through Qt's QKeySequence, which this model does not contain. It is passed in as a
    pair of opaque functions, `render` (QKeySequence(code).toString()) and `parse` (the
    first key of QKeySequence(text)), and nothing is assumed about how they relate.
    Text passed through tr() is taken to be the untranslated literal.
 */
module KeyNames {

  // Numeric values of the Qt::Key enumerators the dialog mentions (Qt 5).
  const KEY_ESCAPE: int := 0x0100_0000
  const KEY_SHIFT: int := 0x0100_0020
  const KEY_CONTROL: int := 0x0100_0021
  const KEY_META: int := 0x0100_0022
  const KEY_ALT: int := 0x0100_0023
  const KEY_UNKNOWN: int := 0x01ff_ffff

  /** Qt's QKeySequence, seen only through its string conversions. */
  datatype KeySequence = KeySequence(render: int -> string, parse: string -> int)

  /** The three modifiers that get a fixed short name. */
  predicate IsModifier(code: int) {
    code == KEY_SHIFT || code == KEY_CONTROL || code == KEY_ALT
  }

  /** Codes shown as an empty name: the Meta key and the "no key" value -1. */
  predicate IsBlankCode(code: int) {
    code == KEY_META || code == -1
  }

  /** The names given to the three modifiers. */
  predicate IsFixedName(text: string) {
    text == "Shift" || text == "Ctrl" || text == "Alt"
  }

  /** Names read back as "no key". */
  predicate IsBlankName(text: string) {
    text == "" || text == "Meta"
  }

  /** getKeyName: the name shown for a key code. */
  function GetKeyName(code: int, ks: KeySequence): (name: string)
    ensures code == KEY_SHIFT ==> name == "Shift"
    ensures code == KEY_CONTROL ==> name == "Ctrl"
    ensures code == KEY_ALT ==> name == "Alt"
    ensures IsModifier(code) ==> IsFixedName(name) && GetKeyValue(name, ks) == code
    ensures IsBlankCode(code) ==> name == "" && GetKeyValue(name, ks) == KEY_UNKNOWN
    ensures !IsModifier(code) && !IsBlankCode(code) ==> name == ks.render(code)
  {
    if code == KEY_SHIFT then "Shift"
    else if code == KEY_CONTROL then "Ctrl"
    else if code == KEY_ALT then "Alt"
    else if code == KEY_META then ""
    else if code == -1 then ""
    else ks.render(code)
  }

  /** getKeyValue: the key code stored for a shown name. */
  function GetKeyValue(text: string, ks: KeySequence): (code: int)
    ensures text == "Shift" ==> code == KEY_SHIFT
    ensures text == "Ctrl" ==> code == KEY_CONTROL
    ensures text == "Alt" ==> code == KEY_ALT
    ensures IsBlankName(text) ==> code == KEY_UNKNOWN
    ensures !IsFixedName(text) && !IsBlankName(text) ==> code == ks.parse(text)
  {
    if text == "Shift" then KEY_SHIFT
    else if text == "Ctrl" then KEY_CONTROL
    else if text == "Alt" then KEY_ALT
    else if text == "Meta" then KEY_UNKNOWN
    else if text == "" then KEY_UNKNOWN
    else ks.parse(text)
  }

  /** A name the dialog gives a modifier reads back to that modifier and shows as itself again. */
  lemma FixedNameRoundTrip(text: string, ks: KeySequence)
    requires IsFixedName(text)
    ensures IsModifier(GetKeyValue(text, ks))
    ensures GetKeyName(GetKeyValue(text, ks), ks) == text
  {
  }

  /** Meta and -1 are not told apart: they are shown as the same name, and that name is
      stored as Key_unknown, which is neither of them. */
  lemma BlankCodesCollapse(ks: KeySequence)
    ensures GetKeyName(KEY_META, ks) == GetKeyName(-1, ks)
    ensures GetKeyValue(GetKeyName(KEY_META, ks), ks) == KEY_UNKNOWN != KEY_META
    ensures GetKeyValue(GetKeyName(-1, ks), ks) == KEY_UNKNOWN != -1
  {
  }

  /** An empty name is stored as Key_unknown, and Key_unknown is not one of the codes that is
      shown as empty: loading it again asks QKeySequence for its text. */
  lemma BlankNameReload(text: string, ks: KeySequence)
    requires IsBlankName(text)
    ensures GetKeyName(GetKeyValue(text, ks), ks) == ks.render(KEY_UNKNOWN)
  {
    assert !IsModifier(KEY_UNKNOWN) && !IsBlankCode(KEY_UNKNOWN);
  }

  /** getKeyName produces "Meta" only when QKeySequence renders some ordinary code that way,
      so the "Meta" case of getKeyValue is reached only through the renderer. */
  lemma MetaNameOnlyFromRenderer(code: int, ks: KeySequence)
    requires GetKeyName(code, ks) == "Meta"
    ensures !IsModifier(code) && !IsBlankCode(code) && ks.render(code) == "Meta"
  {
  }

  /** Outside the special cases nothing guarantees a round trip: QKeySequence alone need not
      give back the code it rendered. Here Escape is rendered as an ordinary name, "Esc",
      which the parser reads as another code. */
  lemma GeneralCodesNeedNotRoundTrip()
    ensures exists ks: KeySequence ::
      GetKeyName(KEY_ESCAPE, ks) == ks.render(KEY_ESCAPE) && !IsBlankName(ks.render(KEY_ESCAPE)) &&
      GetKeyValue(GetKeyName(KEY_ESCAPE, ks), ks) != KEY_ESCAPE
  {
    var ks := KeySequence(c => if c == KEY_ESCAPE then "Esc" else "", _ => 0);
    assert GetKeyName(KEY_ESCAPE, ks) == "Esc";
    assert GetKeyValue("Esc", ks) == 0;
  }
}
