/**
 * `format_shortcut(text)` (libs/utils.py): splits a shortcut such as
 * "Ctrl+S" at its first '+' and shows both halves in bold. Text without a
 * '+' makes Python's two-name unpacking raise ValueError; the model returns
 * None there.
 */
module Shortcut {
  import opened Wrappers

  /** Where `text.split('+', 1)` cuts: the index of the first '+', if any. */
  function FirstPlus(text: string): (r: Option<nat>)
    ensures r.None? <==> '+' !in text
    ensures r.Some? ==> r.value < |text| && text[r.value] == '+' && '+' !in text[..r.value]
  {
    if |text| == 0 then None
    else if text[0] == '+' then Some(0)
    else
      match FirstPlus(text[1..])
      case None => None
      case Some(i) =>
        assert text[..i + 1] == [text[0]] + text[1..][..i];
        Some(i + 1)
  }

  function Bold(s: string): string {
    "<b>" + s + "</b>"
  }

  /** `'<b>%s</b>+<b>%s</b>' % (mod, key)` after `mod, key = text.split('+', 1)`. */
  function FormatShortcut(text: string): (r: Option<string>)
    ensures r.None? <==> '+' !in text
  {
    match FirstPlus(text)
    case None => None
    case Some(i) => Some(Bold(text[..i]) + "+" + Bold(text[i + 1..]))
  }

  /**
   * The modifier is everything before the first '+', which therefore has no
   * '+' of its own; the key is everything after it and may contain '+'.
   */
  lemma FormatShortcutParts(mod: string, key: string)
    requires '+' !in mod
    ensures FormatShortcut(mod + "+" + key) == Some("<b>" + mod + "</b>+<b>" + key + "</b>")
  {
    var text := mod + "+" + key;
    var i := FirstPlus(text).value;
    assert i == |mod| by {
      assert text[|mod|] == '+';
    }
    assert text[..i] == mod && text[i + 1..] == key;
    assert Bold(mod) + "+" + Bold(key) == "<b>" + mod + "</b>+<b>" + key + "</b>";
  }

  /** `format_shortcut("Ctrl+S")` is `"<b>Ctrl</b>+<b>S</b>"`. */
  lemma CtrlS()
    ensures FormatShortcut("Ctrl+S") == Some("<b>Ctrl</b>+<b>S</b>")
  {
    FormatShortcutParts("Ctrl", "S");
    assert "Ctrl" + "+" + "S" == "Ctrl+S";
    assert "<b>" + "Ctrl" + "</b>+<b>" + "S" + "</b>" == "<b>Ctrl</b>+<b>S</b>";
  }

  /** A second '+' belongs to the key: "Ctrl++" binds the '+' key. */
  lemma CtrlPlus()
    ensures FormatShortcut("Ctrl++") == Some("<b>Ctrl</b>+<b>+</b>")
  {
    FormatShortcutParts("Ctrl", "+");
    assert "Ctrl" + "+" + "+" == "Ctrl++";
    assert "<b>" + "Ctrl" + "</b>+<b>" + "+" + "</b>" == "<b>Ctrl</b>+<b>+</b>";
  }
}
