/** The Shift+A keyboard shortcut of contentScript.js: a keydown with the
    shift key and key "A" adds a bookmark unless the event's target is a
    text field or an editable region. */
module Shortcut {

  /** The parts of a keydown event the listener looks at. */
  datatype KeyEvent = KeyEvent(shiftKey: bool, key: string, tagName: string, isContentEditable: bool)

  predicate IsUpper(c: char)
  {
    'A' <= c <= 'Z'
  }

  predicate IsLowerWord(w: string)
  {
    forall i :: 0 <= i < |w| ==> 'a' <= w[i] <= 'z'
  }

  function LowerChar(c: char): char
  {
    if IsUpper(c) then (c as int + 32) as char else c
  }

  function UpperChar(c: char): char
  {
    if 'a' <= c <= 'z' then (c as int - 32) as char else c
  }

  /** String.prototype.toLowerCase on the letters A to Z. */
  function LowerCase(s: string): (r: string)
    ensures |r| == |s|
    ensures forall i :: 0 <= i < |s| ==> r[i] == LowerChar(s[i])
  {
    if s == [] then [] else [LowerChar(s[0])] + LowerCase(s[1..])
  }

  /** `s` spells the lower-case word `w` with any of its letters in upper
      case ("INPUT", "Input", "input", ...). */
  predicate SpellsIgnoringCase(s: string, w: string)
  {
    |s| == |w| && forall i :: 0 <= i < |s| ==> s[i] == w[i] || s[i] == UpperChar(w[i])
  }

  lemma LowerCaseEquals(s: string, w: string)
    requires IsLowerWord(w)
    ensures LowerCase(s) == w <==> SpellsIgnoringCase(s, w)
  {
    if SpellsIgnoringCase(s, w) {
      forall i | 0 <= i < |s| ensures LowerCase(s)[i] == w[i] {
        assert s[i] == w[i] || s[i] == UpperChar(w[i]);
      }
    }
    if LowerCase(s) == w {
      forall i | 0 <= i < |s| ensures s[i] == w[i] || s[i] == UpperChar(w[i]) {
        assert LowerChar(s[i]) == w[i];
      }
    }
  }

  /** The listener's guard. */
  predicate TriggersAdd(ev: KeyEvent)
  {
    ev.shiftKey && ev.key == "A" &&
    var tag := LowerCase(ev.tagName);
    tag != "input" && tag != "textarea" && !ev.isContentEditable
  }

  /** The shortcut fires exactly when shift is held, the key is "A", the
      target's tag is neither INPUT nor TEXTAREA in any letter case and the
      target is not editable. */
  lemma TriggersAddExactly(ev: KeyEvent)
    ensures TriggersAdd(ev) <==>
      ev.shiftKey && ev.key == "A" &&
      !SpellsIgnoringCase(ev.tagName, "input") &&
      !SpellsIgnoringCase(ev.tagName, "textarea") &&
      !ev.isContentEditable
  {
    LowerCaseEquals(ev.tagName, "input");
    LowerCaseEquals(ev.tagName, "textarea");
  }

  lemma TriggersOnPlainElement()
    ensures TriggersAdd(KeyEvent(true, "A", "DIV", false))
    ensures !TriggersAdd(KeyEvent(true, "a", "DIV", false))
    ensures !TriggersAdd(KeyEvent(false, "A", "DIV", false))
    ensures !TriggersAdd(KeyEvent(true, "A", "DIV", true))
  {
    TriggersAddExactly(KeyEvent(true, "A", "DIV", false));
    assert "a" != "A";
  }

  lemma SuppressedInInput()
    ensures !TriggersAdd(KeyEvent(true, "A", "INPUT", false))
  {
    var tag := LowerCase("INPUT");
    assert tag[0] == 'i' && tag[1] == 'n' && tag[2] == 'p' && tag[3] == 'u' && tag[4] == 't';
    assert tag == "input";
  }

  lemma SuppressedInTextArea()
    ensures !TriggersAdd(KeyEvent(true, "A", "TextArea", false))
  {
    LowerCaseTextArea();
  }

  lemma LowerCaseTextArea()
    ensures LowerCase("TextArea") == "textarea"
  {
    var tag := LowerCase("TextArea");
    assert tag[0] == 't' && tag[1] == 'e' && tag[2] == 'x' && tag[3] == 't';
    assert tag[4] == 'a' && tag[5] == 'r' && tag[6] == 'e' && tag[7] == 'a';
  }
}
