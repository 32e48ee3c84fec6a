/** The note editor, an HTML `<textarea>`: its text and its selection. */
module TextArea {

  function Min(a: int, b: int): int {
    if a <= b then a else b
  }

  class Editor {
    /** `editor.value` */
    var value: string
    /** `editor.selectionStart` and `editor.selectionEnd` */
    var selectionStart: nat
    var selectionEnd: nat

    ghost predicate Valid()
      reads this
    {
      selectionStart <= selectionEnd <= |value|
    }

    constructor ()
      ensures Valid() && value == [] && selectionStart == 0 && selectionEnd == 0
    {
      value := [];
      selectionStart := 0;
      selectionEnd := 0;
    }

    /** Assigning `editor.value` from script: a different value replaces the
        text and moves the caret to its end; no `input` event is fired.
        Assigning the value already shown keeps the selection in a browser;
        the model moves the caret to the end in that case too. */
    method SetValue(v: string)
      modifies this
      ensures Valid() && value == v
      ensures selectionStart == |v| && selectionEnd == |v|
    {
      value := v;
      selectionStart := |v|;
      selectionEnd := |v|;
    }

    /** `editor.setSelectionRange(start, end)`: both offsets are clamped to
        the text, and a start past the end is moved to the end. */
    method SetSelectionRange(start: nat, end: nat)
      requires Valid()
      modifies this
      ensures Valid() && value == old(value)
      ensures selectionEnd == Min(end, |value|)
      ensures selectionStart == Min(start, selectionEnd)
    {
      selectionEnd := Min(end, |value|);
      selectionStart := Min(start, selectionEnd);
    }
  }
}
