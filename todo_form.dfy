/** The new-item form: its `text` state, the submit and Enter-key handlers
    that only pass on non-blank text, and the rule that disables the add
    button. */
module TodoForm {
  import opened Text
  import opened Todos

  /** What a submit of `text` hands to `onAdd`: nothing when the trimmed text
      is empty, otherwise the trimmed text, which is non-empty and has no
      white space at either end. */
  function Submitted(text: string): (added: Option<string>)
    ensures added.None? <==> AllWhitespace(text)
    ensures added.Some? ==> added.value == Trim(text) && added.value != []
    ensures added.Some? ==> !IsWhitespace(added.value[0]) && !IsWhitespace(added.value[|added.value| - 1])
  {
    var trimmedText := Trim(text);
    if trimmedText != [] then Some(trimmedText) else None
  }

  /** `disabled={!text.trim() || loading}` */
  predicate SubmitDisabled(text: string, loading: bool): (disabled: bool)
    ensures disabled <==> AllWhitespace(text) || loading
  {
    IsBlank(text) || loading
  }

  /** An enabled add button always passes text on, and that text is one the
      server's create accepts and stores unchanged: it is not blank and
      trimming it again leaves it as it is. */
  lemma EnabledSubmitAdds(text: string, loading: bool)
    requires !SubmitDisabled(text, loading)
    ensures Submitted(text).Some?
    ensures !IsBlank(Submitted(text).value) && Trim(Submitted(text).value) == Submitted(text).value
  {
    TrimIdempotent(text);
  }

  /** The button is disabled exactly when a submit would pass nothing on, or
      while an add is in flight. */
  lemma DisabledIffNothingToAdd(text: string, loading: bool)
    ensures SubmitDisabled(text, loading) <==> Submitted(text).None? || loading
  {
  }

  class Form {
    var text: string

    constructor ()
      ensures text == ""
    {
      text := "";
    }

    /** The input's `onChange`. */
    method Change(value: string)
      modifies this
      ensures text == value
    {
      text := value;
    }

    /** `handleSubmit`: passes the trimmed text on and clears the input when
        it is not blank; otherwise passes nothing and leaves the input. */
    method Submit() returns (added: Option<string>)
      modifies this
      ensures added == Submitted(old(text))
      ensures added.None? ==> text == old(text)
      ensures added.Some? ==> text == ""
    {
      var trimmedText := Trim(text);
      if trimmedText != [] {
        added := Some(trimmedText);
        text := "";
      } else {
        added := None;
      }
    }

    /** `handleKeyPress`: Enter submits; any other key does nothing. */
    method KeyPress(key: string) returns (added: Option<string>)
      modifies this
      ensures key == "Enter" ==>
        added == Submitted(old(text)) && text == (if added.Some? then "" else old(text))
      ensures key != "Enter" ==> added == None && text == old(text)
    {
      if key == "Enter" {
        added := Submit();
      } else {
        added := None;
      }
    }
  }
}
