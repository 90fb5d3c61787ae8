/** The message editor's two text edits, as pure functions of the message,
    the textarea's selection (absent when the textarea is not mounted) and the
    button pressed. Each yields the new message and the collapsed cursor the
    editor places afterwards, or `None` when the editor leaves everything as it
    was. */
module Editor {
  import opened Base
  import opened Text
  import Markup

  /** A textarea selection `[start, end)`; the browser keeps
      `start <= end <= |message|`. */
  datatype Selection = Selection(start: nat, end: nat)

  predicate Fits(message: string, sel: Option<Selection>) {
    sel.Some? ==> sel.value.start <= sel.value.end <= |message|
  }

  /** The message after an edit, and where the cursor is set. */
  datatype Edit = Edit(message: string, cursor: nat)

  /** The text a merge-tag button inserts: `{{tag}}`. */
  function TagText(tag: string): (t: string)
    ensures |t| == |tag| + 4
  {
    "{{" + tag + "}}"
  }

  /** `insertMergeTag`: the selection is replaced by `{{tag}}` and the cursor
      moves to just past the inserted text. */
  function InsertMergeTag(message: string, sel: Option<Selection>, tag: string): (r: Option<Edit>)
    requires Fits(message, sel)
    ensures r.None? <==> sel.None?
    ensures r.Some? ==> var s := sel.value; var e := r.value;
      && e.cursor == s.start + |tag| + 4
      && |e.message| == |message| - (s.end - s.start) + |tag| + 4
      && e.message[..s.start] == message[..s.start]
      && e.message[s.start..e.cursor] == TagText(tag)
      && e.message[e.cursor..] == message[s.end..]
  {
    match sel
    case None => None
    case Some(s) =>
      var m := message[..s.start] + TagText(tag) + message[s.end..];
      assert m[s.start..s.start + |tag| + 4] == TagText(tag);
      Some(Edit(m, s.start + |tag| + 4))
  }

  /** Undoing an insertion: putting the selected text back in place of the
      inserted tag restores the original message. */
  lemma InsertMergeTagUndo(message: string, s: Selection, tag: string)
    requires s.start <= s.end <= |message|
    ensures var e := InsertMergeTag(message, Some(s), tag).value;
      e.message[..s.start] + message[s.start..s.end] + e.message[e.cursor..] == message
  {
    var e := InsertMergeTag(message, Some(s), tag).value;
    assert message == message[..s.start] + message[s.start..s.end] + message[s.end..];
  }

  /** Inserting `{{Name}}` into text free of `{` and personalising gives the
      text with the selection replaced by the recipient's name. */
  lemma InsertNameThenPersonalize(message: string, s: Selection, name: string, email: string)
    requires s.start <= s.end <= |message|
    requires '{' !in message && '{' !in name
    ensures var e := InsertMergeTag(message, Some(s), "Name").value;
      Markup.Personalize(e.message, name, email) == message[..s.start] + name + message[s.end..]
  {
    var a := message[..s.start];
    var b := message[s.end..];
    assert forall c :: c in a ==> c in message;
    assert forall c :: c in b ==> c in message;
    assert TagText("Name") == Markup.NameTag;
    Markup.PersonalizeNameOnce(a, b, name, email);
  }

  /** The delimiter each format button wraps a selection in. */
  function Delimiter(format: string): Option<char> {
    if format == "bold" then Some('*')
    else if format == "italic" then Some('_')
    else if format == "strikethrough" then Some('~')
    else None
  }

  /** `formatText`: a non-empty selection is wrapped in the format's delimiter
      pair (or left as it is for an unknown format) and the cursor moves to the
      end of the wrapped text. An empty selection does nothing. */
  function FormatText(message: string, sel: Option<Selection>, format: string): (r: Option<Edit>)
    requires Fits(message, sel)
    ensures r.Some? <==> sel.Some? && sel.value.start < sel.value.end
    ensures r.Some? && Delimiter(format).None? ==> r.value == Edit(message, sel.value.end)
    ensures r.Some? && Delimiter(format).Some? ==> var s := sel.value; var e := r.value; var d := Delimiter(format).value;
      && |e.message| == |message| + 2
      && e.cursor == s.end + 2
      && e.message[..s.start] == message[..s.start]
      && e.message[e.cursor..] == message[s.end..]
      && e.message[s.start] == d && e.message[e.cursor - 1] == d
      && e.message[s.start + 1..e.cursor - 1] == message[s.start..s.end]
  {
    match sel
    case None => None
    case Some(s) =>
      var selected := message[s.start..s.end];
      if |selected| == 0 then None
      else
        var formatted := match Delimiter(format)
          case Some(d) => [d] + selected + [d]
          case None => selected;
        var m := message[..s.start] + formatted + message[s.end..];
        assert Delimiter(format).None? ==> m == message by {
          if Delimiter(format).None? {
            assert message == message[..s.start] + selected + message[s.end..];
          }
        }
        assert m[s.start + |formatted|..] == message[s.end..];
        Some(Edit(m, s.start + |formatted|))
  }

  /** Dropping the two delimiters a format inserted gives the original back. */
  lemma FormatTextUndo(message: string, s: Selection, format: string)
    requires s.start < s.end <= |message| && Delimiter(format).Some?
    ensures var e := FormatText(message, Some(s), format).value;
      e.message[..s.start] + e.message[s.start + 1..e.cursor - 1] + e.message[e.cursor..] == message
  {
    assert message == message[..s.start] + message[s.start..s.end] + message[s.end..];
  }

  /** Bolding a whole message that has no markup characters and no merge tags
      makes the preview render it as one bold run. */
  lemma BoldWholeThenRender(message: string, name: string, email: string)
    requires |message| > 0
    requires '*' !in message && '_' !in message && '~' !in message && '{' !in message
    ensures var e := FormatText(message, Some(Selection(0, |message|)), "bold").value;
      Markup.Render(e.message, name, email) == "<strong>" + message + "</strong>"
  {
    var e := FormatText(message, Some(Selection(0, |message|)), "bold").value;
    assert e.message == "*" + message + "*" by {
      assert e.message[..0] == [];
      assert e.message[|message| + 2..] == [];
      assert e.message == e.message[..1] + e.message[1..|message| + 1] + e.message[|message| + 1..];
    }
    assert '{' !in e.message;
    AbsentHead(e.message, Markup.NameTag);
    ReplaceAllAbsent(e.message, Markup.NameTag, name);
    AbsentHead(e.message, Markup.EmailTag);
    ReplaceAllAbsent(e.message, Markup.EmailTag, email);
    Markup.MarkupStarred(message);
  }
}
