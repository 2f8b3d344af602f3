/** The page's shared state and the five operations that change it: saving
    the editor, removing and selecting through the side list, starting a new
    prompt, and loading the saved list at start-up. */
module PromptStore {
  import opened Text
  import opened PromptList

  /** Which of the two messages a save ends with: the request to fill in
      both fields, or the confirmation that the prompt was saved. */
  datatype SaveOutcome = Rejected | Saved

  /** What reading the saved list at start-up yields: no entry (a missing
      key or an empty string), a readable list, or an entry whose reading or
      parsing fails. */
  datatype Stored = Absent | Entries(list: seq<Prompt>) | Unreadable

  /** The title stored when an edit leaves the title empty. */
  const UntitledTitle: string := "Sem t\U{ED}tulo"
  /** The content stored when an edit leaves the content empty. */
  const EmptyContent: string := "Sem conte\U{FA}do"

  /** JavaScript's `s || fallback` on strings: the empty string is falsy. */
  function OrElse(s: string, fallback: string): string {
    if s != "" then s else fallback
  }

  /** A save goes through when the trimmed title and the trimmed visible text
      of the content are both non-empty. */
  predicate Accepts(titleText: string, contentText: string)
    ensures Accepts(titleText, contentText) <==> !IsBlank(titleText) && !IsBlank(contentText)
  {
    TrimEmptyIffBlank(titleText);
    TrimEmptyIffBlank(contentText);
    Trim(titleText) != "" && Trim(contentText) != ""
  }

  /** The title fallback of an edit never applies: a save only gets that far
      when the trimmed title is non-empty. */
  lemma TitleFallbackUnused(titleText: string, contentText: string)
    requires Accepts(titleText, contentText)
    ensures OrElse(Trim(titleText), UntitledTitle) == Trim(titleText)
  {
  }

  /** The prompt store: the saved prompts, most recent first, and the id of
      the prompt being edited, if any. */
  class Store {
    var prompts: seq<Prompt>
    var selectedId: Option<string>

    /** The state the page starts with: no prompts and nothing selected. */
    constructor ()
      ensures prompts == [] && selectedId == None
    {
      prompts := [];
      selectedId := None;
    }

    /** The editor is in editing mode: the selected id is a truthy string,
        so neither absent nor empty. Otherwise it is in creating mode. */
    predicate Editing()
      reads this
    {
      selectedId.Some? && selectedId.value != ""
    }

    /** Saving the editor. `titleText` is the title's text, `contentHtml`
        the content's markup and `contentText` its visible text, all as the
        page holds them before trimming; `freshId` stands for the id made
        from the clock when a new prompt is created. */
    method Save(titleText: string, contentHtml: string, contentText: string, freshId: string)
      returns (outcome: SaveOutcome)
      requires freshId != "" && !HasId(prompts, freshId)
      modifies this
      ensures outcome == Saved <==> Accepts(titleText, contentText)
      ensures outcome == Rejected ==> prompts == old(prompts) && selectedId == old(selectedId)
      ensures outcome == Saved && old(Editing()) ==>
        && selectedId == old(selectedId)
        && prompts == UpdateFirst(old(prompts), old(selectedId).value,
                                  Trim(titleText), OrElse(Trim(contentHtml), EmptyContent))
      ensures outcome == Saved && old(Editing()) && !HasId(old(prompts), old(selectedId).value) ==>
        prompts == old(prompts)
      ensures outcome == Saved && !old(Editing()) ==>
        && |prompts| == |old(prompts)| + 1
        && prompts[0] == Prompt(freshId, Trim(titleText), Trim(contentHtml))
        && prompts[1..] == old(prompts)
        && selectedId == Some(freshId)
      ensures outcome == Saved ==> Editing()
      ensures UniqueIds(old(prompts)) ==> UniqueIds(prompts)
    {
      var title := Trim(titleText);
      var content := Trim(contentHtml);
      var hasContent := Trim(contentText);
      if title == "" || hasContent == "" {
        return Rejected;
      }
      TitleFallbackUnused(titleText, contentText);
      if Editing() {
        prompts := UpdateFirst(prompts, selectedId.value,
                               OrElse(title, UntitledTitle), OrElse(content, EmptyContent));
        if UniqueIds(old(prompts)) {
          UpdateFirstUnique(old(prompts), selectedId.value, title, OrElse(content, EmptyContent));
        }
      } else {
        var created := Prompt(freshId, title, content);
        prompts := [created] + prompts;
        selectedId := Some(freshId);
        if UniqueIds(old(prompts)) {
          PrependKeepsUniqueIds(created, old(prompts));
        }
      }
      outcome := Saved;
    }

    /** Clicking the remove button of the item for `id`: the item becomes
        the selection at once; the prompts carrying `id` are dropped only if
        the user confirms. The selection is not cleared either way, so after
        a confirmed removal it names an id no prompt carries. */
    method Remove(id: string, confirmed: bool)
      modifies this
      ensures selectedId == Some(id)
      ensures Editing() <==> id != ""
      ensures prompts == if confirmed then RemoveId(old(prompts), id) else old(prompts)
      ensures confirmed ==> !HasId(prompts, id) && IsSubsequence(prompts, old(prompts))
      ensures UniqueIds(old(prompts)) ==> UniqueIds(prompts)
    {
      selectedId := Some(id);
      if !confirmed {
        return;
      }
      RemoveIdSpec(prompts, id);
      if UniqueIds(prompts) {
        RemoveIdUnique(prompts, id);
      }
      prompts := RemoveId(prompts, id);
    }

    /** Clicking the item for `id` elsewhere than on its remove button: it
        becomes the selection, and the first prompt carrying `id`, if there
        is one, is what the editor is filled with. */
    method Select(id: string) returns (shown: Option<Prompt>)
      modifies this
      ensures selectedId == Some(id) && prompts == old(prompts)
      ensures Editing() <==> id != ""
      ensures shown.None? <==> !HasId(prompts, id)
      ensures shown.Some? ==> shown.value.id == id && shown.value in prompts
      ensures shown == Find(prompts, id)
    {
      selectedId := Some(id);
      shown := Find(prompts, id);
    }

    /** Starting a new prompt: creating mode, with the prompts untouched. */
    method New()
      modifies this
      ensures selectedId == None && prompts == old(prompts)
      ensures !Editing()
    {
      selectedId := None;
    }

    /** Loading the saved list at start-up. A missing or empty entry gives
        the empty list; a failure to read or parse it leaves the state as it
        was. */
    method Load(stored: Stored)
      modifies this
      ensures stored.Unreadable? ==> prompts == old(prompts) && selectedId == old(selectedId)
      ensures stored.Absent? ==> prompts == [] && selectedId == None
      ensures stored.Entries? ==> prompts == stored.list && selectedId == None
    {
      match stored
      case Unreadable =>
      case Absent =>
        prompts := [];
        selectedId := None;
      case Entries(list) =>
        prompts := list;
        selectedId := None;
    }
  }

  /** Removing the prompt being edited and then saving the editor stores
      nothing: the stale selection keeps the editor in editing mode, the edit
      finds no prompt to change, and the save still reports success. */
  method SaveAfterRemovingSelection(s: Store, titleText: string, contentHtml: string,
                                    contentText: string, freshId: string)
      returns (outcome: SaveOutcome)
    requires s.Editing() && Accepts(titleText, contentText)
    requires freshId != "" && !HasId(s.prompts, freshId)
    modifies s
    ensures outcome == Saved
    ensures s.prompts == RemoveId(old(s.prompts), old(s.selectedId).value)
    ensures s.selectedId == old(s.selectedId)
  {
    s.Remove(s.selectedId.value, true);
    RemoveIdSpec(old(s.prompts), old(s.selectedId).value);
    outcome := s.Save(titleText, contentHtml, contentText, freshId);
  }

  /** Clicking the remove button of another item while editing and then
      cancelling still moves the selection there, so the next save writes the
      editor into the clicked prompt and leaves the one being edited alone. */
  method SaveAfterCancelledRemove(s: Store, other: string, titleText: string,
                                  contentHtml: string, contentText: string, freshId: string)
      returns (outcome: SaveOutcome)
    requires other != "" && Accepts(titleText, contentText)
    requires freshId != "" && !HasId(s.prompts, freshId)
    modifies s
    ensures outcome == Saved
    ensures s.selectedId == Some(other)
    ensures s.prompts == UpdateFirst(old(s.prompts), other,
                                     Trim(titleText), OrElse(Trim(contentHtml), EmptyContent))
    ensures old(s.selectedId) != Some(other) ==>
      forall i :: 0 <= i < |old(s.prompts)| && Some(old(s.prompts)[i].id) == old(s.selectedId) ==>
        s.prompts[i] == old(s.prompts)[i]
  {
    s.Remove(other, false);
    outcome := s.Save(titleText, contentHtml, contentText, freshId);
  }
}
