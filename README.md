# Prompt store of a single-page prompt manager

The page keeps a list of user-written "prompts" (an id, a title and rich-text
content), most recent first, together with the id of the prompt currently in
the editor. With no selection the editor is in creating mode; with one it is
in editing mode. Five operations change this state: Save (validate the editor,
then either edit the selected prompt in place or put a new prompt at the front
and select it), Remove (select the clicked item, then drop it if the user
confirms), Select (select the clicked item and show it), New (clear the
selection) and Load (read the saved list at start-up). The side list shows the
prompts whose lowercased title includes the lowercased, trimmed search text.

The model has three modules:

- `Text` (text.dfy): JavaScript's `trim` (the full ECMAScript white-space and
  line-terminator set), `toLowerCase` (ASCII and Latin-1 capitals) and
  `includes`, with their characterisations.
- `PromptList` (prompt_list.dfy): the `Prompt` record, `find` by id
  (`FindIndex`, `Find`), the in-place edit of the first prompt with an id
  (`UpdateFirst`), a generic `filter` (`Filter`), removal by id (`RemoveId`)
  and the side list's search (`Visible`), with lemmas about each.
- `PromptStore` (prompt_store.dfy): the class `Store` with the fields
  `prompts` and `selectedId` and one method per operation; each method's
  postcondition gives the whole new state in terms of the old one and the
  functions of `PromptList`.

The environment supplies, as parameters: the title's text, the content's
markup and the content's visible text, untrimmed (the model trims them itself);
the user's answer to the removal dialog; a fresh id for a new prompt (required
non-empty and not carried by any prompt); and what reading the saved entry
yields (`Stored`).

The model follows the code in these points:

- A failing read or parse at start-up leaves the state as it was (the error
  is caught and only logged); it is not turned into the empty list, which
  only a missing or empty entry gives. At start-up both leave the state
  empty, since it starts empty.
- Save checks the visible text of the content but stores its markup; it is
  the visible text that must be non-empty after trimming.
- "Editing mode" is JavaScript truthiness of the selected id, so a selected
  empty string counts as creating mode.
- Select and Remove set the selection to any clicked id, whether or not a
  prompt carries it, and a confirmed removal leaves the selection pointing at
  the removed id. A following Save therefore changes nothing yet reports
  success (`SaveAfterRemovingSelection`). A cancelled removal also moves the
  selection: while editing one prompt, clicking another item's remove button
  and cancelling makes the next Save overwrite that other prompt and leave the
  prompt that was being edited unchanged (`SaveAfterCancelledRemove`).

## Model

| member | source | states |
|---|---|---|
| Text.Trim | script.js:70-72 | the trimmed string has no white space at either end and is no longer than the input |
| Text.TrimIsSlice | script.js:70-72 | the trimmed string is a slice of the input whose two margins are all white space |
| Text.TrimIdempotent | script.js:139 | trimming an already trimmed string changes nothing |
| Text.TrimEmptyIffBlank | script.js:72-74 | a trimmed string is empty exactly when the input is all white space, which is when the save is refused for lack of visible text |
| Text.Lower | script.js:139 | lowercasing keeps the length; each capital letter of IsUpper becomes the character 32 code points up and every other character stays; no capital remains |
| Text.LowerChar | script.js:139 | a capital letter of IsUpper (A to Z, Latin-1 capitals) becomes the character 32 code points up, an ASCII capital its small letter; every other character stays; no capital remains |
| Text.LowerIdempotent | script.js:139 | lowercasing twice is lowercasing once |
| Text.Includes | script.js:139 | `includes` holds for the empty search text, and never for a text longer than the title |
| Text.IncludesIffOccurs | script.js:139 | `includes` holds exactly when the searched text occurs at some index |
| PromptList.FindIndex | script.js:81 | the lookup finds nothing exactly when no prompt has the id, and otherwise stops at the first prompt with it |
| PromptList.Find | script.js:201 | the looked-up prompt is absent exactly when no prompt has the id, else it is the first prompt with that id |
| PromptList.CountId | script.js:195 | the number of prompts with an id is zero exactly when none has it |
| PromptList.UpdateFirst | script.js:81-86 | the edit keeps length, order and every id; with no prompt carrying the id nothing changes; otherwise only the first prompt with the id gets the new title and content |
| PromptList.PrependKeepsUniqueIds | script.js:89-94 | putting a prompt whose id no prompt carries in front keeps ids unique |
| PromptList.UpdateFirstUnique | script.js:81-86 | with unique ids, exactly the prompts carrying the id are edited and ids stay unique |
| PromptList.Filter | script.js:137-140 | a filter returns at most as many elements, each from the input and accepted by the test |
| PromptList.FilterIsSubsequence | script.js:137-140 | a filter keeps the relative order of what it keeps |
| PromptList.FilterCounts | script.js:137-140 | each accepted element survives as often as it occurs, each rejected one not at all |
| PromptList.FilterIdempotent | script.js:137-140 | filtering a filtered list with the same test changes nothing |
| PromptList.FilterKeepsAll | script.js:137-140 | a test that accepts every element gives back the whole list |
| PromptList.FilterKeepsUniqueIds | script.js:195 | filtering a list with unique ids keeps them unique |
| PromptList.RemoveId | script.js:195 | every prompt left after removal comes from the list and has another id, and the list does not grow |
| PromptList.RemoveIdSpec | script.js:195 | after removal no prompt has the id, every other prompt remains, the order is kept, and the length drops by the number of prompts that had the id |
| PromptList.RemoveIdLength | script.js:195 | the length after removal is the old length minus the number of prompts with the id |
| PromptList.RemoveIdUnique | script.js:195 | with unique ids, removal drops one prompt when the id is present and none when absent, keeping ids unique |
| PromptList.CountUnique | script.js:195 | with unique ids an id is carried by at most one prompt |
| PromptList.RemoveAbsent | script.js:195 | removing an absent id leaves the list unchanged |
| PromptList.FindAfterRemove | script.js:195-201 | after removal, looking up the removed id finds nothing |
| PromptList.Matches | script.js:139 | a blank search text matches every title, and a match needs a title at least as long as the trimmed search text |
| PromptList.Visible | script.js:137-140 | every shown prompt comes from the list and matches the search text, and the shown list is no longer than the list |
| PromptList.VisibleSpec | script.js:137-140 | the side list shows exactly the prompts whose lowercased title includes the lowercased, trimmed search text, as often as they occur and in list order |
| PromptList.VisibleIdempotent | script.js:137-140 | searching the shown list again with the same text changes nothing |
| PromptList.VisibleBlank | script.js:137-140 | a search text that is empty or only white space shows every prompt |
| PromptList.VisibleEmpty | script.js:146-148 | the empty search text that New restores shows every prompt |
| PromptList.GreetingScenario | script.js:137-140 | with one prompt titled "Greeting", "great" shows nothing and " GREET " shows the prompt |
| PromptStore.Accepts | script.js:70-74 | a save is accepted exactly when neither the title text nor the content's visible text is blank |
| PromptStore.TitleFallbackUnused | script.js:74-84 | once a save is accepted the title fallback never applies: the stored title is the trimmed title |
| PromptStore.Store.constructor | script.js:5-8 | the page starts with no prompts and no selection |
| PromptStore.Store.Save | script.js:69-100 | a save is accepted exactly when the trimmed title and the trimmed visible content are non-empty; a refused save changes nothing; in editing mode the selection stays and only the first prompt with the selected id gets the trimmed title and content, and a stale selection changes nothing; in creating mode the list grows by one, the new prompt with the fresh id is at the front, the old list follows and the new id is selected; after an accepted save the editor is in editing mode; unique ids stay unique |
| PromptStore.Store.Remove | script.js:179-198 | the clicked id is selected whatever the answer, putting the editor in editing mode unless the id is empty; the prompts are unchanged unless the user confirms, and then exactly the prompts with that id are gone, the rest in order, leaving the selection stale |
| PromptStore.Store.Select | script.js:179-207 | the clicked id is selected, putting the editor in editing mode unless the id is empty, the prompts are untouched, and the prompt shown is the first with that id, or none when no prompt has it |
| PromptStore.Store.New | script.js:146-154 | the selection is cleared, so the editor is in creating mode, and the prompts are untouched |
| PromptStore.Store.Load | script.js:110-118 | a missing or empty entry gives no prompts, a readable entry gives its list, both clearing the selection; a failing read changes nothing |
| PromptStore.SaveAfterRemovingSelection | script.js:186-198 | removing the selected prompt and then saving leaves the list without it, keeps the stale selection and still reports success |
| PromptStore.SaveAfterCancelledRemove | script.js:186-193 | clicking another item's remove button and cancelling moves the selection to it, so the next save edits that prompt and leaves the one being edited unchanged |

## Left out

- Page rendering: building the list items' markup, extracting plain text from content for previews, the empty-field styling, focus and the sidebar's open, collapse and resize handling. None of it changes the state.
- The editor fields and the search box: their text is passed to the operations as parameters, and the search text as the argument of `Visible`; New clearing them is not modelled beyond `VisibleEmpty`.
- Saving the list to browser storage after Save and Remove, and the JSON encoding: storage is an external collaborator, so `Load` receives the outcome of reading it as a `Stored` value whose `Entries` case stands for a well-formed list of prompts; a stored value that parses to something other than such a list is not modelled.
- Id generation from the clock: replaced by the `freshId` parameter, which is required non-empty and not carried by any prompt, although the clock does not guarantee that.
- The alerts, the confirmation dialog and copying to the clipboard: the dialog's answer is a parameter and the two alerts of Save are its `SaveOutcome`.
- A click outside any list item does nothing, and is not modelled.
- Text.Lower: lowercases only ASCII and Latin-1 capitals; the rest of Unicode's case mapping, including mappings that change the length, is not modelled.
- Text.Trim: works on Unicode scalar values, not on the UTF-16 code units JavaScript strings are made of.
- PromptStore.Store.Save: in editing mode the prompt objects are modelled as values, so the in-place change to the object found by the lookup is a replacement of that list element; aliasing of prompt objects is not modelled.
