# Quiz-Game editor and runner core, in Dafny

This project models the logic inside the browser quiz game's two scripts.

The editor (`editor_files/editor_script.js`):
- reads a locale INI file into a key/value table (`parseIni`);
- replaces the text of tagged elements from that table (`applyTranslations`);
- edits the question list: reorder by drag and drop (`handleDrop`), delete (`deleteQuestion`) and save from the question form (the `question-form` submit handler, an upsert of a record built from the form).

The runner (`script.js`):
- shows a question with its answers shuffled by Fisher-Yates (`shuffleArray`);
- marks the correct button by value, against the stored first answer (`showQuestion`);
- judges a click (`handleAnswerClick`), reveals after a timer, and moves to the next question or ends the quiz (`next-btn`).

Modules, one per concern:
- `Text` (text.dfy): the JavaScript string operations used. These are `trim` with the ECMAScript whitespace set, `indexOf` of one character, `startsWith`, and splitting at LF or CR LF.
- `Locale` (locale.dfy): the INI reader and the translation lookup.
- `Questions` (questions.dfy): the stored question record.
- `QuestionList` (question_list.dfy): the splice-based list edits.
- `Editor` (editor.dfy): the record the form builds, the form `editQuestion` fills, and the dialog state between openings.
- `Shuffle` (shuffle.dfy): Fisher-Yates as a function and as an array method.
- `Runner` (runner.dfy): answer buttons and the per-question state machine.
- `Wrappers` (wrappers.dfy): `Option` and `Result`.

Randomness is a parameter. The random index drawn for loop counter `i` is replaced by a table of draws `picks` with `0 <= picks[i] <= i`. The 5000 ms `setTimeout` becomes the `Reveal` step. Loading a quiz or a locale file is out of the model. The model receives the decoded question list or the file text.

The runner does not validate the loaded list; the only failure at start is an empty list: `showQuestion` reads a field of `quizData[0]`, which throws, and the load handler's `catch` reports it. `Runner.Start` follows the code.

## Model

| member | source | states |
|---|---|---|
| Text.Trim | editor_files/editor_script.js:11 | the result is the input with whitespace cut from both ends, and has no whitespace left at either end |
| Text.TrimUnique | editor_files/editor_script.js:11 | there is only one string that is the input cut at both ends and free of outer whitespace, so `Trim` is fully determined |
| Text.TrimIgnoresPadding | editor_files/editor_script.js:15-16 | whitespace around a key or value does not survive trimming |
| Text.IndexOf | editor_files/editor_script.js:13 | returns the first position of the character, or -1 exactly when it does not occur |
| Text.SplitLines | editor_files/editor_script.js:8 | every line is free of LF, and there is at least one line |
| Text.SplitJoinLines | editor_files/editor_script.js:8 | lines free of LF, joined with any mix of LF and CR LF breaks, split back into the same lines; a line followed by a bare LF must not end in CR, since that CR would join the break |
| Text.SplitFirstLine | editor_files/editor_script.js:8 | the text up to the first break, LF or CR LF, is the first line, and the rest is split on its own |
| Text.SplitLinesMixedExample | editor_files/editor_script.js:8 | `a` CR LF `b` LF `c` CR splits into `a`, `b` and `c` CR: a lone CR stays in its line |
| Text.StartsWith | editor_files/editor_script.js:335 | true exactly when the prefix is no longer than the string and matches it character by character |
| Locale.ParseLine | editor_files/editor_script.js:11-17 | a line yields no entry exactly when, trimmed, it is empty, starts with `;` or `#`, or has no `=`. Otherwise the key is the trimmed text before the first `=` (so it has no `=`) and the value is the trimmed text after it |
| Locale.Collect | editor_files/editor_script.js:17 | the key of the last entry, when there is one, maps to that entry's value: a later entry overwrites an earlier one with the same key |
| Locale.ParseLines | editor_files/editor_script.js:9-19 | every key of the table built from lines is trimmed and holds no `=` |
| Locale.ParseIni | editor_files/editor_script.js:7-20 | the table is that of the text's lines; every key is trimmed and holds no `=` |
| Locale.ParseLinesLastWins | editor_files/editor_script.js:9-19 | for the lines of a file: a key is in the table exactly when `ParseLine` of some line defines it, and it maps to the value of the last such line |
| Locale.CollectLastWins | editor_files/editor_script.js:9-19 | a key is in the table exactly when some line defines it, and it maps to the value of the last line that does |
| Locale.SkippedLineIrrelevant | editor_files/editor_script.js:12-14 | a line that yields no entry can be removed from anywhere without changing the table |
| Locale.ParseFormatLine | editor_files/editor_script.js:13-17 | reading a `key=value` line for a well-formed entry gives that entry back |
| Locale.ParseWrittenIni | editor_files/editor_script.js:7-19 | reading a file written one entry per line gives the table of those entries in file order |
| Locale.EmptyIni | editor_files/editor_script.js:7-19 | an empty file gives an empty table |
| Locale.ActiveTable | editor_files/editor_script.js:24 | the explicitly passed table is used when there is one, otherwise the last loaded table |
| Locale.RenderedListTranslation | editor_files/editor_script.js:22-24 | the list view's call with a null table (line 147) gives exactly the elements translated with the last loaded table |
| Locale.Translate | editor_files/editor_script.js:26-31 | an element with a non-empty key present in the table shows the table's value; otherwise its text is unchanged; the key is kept |
| Locale.ApplyTranslations | editor_files/editor_script.js:25-32 | every element is translated by that rule, in order, and no element is added or lost |
| Locale.ApplyTranslationsIdempotent | editor_files/editor_script.js:25-32 | applying the same table twice gives the same result as once |
| Locale.LocalizedText | editor_files/editor_script.js:9-31 | after loading the lines of a file, an element shows the value of the last line defining its key, or keeps its text when no line defines it or its key is empty |
| QuestionList.RemoveAt | editor_files/editor_script.js:238 | removes exactly the element at the index: length drops by one, the others keep their order, and the multiset loses that element |
| QuestionList.InsertAt | editor_files/editor_script.js:187 | the element lands at the index, the elements after it shift up by one, and the multiset gains that element |
| QuestionList.Drop | editor_files/editor_script.js:181-187 | a move is a permutation of the same length; the moved item ends at the target; removing it from the result and from the input gives the same list, so the other items keep their relative order; dropping onto itself changes nothing |
| QuestionList.DropUndo | editor_files/editor_script.js:181-187 | moving the item back from the target to the source restores the list |
| QuestionList.SpliceStart | editor_files/editor_script.js:238 | a negative start counts from the end (not before 0), and a start past the end is the end |
| QuestionList.Delete | editor_files/editor_script.js:236-241 | when not confirmed nothing changes. When confirmed with an index in range, exactly that element goes. An index past the end changes nothing. A negative index counts from the end |
| QuestionList.Save | editor_files/editor_script.js:350-356 | an edit index of 0 or more replaces that slot only and keeps the length; a negative one appends at the end and keeps the others |
| QuestionList.SaveUnchanged | editor_files/editor_script.js:350-352 | saving an element over itself leaves the list unchanged |
| QuestionList.DeleteUndoesAppend | editor_files/editor_script.js:355 | deleting the element just appended gives the list back |
| QuestionList.DeleteAfterReplace | editor_files/editor_script.js:352 | replacing a slot and then deleting it equals deleting it |
| Editor.BuildQuestion | editor_files/editor_script.js:330-348 | the record has four answers with the correct one first and the three wrong ones after. The image is the preview source when that starts with `data:image`, and empty otherwise, so a saved image is always savable |
| Editor.FormOf | editor_files/editor_script.js:212-221 | the form shows the question's text, hint and trivia, and its four answers in stored order |
| Editor.FormRoundTrip | editor_files/editor_script.js:320-348 | loading a saved record back into the form gives the same form fields |
| Editor.QuestionRoundTrip | editor_files/editor_script.js:208-221 | a question with four answers and a savable image, loaded and saved with its own image, comes back unchanged |
| Editor.OpenAddAsWritten | editor_files/editor_script.js:243-255 | opens the dialog for a new question with a blank form, and leaves the preview source as it was |
| Editor.OpenEditAsWritten | editor_files/editor_script.js:208-234 | loads the question into the form. The preview becomes the question's image only when it has one, and is left as it was otherwise |
| Editor.OpenAdd | editor_files/editor_script.js:243-255 | the intended add: blank form, and a preview that holds no embedded image |
| Editor.OpenEdit | editor_files/editor_script.js:208-234 | the intended edit: the preview is the question's own image |
| Editor.Close | editor_files/editor_script.js:258-260 | closes the dialog and changes neither the list nor the preview |
| Editor.Submit | editor_files/editor_script.js:317-359 | upserts the record built from the form and the preview, and closes the dialog. The form, the preview and the edit index are left as they were, so the next opening starts from them |
| Editor.StaleImageAsWritten | editor_files/editor_script.js:224-231 | as written, saving an image-less question unchanged right after viewing one with an image gives it that image |
| Editor.StaleImageOnAddAsWritten | editor_files/editor_script.js:243-252 | as written, a new question saved without choosing an image takes the image of the question edited before it |
| Editor.EditUnchangedKeepsList | editor_files/editor_script.js:208-234 | with the preview reset on opening, saving an opened question without changes leaves the whole list unchanged |
| Editor.AddWithoutImage | editor_files/editor_script.js:243-255 | with the preview reset on opening, a new question saved without an image has none and is appended after the others |
| Shuffle.Swap | script.js:82 | the elements at the two indices trade places and every other element stays |
| Shuffle.ShuffleDown | script.js:80-83 | the loop from counter `i` down to 1 keeps the length (its content properties are the two rows below) |
| Shuffle.SwapPermutes | script.js:82 | a swap only reorders the elements |
| Shuffle.ShuffleDownPermutes | script.js:80-83 | the loop from counter `i` down to 1 keeps the multiset of elements |
| Shuffle.ShuffleDownKeepsAbove | script.js:80-82 | iterations with counter `i` or below never touch the slots above `i` |
| Shuffle.Shuffled | script.js:79-84 | keeps the length, and lists of length 0 or 1 come back unchanged because the loop body never runs |
| Shuffle.ShuffledPermutes | script.js:79-84 | with every draw in `[0, i]`, the shuffle is a permutation: same length and same multiset |
| Shuffle.ShuffleArray | script.js:79-84 | the in-place array loop computes exactly the shuffle the draws determine, a permutation of its input |
| Shuffle.LastSlotFromFirstDraw | script.js:80-82 | the last slot ends up holding the element the first draw chose |
| Shuffle.IdentityDraws | script.js:80-82 | draws that always pick the counter itself leave the order unchanged |
| Runner.ShowAnswers | script.js:60-74 | the buttons show every stored answer once, in the shuffled order. A button is marked correct exactly when its text equals the stored first answer, read before the shuffle |
| Runner.ExactlyOneCorrect | script.js:70 | with pairwise distinct answers, exactly one button is marked correct, whatever the draws |
| Runner.MarkIndependentOfPosition | script.js:70 | buttons with the same text carry the same mark under any two shuffles |
| Runner.Start | script.js:30-38 | starting fails exactly when there is no question. Otherwise it shows question 0, accepts answers, and hides "next" |
| Runner.Click | script.js:86-95 | a click on a button of the question moves to judging with `isCorrect` equal to the button's mark. That mark is true exactly when the text is the stored first answer. Other clicks change nothing, and "next" stays as it was |
| Runner.Reveal | script.js:100-123 | the timer of a judged click reveals the same verdict, and "next" is visible exactly after the reveal |
| Runner.Highlights | script.js:105-111 | every correct button is shown correct, and only the chosen button of a wrong click is shown incorrect |
| Runner.RevealShowsVerdict | script.js:105-111 | after a reveal, the chosen button is shown correct when the click was right and incorrect when it was wrong |
| Runner.Next | script.js:126-133 | after a reveal the index goes up by one. Below the count, that question is shown with "next" hidden; at the count the quiz is finished; the invariant (shown index below the count) holds |
| Runner.Round | script.js:86-133 | click, reveal and next move the index up by exactly one, and finish exactly when it reaches the count |
| Runner.PlayFinishes | script.js:126-133 | playing every remaining question ends the quiz with the index equal to the number of questions |

## Left out

- Rendering and browser I/O are not modelled: `innerHTML`, class toggling, drag CSS classes, the dialog, `alert`, `confirm` (a boolean parameter of `Delete`), `location.reload` (the `Finished` phase), `FileReader`, `JSON.parse`/`JSON.stringify`, the Blob download, the `fetch` of locale files, and `localStorage`.
- Media are not modelled: the background, drum and verdict sounds, the volume sliders, confetti, and the canvas resizing in `handleImageUpload` (floating-point arithmetic). The image upload and the remove-image button only set the preview source. `Editor.Session` carries that source as a value, and those handlers are not separate operations.
- Locale.Translate: the model looks keys up in a true map. The JavaScript object used as the table also answers for keys inherited from `Object.prototype`, such as `constructor` or `toString`. The model does not reproduce that. Element keys in the pages are fixed names, never those.
- Locale.Collect: the model stores every key. In JavaScript, storing under the key `__proto__` (editor_files/editor_script.js:17) sets the object's prototype instead of adding a key, so a `__proto__=…` line is silently ignored. For that one key the membership half of Locale.CollectLastWins and Locale.ParseLinesLastWins does not hold in JavaScript.
- QuestionList.Drop: assumes both indices are positions of the current list. The target's rendered `data-index` always is. The source need not be: `dragSrcEl` is set when a drag starts (editor_files/editor_script.js:154) and never cleared. A drop whose drag did not start on a list item reuses the element of an earlier drag, or fails on `null` when there was none. After deletions, that element's `data-index` can lie past the end of the list. The one-element `splice` then removes nothing and yields `undefined`, which the second `splice` inserts into the list (editor_files/editor_script.js:186-187). That path is not modelled.
- QuestionList.Save: requires the edit index to be -1 or a slot of the list. The dialog is only opened by `editQuestion` on a rendered index or by the add button (-1). JavaScript would leave holes for an assignment past the end.
- Runner.Click: a click outside the answering phase changes nothing. In the page this relies on the `disabled` class the handler adds, and the stylesheet that makes that class block clicks is not part of this model. The "next" click relies the same way on the `hidden` class.
- Editor.FormOf: the model reads every form field back exactly as `editQuestion` assigned it (editor_files/editor_script.js:212-221, read back at editor_files/editor_script.js:320-328). In the page, the browser cleans an assigned value. A single-line text input drops every CR and LF. A textarea reads a CR LF pair or a lone CR back as LF. Whichever control a field is, a CR never survives the round trip, and in a text input an LF does not either. The model keeps these characters.
- Editor.QuestionRoundTrip: holds only for an image string that is already in the serialised form of a URL, as `canvas.toDataURL` produces it (editor_files/editor_script.js:305). The editor assigns the stored image to the preview's `src` (editor_files/editor_script.js:225) and reads the property back on submit (editor_files/editor_script.js:334). The browser re-serialises the URL in between: it strips tabs and line breaks, trims surrounding whitespace and percent-encodes characters outside ASCII. A quiz file loaded from disk can hold an image string that this changes, and the model reads the preview back verbatim. The same holds for the text fields (see Editor.FormOf): the round trip holds in the page only when the question text, answers, hint and trivia hold no CR and no LF.
- Editor.EditUnchangedKeepsList: rests on the same verbatim read-backs as Editor.QuestionRoundTrip, of the preview's `src` and of the form fields. It holds in the page only for lists whose images are empty or already in serialised URL form, and whose question text, answers, hint and trivia hold no CR and no LF.
- `loadLocale`, the language selectors and the start-screen handlers are I/O glue around the modelled functions.

## Findings

| source | as written | input that shows it | evidently intended | confidence | as-written member | corrected member |
|---|---|---|---|---|---|---|
| editor_files/editor_script.js:224-231, 243-252 | `editQuestion` sets the preview `src` only when the question has an image. The add button's `reset()` does not touch the preview image. Either way the previous image stays, and the submit handler saves it | list `[A with data:image/png;base64,AA, B without image]`: edit A, close, edit B, save unchanged. B now carries A's image | opening the dialog shows only the opened question's own image (none for a new question), so saving unchanged keeps the list as it was | not executed; follows from the handlers' code | Editor.StaleImageAsWritten | Editor.EditUnchangedKeepsList |
