# SyntaxPane editing core in Dafny

This project models the non-graphical core of SyntaxPane, a Swing editor component with
syntax colouring, and proves properties of the model. The core consists of:

- **The reversible edit history.** `TextBody` is a text buffer with a command history.
  `StyledTextBody` stacks its own history of styled commands on top. It coalesces
  keystrokes: consecutive one-character inserts, and consecutive backspaces, merge into
  one history entry. It also supports undo (`reverse`) and redo (`forward`).
- **The line and indentation queries of `SyntaxDocumentTool`.** These are `lineBegin`,
  `lineEnd`, `inSameLine` and `countFrontTab`, plus the two edits built on them,
  `addFrontTab` and `removeFrontTab`.
- **The pure helpers of `JavaCodeAdapter`.** These are the comment stripper, the trimmer,
  the indentation policy for a new line, its own line bounds and tab counter, the number
  recogniser and the character classes.
- **The colour parser of `SyntaxManager`.** It reads `#RRGGBB` and `#AARRGGBB` strings.

Modules follow the source files:

| file | module | models |
|---|---|---|
| `results.dfy` | `Results` | Java exceptions as `Err(kind)`; nullable references as `Option` |
| `notify.dfy` | `Notify` | the events a `TextChangeListener` and a `StyledChangeListener` receive |
| `history.dfy` | `History` | a list of commands with a cursor, for any command type: truncation, replay, consistency, commit, undo and redo |
| `text_body.dfy` | `TextBody` | the buffer, `InsertCommand`/`RemoveCommand`, and `TextBody`'s own history |
| `styled_text_body.dfy` | `StyledTextBody` | styled commands, `CommandCollection`, `combine`, and the styled history |
| `undo_redo.dfy` | `UndoRedo` | editing sessions: requests, repeated undo and redo, concrete keystroke scenarios |
| `lines.dfy` | `Lines` | the backward and forward line scans and the indentation count, shared by both tools |
| `syntax_document_tool.dfy` | `SyntaxDocumentTool` | `lineBegin`, `lineEnd`, `inSameLine`, `countFrontTab`, `addFrontTab`, `removeFrontTab` |
| `java_code_adapter.dfy` | `JavaCodeAdapter` | the pure helpers of the Java adapter |
| `syntax_manager.dfy` | `SyntaxManager` | `getColor(String)`, `getColor(int, String)`, `getColor(int, Color)` |

Everything is a pure function over immutable values.

- **State.** A Java object that changes state becomes a value, and the operation returns
  the new value.
- **Exceptions.** An exception becomes `Err` with the kind of exception. The model covers
  `StringIndexOutOfBoundsException`, `ArrayIndexOutOfBoundsException`,
  `IndexOutOfBoundsException` (an `ArrayList` index out of range), `NumberFormatException`,
  `IllegalArgumentException` and `SyntaxException`. A `NullPointerException` from a `null`
  argument or listener is not modelled (see "Left out").
- **The history cursor.** `nowState` has the type `History.Cursor`, the integers from -1
  up. Both bodies keep it there: it starts at -1, `reverse` steps back only when it is not
  -1, and every other change adds one to it or, when `StyledTextBody.nextState` merges the
  new command into the newest entry, keeps it. So the `remove(-1)` that `nextState`'s truncation
  loop would reach with a cursor below -1 cannot occur.
- **Listeners.** Callbacks to the two listeners are recorded in an event log. A lemma shows
  that a listener replaying the log sees exactly the text the buffer holds.

`isNameAllowed` and `isSpaceWord` are the predicates `JavaCodeAdapter.IsNameAllowed` and
`JavaCodeAdapter.IsSpaceWord`. They are used by the members below.

### Behaviour the model follows

In each case below the model does what the code does. Only the empty-text case contradicts
a comment in the source (the `@throws` clauses of `lineBegin` and `lineEnd`); the others are consequences
of the code that a reader may not expect.

- **Insert merge.** The merge only tests the text of the *new* insert against `"\n"`. As a
  result, a `"\n"` followed by a character merges into one entry
  (`UndoRedo.NewlineThenCharMerge`).
- **Forward delete.** A remove merges only when it ends where the previous remove began,
  as a backspace does. Two forward deletes at the same place therefore stay two entries
  (`UndoRedo.ForwardDeletesStaySeparate`).
- **Empty text.** `SyntaxDocumentTool.lineBegin` and `lineEnd` on empty text pass the
  range check at `p = 0` and then index `txt[-1]`. The model returns
  `Err(ArrayIndexOutOfBounds)` there instead of excluding the case.
- **`'\n'` in `JavaCodeAdapter`.** `lineBegin` counts a `'\n'` at the offset as the end of
  the line it closes. `lineEnd` counts it as the start of the line it opens
  (`JavaCodeAdapter.NewlineConventions`).

## Model

| member | source | states |
|---|---|---|
| `History.DropRedoTail` | src/main/java/com/syntax/code/StyledTextBody.java:122-123 | the kept entries are a prefix of the history, of length `nowState + 1` when the cursor is at most the last index, and the whole history otherwise: the redo tail is discarded |
| `History.Replay` | src/main/java/com/syntax/code/StyledTextBody.java:121-139 | executing the commands in order from the initial text gives one text per step, each obtained from the previous one by that step's command |
| `History.CommitAppend` | src/main/java/com/syntax/code/StyledTextBody.java:130-137 | appending a command whose edit can be reversed keeps the history consistent: replaying it from the initial text reaches the current text at the cursor, and every entry reverses to the text before it |
| `History.CommitReplace` | src/main/java/com/syntax/code/StyledTextBody.java:125-129 | replacing the newest entry by a merged command that goes from the text before that entry to the new text keeps the history consistent, with the cursor unchanged |
| `History.UndoStep` | src/main/java/com/syntax/code/StyledTextBody.java:147-153 | on a consistent history, reversing the entry at the cursor gives back the recorded previous text, and the history stays consistent one step back |
| `History.RedoStep` | src/main/java/com/syntax/code/StyledTextBody.java:162-168 | on a consistent history, re-executing the entry after the cursor gives the recorded next text, and the history stays consistent one step forward |
| `TextBody.Insert` | src/main/java/com/syntax/code/TextBody.java:130 | `StringBuilder.insert`: fails unless `0 <= offset <= length`; the prefix is unchanged, the inserted text follows it, and the old suffix is shifted right |
| `TextBody.Delete` | src/main/java/com/syntax/code/TextBody.java:136 | `StringBuilder.delete`: fails unless `0 <= start <= length` and `start <= end`; the end is clamped to the length, the prefix is unchanged and the suffix moves left |
| `TextBody.Substring` | src/main/java/com/syntax/code/TextBody.java:69 | `String.substring`: fails unless `0 <= begin <= end <= length`, and otherwise returns exactly the characters in that range |
| `TextBody.ApplyEdit` | src/main/java/com/syntax/code/TextBody.java:129-153 | executing an insert places its text at `start` and shifts the rest; executing a remove deletes `[start, start + |text|)` and leaves the prefix unchanged |
| `TextBody.UnapplyEdit` | src/main/java/com/syntax/code/TextBody.java:135-159 | reversing a remove puts the recorded text back at `start`, with prefix and suffix unchanged. Reversing an insert deletes `[start, start + length)`, keeping the prefix and the suffix, and deletes to the end when that range runs past it; both fail iff `start` is outside the text |
| `TextBody.InsertRoundTrip` | src/main/java/com/syntax/code/TextBody.java:121-140 | reversing an executed insert restores the text whenever `0 <= start <= length` |
| `TextBody.RemoveRoundTrip` | src/main/java/com/syntax/code/TextBody.java:141-160 | reversing an executed remove restores the text whenever the recorded text is the slice it deletes |
| `TextBody.MirrorAppend` | src/main/java/com/syntax/code/TextBody.java:161-182 | a listener applying two event logs one after the other ends where applying their concatenation ends |
| `TextBody.EditNotifiesListener` | src/main/java/com/syntax/code/TextBody.java:130-158 | a listener applying the `insertChange`/`removeChange` events of an execute or a reverse reaches exactly the text the buffer reaches |
| `TextBody.Execute` | src/main/java/com/syntax/code/TextBody.java:129-133 | executing a command changes the text as `ApplyEdit` says and only appends to the log; a `TextChangeListener` that replays the appended `insertChange`/`removeChange` events on the old text arrives at exactly the new text |
| `TextBody.ReverseExecution` | src/main/java/com/syntax/code/TextBody.java:135-139 | reversing a command changes the text as `UnapplyEdit` says and only appends to the log; replaying the appended events on the old text gives exactly the restored text |
| `TextBody.New` | src/main/java/com/syntax/code/TextBody.java:21-25 | a new body holds the initial string, an empty history and `nowState == -1`, which is consistent |
| `TextBody.NextState` | src/main/java/com/syntax/code/TextBody.java:86-92 | `TextBody.nextState` drops the redo tail, executes the command and appends it; afterwards `nowState` is the last index |
| `TextBody.InsertText` | src/main/java/com/syntax/code/TextBody.java:58-60 | `insertText` succeeds iff `0 <= start <= length`, inserts the text there, logs `insertChange`, and records an `InsertCommand` after the kept history |
| `TextBody.RemoveText` | src/main/java/com/syntax/code/TextBody.java:68-70 | `removeText` succeeds iff the range lies in the text, deletes it, logs `removeChange`, and records exactly the deleted slice |
| `TextBody.Reverse` | src/main/java/com/syntax/code/TextBody.java:99-107 | at `nowState == -1` it returns false and changes nothing; otherwise it reverses the entry at the cursor and steps back, keeping the history |
| `TextBody.Forward` | src/main/java/com/syntax/code/TextBody.java:113-120 | at the newest state it returns false and changes nothing; otherwise it steps forward and re-executes that entry |
| `StyledTextBody.Execute` | src/main/java/com/syntax/code/StyledTextBody.java:181-185 | a styled command (a collection's children in order) changes the text as its plain command does and only appends to the log; replaying the appended events of both listeners on the old text gives exactly the new text |
| `StyledTextBody.ReverseExecution` | src/main/java/com/syntax/code/StyledTextBody.java:187-191 | reversing a styled command (a collection's children last to first) changes the text as `Unapply` says and only appends to the log; replaying the appended events on the old text gives exactly the restored text |
| `StyledTextBody.SingletonCollection` | src/main/java/com/syntax/code/StyledTextBody.java:254-270 | a collection holding one command edits and notifies exactly as that command does |
| `StyledTextBody.Combine` | src/main/java/com/syntax/code/StyledTextBody.java:193-286 | merges happen only between commands of the same kind, and only when a plain command and its predecessor are both combinable. The merged insert is the previous text followed by the new one, with no attributes. The merged remove starts at the new start and holds the new text followed by the previous one; it is finished iff the new text is `"\n"`. Merged collections hold the previous children followed by the new ones. A merge happens iff: for an insert, both are combinable, the new text is not exactly `"\n"` and the new insert starts where the previous inserted text ends; for a remove, both are combinable and the new removal ends where the previous one began; for a collection, the previous command is a collection |
| `StyledTextBody.New` | src/main/java/com/syntax/code/StyledTextBody.java:25-38 | a new styled body has empty text, empty histories and an empty log, and is consistent |
| `StyledTextBody.NextState` | src/main/java/com/syntax/code/StyledTextBody.java:121-139 | it fails iff the new command cannot execute. It drops the redo tail, then either replaces the top entry by the merge (cursor unchanged) or appends (cursor + 1). Only the submitted command is executed, so the text changes by exactly that edit. The `TextBody` history is untouched, and afterwards `nowState` is the last index |
| `StyledTextBody.NewInsert` | src/main/java/com/syntax/code/StyledTextBody.java:51-53 | the command `insertStyledText` builds: an insert of exactly that text at that start with the given attributes, combinable iff the text has at most one character (counted as the "## Left out" line on Unicode lengths says) |
| `StyledTextBody.NewRemove` | src/main/java/com/syntax/code/StyledTextBody.java:84-86 | a styled remove fails unless the range lies in the text; it records the exact slice, and removals longer than one character are finished |
| `StyledTextBody.InsertStyledText` | src/main/java/com/syntax/code/StyledTextBody.java:50-55 | `insertStyledText` succeeds iff `0 <= start <= length` and leaves prefix, inserted text, suffix |
| `StyledTextBody.ForcedMergeInsertStyledText` | src/main/java/com/syntax/code/StyledTextBody.java:67-73 | the forced-merge insert, wrapped in a collection, has the same text effect as a plain styled insert |
| `StyledTextBody.RemoveStyledText` | src/main/java/com/syntax/code/StyledTextBody.java:83-88 | `removeStyledText` succeeds iff the range lies in the text, and removes exactly that range |
| `StyledTextBody.ForcedMergeRemoveStyledText` | src/main/java/com/syntax/code/StyledTextBody.java:98-104 | the forced-merge removal, wrapped in a collection, removes exactly that range |
| `StyledTextBody.Reverse` | src/main/java/com/syntax/code/StyledTextBody.java:147-154 | at `nowState == -1` it returns false and changes nothing; otherwise it reverses the entry at the cursor and moves the cursor back |
| `StyledTextBody.Forward` | src/main/java/com/syntax/code/StyledTextBody.java:162-169 | when there is no later entry it returns false and changes nothing; otherwise it moves the cursor forward and re-executes that entry |
| `StyledTextBody.PlainInsertText` | src/main/java/com/syntax/code/TextBody.java:58-60 | `insertText` on a styled body goes to the inherited `TextBody` history and leaves the styled history unchanged |
| `StyledTextBody.PlainRemoveText` | src/main/java/com/syntax/code/TextBody.java:68-70 | `removeText` on a styled body goes to the inherited `TextBody` history and leaves the styled history unchanged |
| `StyledTextBody.ApplyAllAppend` | src/main/java/com/syntax/code/StyledTextBody.java:262-265 | executing children first-to-last composes over concatenation |
| `StyledTextBody.UnapplyAllAppend` | src/main/java/com/syntax/code/StyledTextBody.java:267-270 | reversing children last-to-first composes over concatenation, the later part first |
| `StyledTextBody.InsertMergeSound` | src/main/java/com/syntax/code/StyledTextBody.java:199-204 | an insert placed right after the previous insert has the same effect as one insert of the joined text at the previous start, and that insert reverses to the text before both |
| `StyledTextBody.RemoveMergeSound` | src/main/java/com/syntax/code/StyledTextBody.java:237-243 | a removal that ends where the previous one began has the same effect as one removal of the joined text at the new start, and reversing it reinserts both runs in their original order and place |
| `StyledTextBody.MergeSound` | src/main/java/com/syntax/code/StyledTextBody.java:126-129 | whenever `combine` merges, the merged entry goes from the text before both commands to the text after both, and reverses back |
| `StyledTextBody.CollectionMergeSound` | src/main/java/com/syntax/code/StyledTextBody.java:275-283 | joined collections execute and reverse as the two collections did in sequence |
| `StyledTextBody.InsertRoundTrips` | src/main/java/com/syntax/code/StyledTextBody.java:50-73 | every styled insert request, alone or wrapped in a collection, executes at a valid start and its reversal restores the text |
| `StyledTextBody.RemoveRoundTrips` | src/main/java/com/syntax/code/StyledTextBody.java:83-104 | every valid styled removal, alone or wrapped, executes and its reversal restores the text |
| `StyledTextBody.CommandNotifiesListener` | src/main/java/com/syntax/code/StyledTextBody.java:181-191 | a listener replaying a command's events reaches exactly the text that the command's execute or reverse produces |
| `StyledTextBody.CommandsNotifyListener` | src/main/java/com/syntax/code/StyledTextBody.java:262-270 | the same for a sequence of commands, as in a collection |
| `StyledTextBody.FinishedNeverMerges` | src/main/java/com/syntax/code/StyledTextBody.java:194-198 | a finished insert or remove neither absorbs a later command nor is absorbed |
| `StyledTextBody.PasteIsAtomic` | src/main/java/com/syntax/code/StyledTextBody.java:52-53 | an insert of more than one character never merges in either direction |
| `StyledTextBody.SelectionRemovalIsAtomic` | src/main/java/com/syntax/code/StyledTextBody.java:85-86 | a removal of more than one character never merges in either direction |
| `StyledTextBody.CollectionsMergeOnlyWithCollections` | src/main/java/com/syntax/code/StyledTextBody.java:275-286 | a collection and a plain command never merge; two collections always do |
| `UndoRedo.CommandOf` | src/main/java/com/syntax/code/StyledTextBody.java:50-104 | the command a request builds reverses to the text it was built on; insert requests always build one |
| `UndoRedo.Submit` | src/main/java/com/syntax/code/StyledTextBody.java:50-104 | a request succeeds iff its command can be built and executed, and then it is `nextState` of that command |
| `UndoRedo.CommitKeepsConsistent` | src/main/java/com/syntax/code/StyledTextBody.java:121-139 | `nextState` with a reversible command keeps the styled history consistent, in both the merge and the append case |
| `UndoRedo.MergeKeepsConsistent` | src/main/java/com/syntax/code/StyledTextBody.java:121-139 | when the new command merges with the last kept one, replacing that entry with the merged command keeps the history consistent: the merged entry undoes to the text before both edits and redoes to the text after them |
| `UndoRedo.SubmitKeepsConsistent` | src/main/java/com/syntax/code/StyledTextBody.java:50-139 | every successful request keeps the styled history consistent |
| `UndoRedo.SubmitAllKeepsConsistent` | src/main/java/com/syntax/code/StyledTextBody.java:121-139 | any run of successful requests keeps the history consistent and ends with the cursor on the newest entry |
| `UndoRedo.Texts` | src/main/java/com/syntax/code/StyledTextBody.java:121-139 | the recorded texts of a consistent history start at the initial text and hold the current text at the cursor |
| `UndoRedo.UndoStep` | src/main/java/com/syntax/code/StyledTextBody.java:147-154 | `reverse` on a consistent history never fails; it moves iff `nowState != -1`, reaches the previous recorded text and stays consistent |
| `UndoRedo.RedoStep` | src/main/java/com/syntax/code/StyledTextBody.java:162-169 | `forward` on a consistent history never fails; it moves iff a later entry exists, reaches the next recorded text and stays consistent |
| `UndoRedo.UndoAllRestoresOrigin` | src/main/java/com/syntax/code/StyledTextBody.java:147-154 | undoing until `reverse` returns false restores the initial text at `nowState == -1` with the history kept, visiting the recorded texts newest first |
| `UndoRedo.RedoAllReachesNewest` | src/main/java/com/syntax/code/StyledTextBody.java:162-169 | redoing until `forward` returns false visits exactly the texts recorded after the current state, oldest first, and ends at the newest |
| `UndoRedo.UndoAllThenRedoAll` | src/main/java/com/syntax/code/StyledTextBody.java:147-169 | undoing everything and redoing everything gives back the text, the history and the cursor |
| `UndoRedo.TextInsertKeepsConsistent` | src/main/java/com/syntax/code/TextBody.java:86-92 | `TextBody.insertText` keeps its own history consistent and advances the cursor by one |
| `UndoRedo.TextRemoveKeepsConsistent` | src/main/java/com/syntax/code/TextBody.java:68-92 | `TextBody.removeText` keeps its own history consistent and advances the cursor by one |
| `UndoRedo.TextUndoStep` | src/main/java/com/syntax/code/TextBody.java:99-107 | `TextBody.reverse` moves iff `nowState != -1`, to the previous recorded text, staying consistent |
| `UndoRedo.TextRedoStep` | src/main/java/com/syntax/code/TextBody.java:113-120 | `TextBody.forward` moves iff a later entry exists, to the next recorded text, staying consistent |
| `UndoRedo.InsertOutcome` | src/main/java/com/syntax/code/StyledTextBody.java:125-137 | a styled insert with any attribute set at the newest state leaves prefix, text, suffix, and either merges into the top entry (cursor kept) or appends (cursor + 1) |
| `UndoRedo.RemoveOutcome` | src/main/java/com/syntax/code/StyledTextBody.java:125-137 | a styled removal at the newest state removes the range and either merges or appends |
| `UndoRedo.TypingMergesIntoOneStep` | src/main/java/com/syntax/code/StyledTextBody.java:193-208 | typing `"h"` then `"i"` records one entry `"hi"`; one undo empties the text and one redo brings `"hi"` back |
| `UndoRedo.NewlineThenCharMerge` | src/main/java/com/syntax/code/StyledTextBody.java:195 | `"\n"` followed by `"c"` merges into the single entry `"\nc"` |
| `UndoRedo.NewlineStartsNewStep` | src/main/java/com/syntax/code/StyledTextBody.java:195 | `"c"` followed by `"\n"` stays two entries |
| `UndoRedo.BackspacesMerge` | src/main/java/com/syntax/code/StyledTextBody.java:237-243 | two backspaces at the end of `"hello"` leave `"hel"` and one entry removing `"lo"` at 3 |
| `UndoRedo.ForwardDeletesStaySeparate` | src/main/java/com/syntax/code/StyledTextBody.java:237 | two forward deletes at 0 of `"hello"` leave `"llo"` and two entries |
| `UndoRedo.EditAfterUndoDropsRedo` | src/main/java/com/syntax/code/StyledTextBody.java:122-123 | an edit after an undo discards the undone entries; the older entries are kept and nothing is left to redo |
| `Lines.ScanBackIsLineStart` | src/main/java/com/syntax/manage/SyntaxDocumentTool.java:37-40 | the backward scan returns the one position that is 0 or follows a `'\n'` with no `'\n'` between it and the scan start |
| `Lines.ScanForwardIsLineEnd` | src/main/java/com/syntax/manage/SyntaxDocumentTool.java:60-63 | the forward scan returns the one position that ends the text or precedes a `'\n'` with no `'\n'` from the scan start up to it |
| `Lines.SameLineIff` | src/main/java/com/syntax/manage/SyntaxDocumentTool.java:74-76 | two scan starts have the same line start iff no `'\n'` lies between them |
| `Lines.BlankLoopCounts` | src/main/java/com/syntax/manage/SyntaxDocumentTool.java:128-146 | the backward counting loop, which restarts both counts at every non-blank, ends with the counts of the leading run of blanks of the line segment |
| `Lines.IndentCounts` | src/main/java/com/syntax/manage/SyntaxDocumentTool.java:128-146 | from scratch, the loop counts exactly the tabs and the spaces of the blanks that start the line up to the index, and nothing else |
| `Lines.TabWidth` | src/main/java/com/syntax/manage/SyntaxDocumentTool.java:145 | the width is the tab count plus the spaces in groups of four, a partial group counting as a whole: `4*(w - tabs) - 4 < spaces <= 4*(w - tabs)`, and 0 only without blanks |
| `SyntaxDocumentTool.LineBegin` | src/main/java/com/syntax/manage/SyntaxDocumentTool.java:30-41 | `SyntaxException` iff the caret is outside `0..length`; `ArrayIndexOutOfBoundsException` on empty text; otherwise the start of the line, as `Lines.IsLineStart` describes it, with a caret at the end read as the last character and a caret before a `'\n'` on the line that `'\n'` ends |
| `SyntaxDocumentTool.LineEnd` | src/main/java/com/syntax/manage/SyntaxDocumentTool.java:51-64 | the code as written: the forward scan starts from the same index as `lineBegin`'s, and returns the position before the next `'\n'` or the last index |
| `SyntaxDocumentTool.LineEndOnEmptyLine` | src/main/java/com/syntax/manage/SyntaxDocumentTool.java:60 | on the empty line of `"ab\n\ncd"` (caret 3) `lineBegin` is 3 but `lineEnd` is 1, the end of the line above; on `"\nab"` at caret 0 `lineEnd` throws |
| `SyntaxDocumentTool.LineEndOfLine` | src/main/java/com/syntax/manage/SyntaxDocumentTool.java:43-50 | the documented `lineEnd`: the end of the line `lineBegin` finds, between that start minus one and the next `'\n'` |
| `SyntaxDocumentTool.LineEndAgrees` | src/main/java/com/syntax/manage/SyntaxDocumentTool.java:51-64 | where the scan start is not a `'\n'`, the code as written and the documented end agree |
| `SyntaxDocumentTool.InSameLine` | src/main/java/com/syntax/manage/SyntaxDocumentTool.java:74-76 | `inSameLine` fails iff either `lineBegin` fails, and is otherwise the equality of the two line starts |
| `SyntaxDocumentTool.InSameLineIff` | src/main/java/com/syntax/manage/SyntaxDocumentTool.java:74-76 | two carets are in the same line iff no `'\n'` lies between their scan starts |
| `SyntaxDocumentTool.CountFrontTab` | src/main/java/com/syntax/manage/SyntaxDocumentTool.java:124-146 | `SyntaxException` unless `0 <= p < length`; otherwise the tabs and spaces of the leading blanks of `p`'s line up to `p`, and their width; all zero when `txt[p]` is `'\n'` |
| `SyntaxDocumentTool.AddFrontTab` | src/main/java/com/syntax/manage/SyntaxDocumentTool.java:83-89 | `addFrontTab` inserts exactly one `"\t"` at `lineBegin(p)`, through the styled history |
| `SyntaxDocumentTool.FrontTabRange` | src/main/java/com/syntax/manage/SyntaxDocumentTool.java:97-114 | the range `removeFrontTab` deletes: none iff the indentation width is zero; the same exceptions as `removeFrontTab`; a found range lies inside the text |
| `SyntaxDocumentTool.FrontTabRangeEffect` | src/main/java/com/syntax/manage/SyntaxDocumentTool.java:101-114 | with a tab in the leading blanks the range is the first tab of the line, at or before `p`. Otherwise it is the first `min(4, spaces)` characters of the line, all spaces |
| `SyntaxDocumentTool.RemoveFrontTab` | src/main/java/com/syntax/manage/SyntaxDocumentTool.java:97-116 | `SyntaxException` unless `0 <= p < length`, except `ArrayIndexOutOfBoundsException` on empty text at `p = 0`, where `lineBegin` reads `txt[-1]`. It returns true iff the indentation width is not zero, and leaves the body unchanged when it returns false |
| `SyntaxDocumentTool.RemoveFrontTabEffect` | src/main/java/com/syntax/manage/SyntaxDocumentTool.java:101-114 | when it returns true, exactly the range `FrontTabRangeEffect` describes is removed from the text and the rest is kept |
| `SyntaxDocumentTool.AddThenRemoveFrontTab` | src/main/java/com/syntax/manage/SyntaxDocumentTool.java:83-116 | `addFrontTab` followed by `removeFrontTab` at the shifted caret returns true and restores the text |
| `JavaCodeAdapter.IsBracket` | src/main/java/com/syntax/manage/JavaCodeAdapter.java:423-428 | true exactly for the characters of the bracket table, `- + * / ( ) \ [ ] { } < > :`, backslash included |
| `JavaCodeAdapter.ContainAnnotation` | src/main/java/com/syntax/manage/JavaCodeAdapter.java:342-350 | true iff `"/*"` or `"*/"` occurs as two adjacent characters |
| `JavaCodeAdapter.RemoveInvalidWord` | src/main/java/com/syntax/manage/JavaCodeAdapter.java:307-327 | the one-pass loop with the in-comment flag computes exactly the comment-free text `Strip` defines |
| `JavaCodeAdapter.StripPlain` | src/main/java/com/syntax/manage/JavaCodeAdapter.java:318-323 | code in which no `'/'` is followed by `'/'` or `'*'`, and which does not end in `'/'`, is kept whole and in order, and what follows is read as before |
| `JavaCodeAdapter.InCommentSkips` | src/main/java/com/syntax/manage/JavaCodeAdapter.java:311-317 | inside a comment, text in which no `'*'` is followed by `'/'` is dropped, and reading stays inside the comment, unless a `'*'` at its end meets a `'/'` after it |
| `JavaCodeAdapter.UnterminatedCommentSwallows` | src/main/java/com/syntax/manage/JavaCodeAdapter.java:311-317 | inside a comment that never ends, everything is dropped |
| `JavaCodeAdapter.CommentsRemoved` | src/main/java/com/syntax/manage/JavaCodeAdapter.java:307-327 | a `/* ... */` region is deleted and reading resumes after it, for any comment body that does not itself contain `*/` (so `/** ... */` and `a*b` bodies are included) after any code that opens no comment |
| `JavaCodeAdapter.DivisionAndJavadoc` | src/main/java/com/syntax/manage/JavaCodeAdapter.java:307-327 | a division `/` in code is kept and a `/** ... */` comment is deleted: `"a/b/**x*/c"` becomes `"a/bc"` |
| `JavaCodeAdapter.LineCommentEndsText` | src/main/java/com/syntax/manage/JavaCodeAdapter.java:318-322 | after code that opens no comment, a `//` ends the result: everything from it on is dropped |
| `JavaCodeAdapter.UnclosedCommentDropsRest` | src/main/java/com/syntax/manage/JavaCodeAdapter.java:318-320 | after code that opens no comment, a `/*` that is never closed swallows everything after it |
| `JavaCodeAdapter.Trim` | src/main/java/com/syntax/manage/JavaCodeAdapter.java:328-341 | the trimmed text is a slice of the input with only space characters before and after it; it is empty iff the input is all space, and otherwise begins and ends with a non-space |
| `JavaCodeAdapter.TrimIdempotent` | src/main/java/com/syntax/manage/JavaCodeAdapter.java:328-341 | trimming twice is trimming once |
| `JavaCodeAdapter.ClearSpaceWord` | src/main/java/com/syntax/manage/JavaCodeAdapter.java:328-341 | the two scanning loops compute `Trim` |
| `JavaCodeAdapter.KeywordScanFinds` | src/main/java/com/syntax/manage/JavaCodeAdapter.java:293-304 | the word loop returns true iff the line does not end with `';'` and holds one of `for while do if else` as a whole word |
| `JavaCodeAdapter.NewLineTabPolicy` | src/main/java/com/syntax/manage/JavaCodeAdapter.java:283-306 | on the comment-free, trimmed line: empty gives `NONE`; `"{"` gives `LEFT_STYLE_LEFT_BRACKET`; `"}"` gives `RIGHT_CLEAR | LEFT_CLEAR`; `}`...`{` gives all three right/left flags; other lines ending in `{` give `RIGHT_STYLE_LEFT_BRACKET`; other lines starting with `}` give `LEFT_CLEAR_RIGHT_BRACKET`; other brace ends give `NONE`; otherwise `WHILE_DO_FOR_IF_ELSE` iff the raw line has a keyword word and no final `;` |
| `JavaCodeAdapter.LineBegin` | src/main/java/com/syntax/manage/JavaCodeAdapter.java:351-356 | `ArrayIndexOutOfBoundsException` unless `0 <= offset < length`; otherwise a position at or before the offset that is 0 or follows a `'\n'`, with no `'\n'` from it up to the offset |
| `JavaCodeAdapter.LineBeginUnique` | src/main/java/com/syntax/manage/JavaCodeAdapter.java:351-356 | that position is the only one with those properties |
| `JavaCodeAdapter.LineEnd` | src/main/java/com/syntax/manage/JavaCodeAdapter.java:357-363 | `ArrayIndexOutOfBoundsException` unless `0 <= offset < length`; otherwise a position at or after the offset that ends the text or precedes a `'\n'`, with no `'\n'` after the offset up to it |
| `JavaCodeAdapter.LineEndUnique` | src/main/java/com/syntax/manage/JavaCodeAdapter.java:357-363 | that position is the only one with those properties |
| `JavaCodeAdapter.NewlineConventions` | src/main/java/com/syntax/manage/JavaCodeAdapter.java:351-363 | at the `'\n'` of `"ab\ncd"`, `lineBegin` gives 0 and `lineEnd` gives 4 |
| `JavaCodeAdapter.CountPrefixTabs` | src/main/java/com/syntax/manage/JavaCodeAdapter.java:364-381 | `ArrayIndexOutOfBoundsException` iff `offset >= length`; 0 for a negative offset; otherwise `tabs + ceil(spaces / 4)` over the leading blanks of the line up to the offset |
| `JavaCodeAdapter.IsNumber` | src/main/java/com/syntax/manage/JavaCodeAdapter.java:387-397 | true iff the string belongs to `\d+\.\d*[fFdD]?|\.\d+[fFdD]?|\d+[fFdDlL]?`, stated alternative by alternative |
| `JavaCodeAdapter.NumberLiteralByRuns` | src/main/java/com/syntax/manage/JavaCodeAdapter.java:387-397 | the pattern is decided by the run of digits at the start: followed by a point, the digits after it and then at most one of `fFdD` must end the string, with a digit on at least one side of the point; otherwise there must be at least one digit, then at most one of `fFdDlL` |
| `JavaCodeAdapter.NumberExamples` | src/main/java/com/syntax/manage/JavaCodeAdapter.java:389-394 | `42L`, `1.5f`, `.5` and `1.` are numbers |
| `JavaCodeAdapter.NonNumberExamples` | src/main/java/com/syntax/manage/JavaCodeAdapter.java:389-394 | `.`, `1.5L` and `1e5` are not numbers |
| `SyntaxManager.MakeColor` | src/main/java/com/syntax/manage/SyntaxManager.java:229-241 | the `Color` constructor throws `IllegalArgumentException` iff a component is outside 0..255 |
| `SyntaxManager.ParseHex` | src/main/java/com/syntax/manage/SyntaxManager.java:231 | `Integer.valueOf(s, 16)`: `NumberFormatException` unless an optional sign is followed by hex digits whose value fits an `int`; the value is that of the digits, negated after a `'-'`; a lone sign fails |
| `SyntaxManager.Pair` | src/main/java/com/syntax/manage/SyntaxManager.java:231-233 | a pair past the end of the string throws `StringIndexOutOfBoundsException` before any parsing |
| `SyntaxManager.PairOfHexDigits` | src/main/java/com/syntax/manage/SyntaxManager.java:231-233 | two hex digits are read as `16 * high + low`, which lies in 0..255 |
| `SyntaxManager.PairRange` | src/main/java/com/syntax/manage/SyntaxManager.java:228-242 | any pair that parses lies in -15..255, and in 0..255 unless it starts with `'-'` |
| `SyntaxManager.SignedExamples` | src/main/java/com/syntax/manage/SyntaxManager.java:231 | `"-F"` reads as -15 and `"+F"` as 15; a lone `"-"` and a second sign, as in `"+-F"`, throw `NumberFormatException` |
| `SyntaxManager.GetColor` | src/main/java/com/syntax/manage/SyntaxManager.java:228-242 | length 7 reads `#RRGGBB` with alpha 255; any other length reads alpha from pair 1-3 and RGB from 3-9; shorter than 5 throws `StringIndexOutOfBoundsException`, and lengths other than 7 below 9 never succeed |
| `SyntaxManager.GetColorWithAlpha` | src/main/java/com/syntax/manage/SyntaxManager.java:251-258 | RGB from pairs 1-7 and the given alpha, `IllegalArgumentException` when the alpha is outside 0..255 |
| `SyntaxManager.WithAlpha` | src/main/java/com/syntax/manage/SyntaxManager.java:282-284 | red, green and blue are kept and only the alpha is replaced; it fails iff the alpha is outside 0..255 |
| `SyntaxManager.HexRoundTrip` | src/main/java/com/syntax/manage/SyntaxManager.java:231-240 | reading back a number written with enough hex digits gives the number |
| `SyntaxManager.GetColorRoundTrip` | src/main/java/com/syntax/manage/SyntaxManager.java:228-258 | `getColor` reads back any colour from its `#AARRGGBB` form, and from its `#RRGGBB` form made opaque; `getColor(int, String)` on the short form equals `getColor(int, Color)` |
| `SyntaxManager.DocumentedExamples` | src/main/java/com/syntax/manage/SyntaxManager.java:216-222 | `"#80007EE6"` is (0, 126, 230, 128) and `"#007EE6"` is (0, 126, 230, 255) |

## Findings

| source | as written | input that shows it | evidently intended | confidence | as-written member | corrected member |
|---|---|---|---|---|---|---|
| src/main/java/com/syntax/manage/SyntaxDocumentTool.java:60 | `lineEnd` starts its forward scan at `p - 1` when `txt[p]` is `'\n'`, so on an empty line it starts on the `'\n'` that ends the line above | `"ab\n\ncd"`, caret 3: `lineBegin` gives 3 but `lineEnd` gives 1; `"\nab"`, caret 0: `lineEnd` indexes `txt[-1]` and throws | the end of the line `lineBegin` finds (2 and -1 in these cases, one before the start of an empty line) | high, not executed | `SyntaxDocumentTool.LineEndOnEmptyLine` | `SyntaxDocumentTool.LineEndOfLine` |

## Left out

- The Swing and AWT user interface is not modelled: the text area, carets, headers, scroll bars, highlighter, painter and keyboard shortcuts. Neither are the painting passes of `JavaCodeAdapter`, nor `addTabs`, which issues further edits from inside a change callback.
- JSON and resource loading (`JavaSyntaxAttributes`, `JavaKeyWord`, `ResourceLoader`) are file I/O and an external library.
- Attribute sets are an opaque optional tag (`Attr`); `StyleContext` and `AttributeSet` helpers are library calls.
- The `float` variants of `getColor` use floating point.
- `synchronized` blocks and methods are not modelled; every call is single-threaded.
- Listener `null` checks are not modelled: a listener is always present, and its callbacks go to the event log.
- The state an object is left in after an exception is not modelled; the model returns only `Err` with its kind. For example, `StyledTextBody.nextState` updates the history before `execute` throws.
- `ShiftTab` calls `startForcedMerge` and `finishForcedMerge`, which are defined nowhere. It is not modelled, and collections merge unconditionally, as `CommandCollection.combine` does.
- Which `nextState` runs is not decided by the Java as given: `StyledInsertCommand` and `StyledRemoveCommand` extend `InsertCommand` and `RemoveCommand`, which implement only `ReversibleCommand`, not `Command`, and `TextBody.nextState(ReversibleCommand)` is marked `@Override` although `CommandModule` declares only `nextState(Command)`. The model reads styled commands as `Command`s handled by `StyledTextBody.nextState`, and the plain commands of `insertText`/`removeText` as handled by `TextBody.nextState`, the only reading under which both histories work.
- The undefined accessors `isCombineable`, `finish`, `getStart` and `getChangeStr` are modelled as a `combinable` flag and plain fields. The flag is cleared only where `finish()` is called.
- The `System.out.println` in `SyntaxDocumentTool.lineEnd` is output only.
- Java `int` overflow in positions and lengths is not modelled: positions are unbounded integers. `Integer.valueOf`'s range check is modelled.
- `StyledTextBody.NewInsert`, `StyledTextBody.NewRemove`, `StyledTextBody.PasteIsAtomic` and `StyledTextBody.SelectionRemovalIsAtomic`: lengths and positions count Unicode scalar values, while Java's `String.length()` and every offset count UTF-16 code units. The two agree only on text inside the Basic Multilingual Plane. A single supplementary character (an emoji, say) has length 2 in Java, so `insertStyledText` and `removeStyledText` finish its command and it never merges; in the model it has length 1 and stays combinable. Offsets that split a surrogate pair cannot be expressed at all.
- `SyntaxManager.ParseHex`: it accepts ASCII hex digits only. `Character.digit` also accepts other Unicode digits and full-width letters.
- `isClassName` and `isConstantNumberAllowed` are not among the modelled helpers; they serve only the painting passes.
- `SyntaxDocumentTool.AddThenRemoveFrontTab`: it requires the character at the caret not to be `'\n'`. At a `'\n'`, `countFrontTab` reports zero, so `removeFrontTab` returns false even right after `addFrontTab`.
