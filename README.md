# Auto Replace: a verified model

This project models the VS Code extension *Auto Replace*. The extension keeps a
list of `{ before, after }` rules in the setting `autoReplace.rules`. When
`autoReplace.enabled` is true, activation registers a document-change listener.
On each edit to the active editor's document, the listener looks at the first
content change. It takes the end of that change's replaced range as column `c`,
then walks the rules in list order. For each rule it reads the `before.length`
characters that end at `c`. The first rule whose `before` equals that text
exactly has the span replaced by its `after`, and the scan stops there.

The model also covers the pure text steps of the command
`autoReplace.editGlobalReplacements`:

- if the settings text lacks `"autoReplace.rules"`, append a default snippet;
- then find the first line that contains the key, so the cursor can move there.

Files:

- `options.dfy`: module `Options`, the `Option` type.
- `auto_replace.dfy`: module `AutoReplace`, the listener and activation.
  - The scan is the function `FindMatch`.
  - The replacement is the function `Apply`.
  - The whole reaction to one event is the function `Handle`.
  - The listener is the method `OnDidChangeTextDocument`. Its `for` loop with an
    early `break` is proved equal to `Handle`.
- `settings.dfy`: module `GlobalSettings`, holding:
  - `"...".includes` (`Includes`);
  - the insert-if-absent step (`EnsureRulesEntry`);
  - `split('\n')` (`SplitLines`, with its inverse `JoinLines`);
  - `findIndex` (`FocusLine`);
  - the command's result (`EditGlobalReplacements`).

Modelling choices:

- A document line is a `string` and a column is a `nat`. The host's asynchronous
  `editor.edit` is assumed to succeed. Its effect is the line the model computes.
- A rule can be checked only if its range `[c - |before|, c]` lies on the line.
  Two kinds of range are not checkable:
  - `c < |before|`: `translate(0, -len)` asks for a negative column;
  - `c > |line|`: the range ends past the end of the line, which can happen when
    the change replaced a longer piece of text.
  In both cases the host's `Position`/`Range` validation decides what happens.
  So the scan stops with `HostDefined(i)`, and the event's effect is
  `LeftToHost(i)`. The model claims nothing about the document in that case.
- A rule with an empty `before` is not rejected. Its range is empty and `"" === ""`,
  so it fires at every column on the line and inserts `after` there. The code
  does this, so the model does too. Such a rule (with a non-empty `after`) also
  fires again on the change that its own edit produces; see `OwnEditRefires`.
- The snippet is inserted at `Position(lineCount, 0)`. The host clamps that
  position to the end of the document, so the model appends the snippet to the
  end of the text.
- The rules are read once, at activation (`Activate`). A listener keeps
  scanning the list it was given.

The listener keeps no buffer of its own per document. It does no merging of
global and local rules, no matching in several tiers, and no confirm or timeout
handling. It accepts an empty `before`. Within one event it stops at the first
hit and issues at most one edit.

## Model

| member | source | states |
|---|---|---|
| `AutoReplace.FindMatch` | src/extension.ts:21-34 | A hit names a rule whose `before` equals the text `line[c-len..c]`, with the span `[c-len, c]`. Every earlier rule was checkable and did not fire. The scan stops at the first rule whose range leaves the line. There is no match exactly when every rule was compared and none fired. |
| `AutoReplace.FirstStopDecides` | src/extension.ts:21-33 | The first rule that is not a miss decides the result. If it fires, the result is a hit on it. If its range is off the line, the host decides. No later rule can change this. |
| `AutoReplace.ScanOfConcat` | src/extension.ts:21-33 | Appending rules after a list where the scan already stops changes nothing: after a `break` no later rule is examined. If no rule in the list fires, the scan continues in the appended rules as if they stood alone, with shifted indices. |
| `AutoReplace.Apply` | src/extension.ts:24-30 | Replacing `[start, end)` by `text` keeps `line[..start]` and `line[end..]` and puts exactly `text` between them. The new length is the old length minus the span plus `|text|`. |
| `AutoReplace.Handle` | src/extension.ts:13-19 | An event for another document, an event with no content change, or one whose first change inserts empty text gives no edit. Any edit it does give lies within the line. |
| `AutoReplace.OnDidChangeTextDocument` | src/extension.ts:12-35 | The listener's loop computes exactly the effect `Handle` gives, and the resulting line. The loop invariant is that every rule before the current one was compared and did not fire. |
| `AutoReplace.HitReplacesSpan` | src/extension.ts:23-31 | On a hit the one edit replaces `[c - len(before), c]`, whose text is exactly `before`, by that rule's `after`. The resulting line is `line[..c-len] + after + line[c..]`. |
| `AutoReplace.NoMatchNoEdit` | src/extension.ts:21-34 | When no rule fires, the event issues zero edits and the line is unchanged. |
| `AutoReplace.OnlyFirstChangeCounts` | src/extension.ts:16-19 | Content changes after the first one have no influence on the reaction. |
| `AutoReplace.EmptyBeforeInsertsAt` | src/extension.ts:23-30 | Suppose a rule with empty `before` is reached and `c` is on the line. Then it fires and its effect is to insert `after` at `c`. |
| `AutoReplace.FiresExactly` | src/extension.ts:22-28 | `Fires` (built on `Checkable`, the range that `translate` and `new Range` build) holds exactly when the range `[c - len, c]` is on the line and every character in it equals the character of `before` at the same place. |
| `AutoReplace.LineAfterEvent` | src/extension.ts:29-31 | It is undefined exactly when the host decides. With no edit it is the line itself. After a replacement it keeps the text before and after the span and holds exactly `after` in between. |
| `AutoReplace.OwnEditRefires` | src/extension.ts:12-31 | The listener's own edit produces a change with text `after` and range end `c`. If a rule fires, its `after` is non-empty and begins with its `before`, then the rule fires again on that change, with the same replacement, over a line that is no shorter. |
| `AutoReplace.Activate` | src/extension.ts:6-10 | A listener is registered exactly when `enabled` is `true`. It scans the configured rules, or the empty list when the setting is missing. |
| `AutoReplace.React` | src/extension.ts:6-35 | With `enabled` not `true`, an event gives no edit. Otherwise it gives what the listener gives over the configured rules, or over the empty list when the setting is missing. |
| `AutoReplace.CaseSensitive` | src/extension.ts:28 | The comparison is exact: rule `teh` fires on `teh` but not on `Teh`. |
| `AutoReplace.DisabledNeverEdits` | src/extension.ts:6-12 | With `enabled` false or missing, no listener is registered, so no event ever edits. |
| `AutoReplace.MissingRulesNeverEdit` | src/extension.ts:10 | A missing rules setting behaves as the empty list, which never edits. |
| `GlobalSettings.Includes` | src/extension.ts:68 | `includes` is true exactly when the needle occurs at some index of the text. |
| `GlobalSettings.EnsureRulesEntry` | src/extension.ts:67-75 | The text is unchanged when it already contains `"autoReplace.rules"`. Otherwise the snippet is appended. Either way the result contains the key. |
| `GlobalSettings.EnsureRulesIdempotent` | src/extension.ts:68-70 | The snippet carries the key, so the insertion step applied twice equals applying it once. |
| `GlobalSettings.SplitLines` | src/extension.ts:78 | `split('\n')` gives at least one piece. No piece contains `'\n'`. Joining the pieces with `'\n'` gives the text back. |
| `GlobalSettings.SplitJoin` | src/extension.ts:78 | Splitting undoes joining, for any non-empty list of pieces that contain no `'\n'`. |
| `GlobalSettings.FocusLine` | src/extension.ts:78 | The focus line is -1 exactly when no line contains the key. Otherwise it is a line that contains the key, and no earlier line does. |
| `GlobalSettings.IncludesJoined` | src/extension.ts:78 | A needle with no `'\n'` occurs in the joined text exactly when it occurs in one of the lines. |
| `GlobalSettings.FocusFoundIffKeyPresent` | src/extension.ts:78-79 | A focus line exists exactly when the whole text contains the key. |
| `GlobalSettings.EditGlobalReplacements` | src/extension.ts:55-87 | A missing settings file gives the not-found outcome and nothing else does. When the file exists, the saved text contains the key and is unchanged if it already contained it. The saved text is exactly the result of the insertion step, so when the key was absent it is the old text with the snippet appended. The cursor always goes to the first line that contains the key. |

## Left out

- Registration of the listener and the commands, and `context.subscriptions` (lines 12, 37, 41-55). This is host integration. The existence of an active editor and the document-identity check (lines 13-14) are the boolean `active`.
- The commands `autoReplace.enable` and `autoReplace.disable` (lines 41-52). They only write the configuration store and show a message. Their effect reaches the model through `Config` at the next activation.
- Asynchronous completion and failure of `editor.edit` and `doc.save` (lines 29-31, 71-74). Edits are taken to succeed.
- Host `Position`/`Range` semantics for ranges that leave the line (`translate` below column 0, a range end past the line end). The model stops with `LeftToHost` there rather than guess.
- Changes that span several lines. The model is given the current text of the line on which the first change's range ends, as the source reads it.
- File I/O and UI: `fs.existsSync` (the `exists_` input), `openTextDocument`, `showTextDocument`, messages, `selection`, `revealRange` and the `try`/`catch` error message (lines 58-86). These are foreign side effects.
- `getUserSettingsPath` (lines 93-106). It depends on `process.platform`, environment variables and `path.join`.
- String length units. JavaScript counts UTF-16 code units, and the model counts Dafny characters. The two differ only for characters outside the Basic Multilingual Plane.
- Malformed `autoReplace.rules` entries, such as a missing `before`. The setting's type gives every entry two strings.
- JSON validity of the settings file after the snippet is appended. The model treats the settings file as plain text.
- Line endings of inserted text. When the editor inserts into a document with CRLF line endings, it turns the snippet's `'\n'` into `"\r\n"`. The model assumes `'\n'` line endings, so `EnsureRulesEntry` appends the snippet exactly as written.
- Chains of events. The model covers one change event. Each edit the listener makes produces a further change event, which reaches the same listener. `OwnEditRefires` shows the first step: a rule whose `after` begins with its `before` fires again on that event, so the extension keeps editing without end. The model does not follow the sequence of events any further.
