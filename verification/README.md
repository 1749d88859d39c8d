# PPE issuance workflow — a Dafny model

A Dafny model of the issuance workflow of the PPE ("EPI") delivery-receipt desktop
application, `app.py`. The workflow has four parts:

- **Selection reconciler.** The PPE tree keeps two views of "chosen": each row's
  `checked`/`unchecked` tag, which draws the checkbox, and the widget's own multi-row
  selection. Three handlers keep the two views in lockstep: the checkbox-column click,
  the selection-changed event and the clear-all heading (module `Selection`).
- **Line-item editor.** Opening the quantities window makes one line per checked row,
  with quantity 1. A quantity edit is stripped and parsed; a blank entry reads as 0,
  and negative or non-integer text is refused. Finalizing drops the zero-quantity
  lines and refuses an issuance with nothing left (module `LineItems`).
- **Fulfillment committer.** When stock adjustment is on, every committed line is sent
  in turn to the ERP's `IncluirAjusteEstoque` call. Each reply is classified on its own
  and no failure stops the batch. The receipt is rendered whatever the replies were
  (module `Fulfillment`).
- **Document assembler.** The item table is the header, one row per committed line and
  the footer. It is followed by four `str.replace` calls that fill the template's name,
  company, date and table placeholders, in that order (module `Receipt`). The template may
  hold its placeholders anywhere and any number of times.

Supporting modules:

- `Text` models Python's `str.strip()`, the part of `int()` the program relies on, and
  `str()` of an integer.
- `Replace` models `str.replace` as a left-to-right scan. It is proved equal to joining
  the split pieces with the replacement. The split itself is pinned down without the scan:
  it is the only list of pieces that joins back to the text and cuts at the leftmost
  occurrences.
- `Results` holds `Option` and `Result`.

The HTTP client is a parameter: a function from a call's position and its request to
the reply it got. `str.upper` is also a parameter. Each of the two `datetime.now()`
readings is a date-string parameter: one for the receipt and the audit note, one for
the adjustment's `data` field.

## Model

| member | source | states |
|---|---|---|
| Text.Strip | app.py:298 | The result has no whitespace at either end. It is empty exactly when the entry is all whitespace. |
| Text.StripPadded | app.py:298 | Whitespace around a text without whitespace at its ends is removed, and the text itself is kept. |
| Text.ParseInt | app.py:300 | `int()` succeeds exactly on an optional sign followed by digits. A negative result comes only from a leading `-`. Its value is pinned by `Text.PaddedLiteralsRead`. |
| Text.PaddedLiteralsRead | app.py:300 | Every spelling `int()` accepts reads as its value. An optional sign and any number of leading zeros before the shortest spelling of `n` read as `n`, or `-n` after a `-`. Examples: `int("007") == 7`, `int("+3") == 3`, `int("-0") == 0`. |
| Text.LeadingZeroExample | app.py:309 | The codes "5" and "05" read as the same integer, 5. |
| Text.NatToString | app.py:347 | `str(n)` is non-empty and made of digits only. Its decimal value is `n`, and it has no leading zero. |
| Text.IntToStringRoundTrip | app.py:347 | `int(str(i)) == i` for every integer. |
| Replace.ReplaceAllIsJoinOfSplit | app.py:426-429 | Replacing is joining the pieces of a split with the replacement. |
| Replace.SplitJoinRoundTrip | app.py:426-429 | Joining the split pieces with the pattern gives the text back. |
| Replace.SplitPiecesFree | app.py:426-429 | No piece of the split contains the pattern. |
| Replace.SplitLeftmost | app.py:426-429 | No occurrence starts inside a piece before the separator that follows it, and the last piece holds none: the cuts are the leftmost non-overlapping occurrences. |
| Replace.SplitNoMatch | app.py:426-429 | Text without the pattern is a single piece. |
| Replace.SplitUnique | app.py:426-429 | Any pieces that join back to the text and cut at the leftmost occurrences are the split. So the split, and with it the replacement, is determined without reference to the scan. |
| Replace.ReplaceAllNoMatch | app.py:426-429 | Text without the pattern is unchanged. |
| Replace.ReplaceAllSkip | app.py:426-429 | A prefix in which no occurrence starts is copied through. |
| Selection.Load | app.py:473-475 | Loaded rows keep their code and description and are all unchecked. Nothing is selected, and the two views agree. |
| Selection.Click | app.py:197-209 | A click on the checkbox column of a row flips that row's tag. The selection gains or loses exactly that row, every other row is unchanged, and the click is consumed. Any other click changes nothing. The lockstep invariant is preserved. |
| Selection.Reconcile | app.py:211-218 | After the selection-changed handler, a row is checked exactly when it is selected. The selection and the items are unchanged. |
| Selection.ReconcileRows | app.py:211-218 | The handler's loop gives the same rows as `Reconcile`. It rewrites exactly the rows whose tag disagreed with the selection and leaves every other row untouched. |
| Selection.ReconcileConsistentIsIdentity | app.py:211-218 | Reconciling a tree whose views already agree changes nothing. |
| Selection.ClearAll | app.py:192-195 | Every row becomes unchecked and no row stays selected. The items are unchanged and the views agree. |
| Selection.StepKeepsConsistent | app.py:192-218 | Any event, followed by the selection-changed handler it triggers, leaves the views in agreement. |
| Selection.HandlersNeedNoReconcile | app.py:192-209 | After a checkbox click or a clear-all on a consistent tree, no row disagrees with the selection. |
| Selection.RunKeepsConsistent | app.py:192-218 | After any sequence of events, the checked rows are exactly the selected rows. |
| LineItems.CheckedIndices | app.py:229 | Lists exactly the checked rows, in tree order, without repeats. |
| LineItems.BuildLines | app.py:264-270 | One line per listed row, with the parsed code, the row's description and quantity 1. It fails with the first code that is not an integer. |
| LineItems.OpenDraft | app.py:221-232 | Refused without an employee, then refused when nothing is checked. Otherwise it holds one line per checked row, in tree order, with quantity 1, and the window shows what the lines hold. |
| LineItems.BuildCheckedLinesOk | app.py:264-270 | The lines of the checked rows can be built exactly when every checked row's code is an integer. |
| LineItems.DraftFollowsSelection | app.py:229-232 | When the tree's views agree, the draft has exactly one line per selected row. |
| LineItems.ParseQuantity | app.py:298-306 | A blank entry reads as 0. Otherwise the stripped entry is accepted exactly when it is an integer literal that is not negative, and it reads as that integer. The error names the entry. |
| LineItems.QuantityRoundTrip | app.py:298-303 | A natural number written in decimal, with any whitespace around it, reads back as itself. |
| LineItems.NegativeQuantityRefused | app.py:300-306 | A negative integer is refused. |
| LineItems.NonDigitQuantityRefused | app.py:300-306 | An entry with a non-digit after its first character, such as a fraction, is refused. |
| LineItems.BlankExamples | app.py:298-300 | An empty entry and an entry of spaces both read as 0. |
| LineItems.Three | app.py:298-303 | "3" is accepted as 3. |
| LineItems.FortyTwo | app.py:298-303 | "42" is accepted as 42. |
| LineItems.MinusOne | app.py:300-306 | "-1" is refused. |
| LineItems.LettersRefused | app.py:300-306 | "abc" is refused. |
| LineItems.FractionRefused | app.py:300-306 | "1.5" is refused. |
| LineItems.FirstWithCode | app.py:310-313 | Finds the first line with the code, and no earlier line has it. It is `None` exactly when no line has the code. |
| LineItems.EditByCode | app.py:307-313 | The edit as written. The window shows the new quantity on the edited row, but the quantity is stored on the first line with the same code. |
| LineItems.EditAt | app.py:307-313 | The corrected edit. The quantity is stored on the edited row's own line, every other line is kept, and the window keeps showing what the lines hold. |
| LineItems.EditByCodeIsEditAtWhenCodesUnique | app.py:307-313 | With distinct codes, the edit as written is the corrected edit. |
| LineItems.EditByCodeLosesDuplicateEdit | app.py:307-313 | With an earlier line of the same code, the edited row's line keeps its old quantity, and the window shows a quantity the draft does not hold. |
| LineItems.ApplyEdits | app.py:294-316 | With the corrected edit, any run of edits keeps every line's code and description, and keeps the window in agreement with the lines. |
| LineItems.LastEditWins | app.py:294-316 | With the corrected edit, an accepted entry for a row is that row's quantity, whatever other rows are edited afterwards. |
| LineItems.OtherEditsKeepRow | app.py:294-316 | With the corrected edit, edits of other rows leave a row's line alone. |
| LineItems.ApplyEditsAsWritten | app.py:294-316 | The program's run of edits keeps the employee, the number of lines, and every line's code and description. |
| LineItems.EditAtKeepsCodes | app.py:307-313 | An edit changes no code, so distinct codes stay distinct. |
| LineItems.AsWrittenRunWhenCodesUnique | app.py:294-316 | With distinct codes, the program's run of edits is the corrected run, so it keeps the window in agreement with the lines. |
| LineItems.LastEditWinsAsWritten | app.py:294-316 | With distinct codes, the program's run also ends with the last accepted entry for a row as that row's quantity. |
| LineItems.Positive | app.py:327 | Keeps exactly the lines with quantity above zero. |
| LineItems.PositiveAppend | app.py:327 | The filter distributes over concatenation, so the committed lines keep their order. |
| LineItems.Finalize | app.py:327-330 | Refused exactly when every quantity is zero. Otherwise it commits the positive lines, which are not empty. |
| LineItems.FinalizeExample | app.py:327-330 | Quantities 0, 2, 0 and 5 commit the second and the fourth line, in that order. |
| Receipt.RowsAppend | app.py:410-418 | The rows of two runs of lines are the rows of the first run followed by those of the second. |
| Receipt.TableRowAt | app.py:402-424 | The table is the header, one row per line in the given order, and the footer. |
| Receipt.RowShowsLine | app.py:410-418 | A row carries its line's code, description and quantity verbatim. |
| Receipt.TableShowsRow | app.py:402-424 | The table holds every line's whole row, with each cell in place. |
| Receipt.TableShowsLine | app.py:402-424 | The table carries every line's code, description and quantity verbatim. |
| Receipt.ReceiptKeysDistinct | app.py:426-429 | The four placeholder keys are distinct and contain no braces. |
| Receipt.DistinctPlaceholdersDoNotMatch | app.py:426-429 | One placeholder never matches inside another. |
| Receipt.RenderIsSubstitute | app.py:426-429 | The four chained replacements are the substitution of the four keys, in the order name, company, date, table. |
| Receipt.SubstituteFill | app.py:426-429 | Substituting into any template, whose placeholders may come in any order, repeat, or name keys no binding names, replaces each placeholder by the value of the first binding of its key. A placeholder no binding names stays, and the text between placeholders is kept. This holds when the texts and every value but the last are inert: each `{` in them is followed, within them, by a character other than `{`. Style rules such as `body { margin: 0 }` are inert. |
| Receipt.SubstituteWithoutPlaceholders | app.py:426-429 | Text without placeholders passes the substitution unchanged. |
| Receipt.RenderFill | app.py:426-429 | Any template of inert text around placeholders, in any order and any number of times, with an inert name, company and date. Every name, company, date and table placeholder is replaced by its value, any other placeholder stays, and the text between is kept. |
| Receipt.RenderEachOnce | app.py:426-429 | The usual template, with the four placeholders once each in the order name, company, date, table, renders to its text with the four values in place. |
| Receipt.RenderWithoutPlaceholders | app.py:426-429 | A template without any of the four placeholders is returned unchanged. |
| Receipt.SubstituteOrder | app.py:426-429 | Replacements run over the text earlier ones produced. A value spelling a later placeholder is itself replaced, while one spelling an earlier placeholder stays. |
| Receipt.WeaveShowsValues | app.py:426-429 | Every substituted value appears in the result. |
| Receipt.ShowsLineThroughTable | app.py:402-424 | Text that contains the table shows every line's row, and that row's code, description and quantity. |
| Receipt.RenderShowsValues | app.py:426-429 | For any such template, the receipt shows the name, the company, the date and the whole table whenever the template holds the matching placeholder. |
| Receipt.RenderShowsLine | app.py:402-429 | For any such template holding the table placeholder, the receipt shows every committed line's row, and so its code, description and quantity. |
| Receipt.InertAppend | app.py:426-429 | Inert texts put side by side stay inert. |
| Receipt.InertHasNoPlaceholder | app.py:426-429 | Inert text holds no placeholder, so every replacement passes over it. |
| Receipt.WeaveInert | app.py:426-429 | Inert texts woven with inert values give inert text. |
| Receipt.TableInert | app.py:402-424 | With inert markup and inert descriptions, the table is inert. |
| Receipt.RenderFillsEveryPlaceholder | app.py:426-429 | For any template whose placeholders, in any order and number, are all receipt placeholders, with inert text, name, company, date and table, the receipt holds no placeholder of any key: every placeholder was filled. |
| Receipt.RenderExample | app.py:402-429 | Jane Doe of Acme, on 01/02/2030, receiving item 7 "Gloves" with quantity 3. For any inert template holding the four placeholders, in any layout, the receipt shows the name, company and date. It also holds the row with 7, Gloves and 3 in the code, description and quantity cells. |
| Fulfillment.AdjustmentRequest | app.py:339-353 | One adjustment per request, with the call `IncluirAjusteEstoque` and the credentials. It carries the line's code and the stock date, and the quantity spelled as `str` spells it, which reads back as the quantity. It also carries the audit note, location 0, and `AJU`/`SAI`/`INV`. |
| Fulfillment.NoteNamesEmployeeAndDate | app.py:348 | The audit note names the employee, as upper-cased, and the receipt's date. |
| Fulfillment.Classify | app.py:355-364 | The outcome names the line's item. It is "adjusted" exactly on a status-200 readable body without a truthy `faultcode`. It is a fault exactly when that `faultcode` is truthy, and then carries the `faultstring`. It is an HTTP error, carrying the status, exactly on a status other than 200. It is a transport error exactly on an exception or an unreadable status-200 body, and then carries the exception's text. |
| Fulfillment.Requests | app.py:338-353 | One request per committed line, in order. |
| Fulfillment.Outcomes | app.py:355-364 | The outcome of each request is classified from the reply to that request alone. |
| Fulfillment.Commit | app.py:336-364 | The loop sends exactly the requests of `Requests` and records exactly the outcomes of `Outcomes`. Outcome `k` is about line `k`. |
| Fulfillment.Submit | app.py:326-367 | Refused exactly when every quantity is zero. With adjustment off, no request is sent. With adjustment on, request `k` takes committed line `k` out of stock and its outcome is classified from its reply. The document is the rendered template, and is missing only when the template file is missing. |
| Fulfillment.DocumentIgnoresReplies | app.py:336-367 | Whatever the ERP replies, the same draft gives the same document and the same requests. |
| Fulfillment.OutcomeIsPerLine | app.py:338-364 | A line's outcome depends only on the reply to its own request. |
| Fulfillment.OneFailureDoesNotStopTheRest | app.py:338-367 | If item 101's request raises and item 102's is accepted, the outcomes are a transport error for 101 and success for 102, and the receipt covers both lines. |

## Left out

- The tkinter widgets, layout, images, message boxes and their texts are left out. So are `modal.destroy()` and the Windows/macOS/Linux viewer launch. The model records outcomes and errors as values instead of message boxes.
- Loading the configuration, the employee CSV and the catalogue CSV is left out. `Selection.Load` takes the catalogue rows as a list, and error rows are just rows with an empty code.
- HTTP, JSON decoding and the 10-second timeout are not modelled. The client is a function parameter. A JSON `faultcode` is a missing-or-string field, and it counts as truthy when present and non-empty.
- Writing the PDF with WeasyPrint, and its failure path, is not modelled. The model stops at the rendered markup.
- Reading the template file is not modelled. The template is a parameter, with `None` for a missing file.
- `datetime.now()` is left out; its two readings are parameters.
- `str.upper` is a parameter, because Unicode case mapping is not modelled.
- Text.ParseInt: models `int()` only on stripped text made of ASCII digits with an optional sign. Python also accepts underscores between digits and non-ASCII decimal digits.
- Replace.ReplaceAll: requires a non-empty pattern, which all four placeholders are. Python's behaviour for an empty pattern is not modelled.
- Clicks on the checkbox column are reduced to the handler's own effect. The widget's default binding, which the handler's `"break"` suppresses, is not modelled. Any other change of the widget's selection is an arbitrary set of existing rows.
- LineItems.BuildLines: a checked row whose code is not an integer ends opening the window with `InvalidCode`. In the program, `int(codigo)` raises an exception the handler does not catch, which leaves a half-built window.
- Fulfillment.Submit: a missing template gives no document after the adjustments were already sent, and the window still closes (app.py:367, 395-397, 375).
- Re-rendering with the same inputs gives the same output. Every member is a function, so this holds by construction and is not stated separately.
- SubstituteFill: template text holding `{{` or ending in `{` is not covered. Neither is a value other than the last that does, because such text can form a placeholder with what follows it.
- RenderFill: the same condition applies to the template text, the name, the company and the date.
- RenderEachOnce: the same condition as RenderFill.
- RenderShowsValues: the same condition as RenderFill.
- RenderShowsLine: the same condition as RenderFill.
- RenderExample: the template text must be inert; the name, company and date of the example are. The example does not state that no placeholder remains in its receipt, because that needs the markup of app.py:402-424 to hold no brace, which is not proved (see RenderFillsEveryPlaceholder).
- RenderFillsEveryPlaceholder: the table being inert is a hypothesis. `Receipt.TableInert` reduces it to the descriptions and the markup. That the markup of app.py:402-424 holds no brace is not proved, because checking it over the long literal is beyond the verifier at reasonable cost. A description that spells a placeholder does stay in the receipt, since the table is inserted last.

## Findings

| source | as written | input that shows it | evidently intended | confidence | as-written member | corrected member |
|---|---|---|---|---|---|---|
| app.py:307-313 | The edited quantity is stored on the first `itens_data` entry whose integer code equals the edited row's code, while the window shows it on the edited row. | Two checked rows with the same code, or codes "5" and "05". Set the second row's quantity to 3: the window shows 3 on the second row, the first line's quantity becomes 3 and the second keeps 1. | The quantity is stored on the line of the row that was edited. | medium, not executed | LineItems.EditByCodeLosesDuplicateEdit | LineItems.EditAt |
