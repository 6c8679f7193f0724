# A verified model of the console's client-side logic

This project models the client-side logic of the administrative console of a
camera and face-recognition monitoring platform, and proves properties of that
model. The console registers persons, manages each person's face and body
embeddings, and shows presence reports. The model covers five parts:

- **Presence report** (`user_presence.dfy`, module `PresenceReport`):
  - the "time spent" column (`computeTimeSpent`);
  - the rows and the text of the CSV export (`downloadCSV`, without the Blob and download part);
  - the query parameters `buildQuery` sets from the four filters.
- **Embedding dialog** (`embedding_modal.dfy`, module `EmbeddingModal`):
  - the state `mode`, `path`, `confirmed`, `started` and `timer`;
  - the reset when the dialog opens;
  - the Add, Update and Remove buttons;
  - confirming an update;
  - Start and Stop, each as a request sent and its later answer;
  - the one-second tick;
  - removal of an embedding;
  - the `mm:ss` timer text (`formatTime`).
- **Generic form** (`common_form.dfy`, module `CommonForm`): the `form` and `errors` maps, `handleChange`, the validation gate in `handleSubmit`, and the reset from `initialData`.
- **Person form** (`person_form.dfy`, module `PersonForm`): the fixed name and department checks.
- **Persons page** (`users_page.dfy`, module `Users`):
  - the `validate` closure;
  - the embeddings badge and the table rows;
  - the update-or-register choice;
  - deletion;
  - the add/edit dialog state and the embedding dialog state.

Three helper modules support these:

- `js.dfy` (module `Js`) holds the JavaScript built-ins the code relies on: `??`, `join`, `String.prototype.trim` with the ECMAScript white-space set, and `padStart(2, "0")`.
- `decimal.dfy` (module `Decimal`) holds `String(n)` for integers and a reader for runs of digits.
- `csv_reader.dfy` (module `CsvReader`) is a reader for comma-separated text that follows the quoting rules of RFC 4180, section 2 (rules 4 to 7), with records separated by a bare line feed as the export writes them, not by CRLF. The CSV writer is proved against it.

State that the code changes in place is a class:

- `EmbeddingModal.Component`
- `CommonForm.Component`
- `PersonForm.Component`
- `Users.Page`

Each React state hook is a field of its class, and each handler is a method that says which fields it modifies. Pure computations are functions, and the properties are lemmas about them.

Two kinds of round trip serve as independent partners of the formatters:

- The duration text `"[Hh ]Mm Ss"` and the timer text `mm:ss` are each read back by a small parser. The proofs show that the number written is recovered (`DurationRoundTrip`, `ClockRoundTrip`).
- The CSV text is read back by that reader. The proof shows that the header row and every record's five cells are recovered (`ExportRoundTrip`).

The embedding dialog has only Start and Stop with a timer; there is no progress polling.

The Start and Stop requests are modelled as two steps each, the click that sends the request and the answer that arrives later, because the dialog stays live in between. This exposes one reachable state the rendering does not expect: an extraction that runs after the user switched to Remove (`StartOutlivesMode`).

## Model

| member | source | states |
|---|---|---|
| `PresenceReport.JsRem` | src/pages/UserPresence.jsx:115-116 | JavaScript's `%` with a positive divisor: the remainder lies strictly between `-b` and `b`. It agrees with the mathematical remainder for non-negative operands. For a negative dividend it is not positive and differs from the dividend by a multiple of `b`, so it takes the dividend's sign. |
| `PresenceReport.FormatDuration` | src/pages/UserPresence.jsx:114-117 | The text contains an `h` exactly when the hours part is positive, and is never shorter than `"0m 0s"`. |
| `PresenceReport.DurationParts` | src/pages/UserPresence.jsx:114-117 | For non-negative seconds, `hrs*3600 + mins*60 + secs == s`, with `0 <= mins < 60` and `0 <= secs < 60`. |
| `PresenceReport.DurationStartsWithMinutes` | src/pages/UserPresence.jsx:117 | Without positive hours, the text starts with the minutes numeral. |
| `PresenceReport.DurationRoundTrip` | src/pages/UserPresence.jsx:114-117 | Reading the duration text of any non-negative count of seconds gives back that count. |
| `PresenceReport.ComputeTimeSpent` | src/pages/UserPresence.jsx:109-127 | The text is either the dash `—` or a duration text of at least five characters, and NaN seconds always give the dash. |
| `PresenceReport.DashExactlyWhenUnknown` | src/pages/UserPresence.jsx:109-127 | The result is the dash `—` exactly in these cases: the seconds are NaN; or no seconds are reported and a stamp is missing, empty or invalid, or the exit lies before the entry. |
| `PresenceReport.ReportedSecondsTakePrecedence` | src/pages/UserPresence.jsx:110-118 | Reported seconds, negative ones included, decide the text whatever the stamps are. A non-negative count's text reads back as that count. |
| `PresenceReport.ElapsedFromStamps` | src/pages/UserPresence.jsx:119-126 | Without reported seconds, and with two valid stamps where the exit is not before the entry, the text reads back as `floor(diff_ms / 1000)`. |
| `PresenceReport.RowCells` | src/pages/UserPresence.jsx:133-141 | A row has the five header columns. The user cell is the first present of `user_name`, `user` and `user_id`, or `""`. The camera cell is the first present of `cam_number` and `cam`, or `""`. The entry and exit cells are the stamps' texts, or `""` for a missing stamp. Then comes `computeTimeSpent` with `time_spent_seconds ?? time_spent`. |
| `PresenceReport.Escape` | src/pages/UserPresence.jsx:144 | Doubling the quotes never shortens a cell. A cell without quotes is unchanged, and one with a quote grows. `ReadEscaped` gives the inverse. |
| `PresenceReport.QuoteCell` | src/pages/UserPresence.jsx:144 | The enclosed cell starts and ends with a double quote and is at least two characters longer than the cell. `QuotedCellDenotes` shows that it reads back as the cell. |
| `PresenceReport.QuotedRow` | src/pages/UserPresence.jsx:144 | Every cell of a row is enclosed in quotes with its own quotes doubled, and the row has as many cells as before. |
| `PresenceReport.CsvRows` | src/pages/UserPresence.jsx:132-142 | There is exactly one row per record, and each row has the five header columns. |
| `PresenceReport.CsvLines` | src/pages/UserPresence.jsx:144 | The unquoted header line comes first, then exactly one line per row, holding that row's quoted cells joined by commas. |
| `PresenceReport.ExportCsv` | src/pages/UserPresence.jsx:131-144 | No file text is produced exactly when there are no records. |
| `PresenceReport.ReadEscaped` | src/pages/UserPresence.jsx:144 | Un-quoting an escaped cell recovers the original text and stops at its closing quote. |
| `PresenceReport.QuotedCellDenotes` | src/pages/UserPresence.jsx:144 | An enclosed cell reads back as the original cell, whatever field end follows it. |
| `PresenceReport.TextRoundTrip` | src/pages/UserPresence.jsx:144 | For any header of plain cells and any non-empty rows, reading the written text back with the CSV reader gives the header followed by the rows. |
| `PresenceReport.ExportedTable` | src/pages/UserPresence.jsx:132-142 | The written table is the header row followed by each record's cells, in order. |
| `PresenceReport.ExportRoundTrip` | src/pages/UserPresence.jsx:131-144 | Reading the exported text with the CSV reader gives the header row and then exactly one row per record, holding that record's five cells. |
| `PresenceReport.SetParam` | src/pages/UserPresence.jsx:29-32 | `URLSearchParams.set`: afterwards the key occurs once with the new value and every other key looks up as before. Setting an absent key appends the pair. |
| `PresenceReport.RemoveAll` | src/pages/UserPresence.jsx:29-32 | The part of `set` that drops the later pairs of a key: the key is gone and the other keys are unchanged. |
| `PresenceReport.RemoveAllKeepsOthers` | src/pages/UserPresence.jsx:29-32 | Removing a key drops exactly its occurrences: every other pair stays as often as it occurred, and a list without the key is returned unchanged. |
| `PresenceReport.SetKeepsOthers` | src/pages/UserPresence.jsx:29-32 | `set` keeps the pairs not named by the key in their places: the same pairs in the same order. |
| `PresenceReport.QueryShape` | src/pages/UserPresence.jsx:27-33 | The four optional pairs, in order, look up to their own filter's value, are sorted as from, to, cam, user, and hold no other key. |
| `PresenceReport.BuildQuery` | src/pages/UserPresence.jsx:27-34 | The result fails exactly when a non-empty date cannot be converted. Each parameter is present exactly when its filter is non-empty, and then holds the converted date or the filter text. The parameters come in the order from, to, cam, user. |
| `EmbeddingModal.FormatTime` | src/components/EmbeddingModal.jsx:41-45 | The text is the padded minutes `n / 60`, a colon, and the two-digit seconds `n % 60`. It is exactly five characters long when `n < 6000`. |
| `EmbeddingModal.ClockRoundTrip` | src/components/EmbeddingModal.jsx:41-45 | Reading the timer text gives back `n`: the minutes numeral times 60, plus seconds below 60. |
| `EmbeddingModal.Component.constructor` | src/components/EmbeddingModal.jsx:11-15 | The initial state: no mode, empty path, not confirmed, not started, timer 0. |
| `EmbeddingModal.Component.IsOpenChanged` | src/components/EmbeddingModal.jsx:18-26 | The effect runs only when `isOpen` changes. Opening the dialog resets mode, path, confirmed, started and timer. Closing it changes none of them. |
| `EmbeddingModal.Component.ChooseAdd` | src/components/EmbeddingModal.jsx:110-115 | Add is confirmed at once; nothing runs and the timer is 0. |
| `EmbeddingModal.Component.ChooseUpdate` | src/components/EmbeddingModal.jsx:124-129 | Update is not confirmed; nothing runs and the timer is 0. |
| `EmbeddingModal.Component.ChooseRemove` | src/components/EmbeddingModal.jsx:138-143 | Remove is not confirmed; nothing runs and the timer is 0. |
| `EmbeddingModal.Component.UpdateConfirm` | src/components/EmbeddingModal.jsx:63-66 | The update becomes confirmed exactly when the user answers yes; nothing else changes. |
| `EmbeddingModal.Component.StartRequested` | src/components/EmbeddingModal.jsx:68-72 | Pressing an enabled Start sends one more request and changes nothing else, so Start and the mode buttons stay live while it waits. |
| `EmbeddingModal.Component.StartSettled` | src/components/EmbeddingModal.jsx:70-78 | A successful answer starts the extraction whatever the mode is by then; a failed one changes nothing. The alert matches the outcome. The extraction belongs to a confirmed Add or Update afterwards only if the mode still is one. |
| `EmbeddingModal.Component.StopRequested` | src/components/EmbeddingModal.jsx:81-83 | Pressing an enabled Stop sends one more request and changes nothing else. |
| `EmbeddingModal.Component.StopSettled` | src/components/EmbeddingModal.jsx:83-91 | A successful answer stops the extraction, clears the timer and asks for a reload. A failed one changes nothing. |
| `EmbeddingModal.Component.Tick` | src/components/EmbeddingModal.jsx:29-39 | The timer grows by exactly one per tick while the extraction runs, and not at all otherwise. |
| `EmbeddingModal.Component.ConfirmDelete` | src/components/EmbeddingModal.jsx:47-61 | The removal request is sent exactly when the user confirms. The users are reloaded and closing is asked for exactly when it also succeeds. The dialog's state does not change. |
| `EmbeddingModal.Component.ControlsShown` | src/components/EmbeddingModal.jsx:163-176 | Start and Stop are rendered only in an open dialog, in a confirmed mode that is Add or Update. |
| `EmbeddingModal.Component.StartEnabled` | src/components/EmbeddingModal.jsx:186-192 | Start is enabled only while the controls are shown and nothing runs. |
| `EmbeddingModal.Component.StopEnabled` | src/components/EmbeddingModal.jsx:194-200 | Stop is enabled only while the controls are shown and the extraction runs. |
| `EmbeddingModal.Component.ConfirmUpdateShown` | src/components/EmbeddingModal.jsx:166-173 | While "Confirm Update" is shown, neither the controls nor Start nor Stop are. |
| `EmbeddingModal.Component.TimerText` | src/components/EmbeddingModal.jsx:176-183 | The timer text is rendered exactly while the controls are shown and the extraction runs. It is `formatTime(timer)`, and it reads back as the timer. |
| `EmbeddingModal.ControlsNeedConfirmation` | src/components/EmbeddingModal.jsx:176-200 | Start and Stop can be pressed only in a confirmed, open dialog, and never both at the same time. |
| `EmbeddingModal.StopEnabledWhileRunning` | src/components/EmbeddingModal.jsx:176-200 | While a running extraction belongs to a confirmed Add or Update, Stop is enabled exactly while the open dialog's extraction runs. |
| `EmbeddingModal.StartOutlivesMode` | src/components/EmbeddingModal.jsx:68-79 | Update, confirm, Start, then Remove before the answer arrives: the extraction runs in Remove mode, unconfirmed, with no timer shown and no Stop to press. |
| `CommonForm.Component.constructor` | src/components/CommonForm.jsx:5-6 | The form starts as the initial data, with no errors. |
| `CommonForm.Component.InitialDataChanged` | src/components/CommonForm.jsx:8-10 | New initial data replaces the form; the errors stay. |
| `CommonForm.Component.HandleChange` | src/components/CommonForm.jsx:12-15 | The edited field takes the new value and its error becomes `""`, so no message is shown for it. Every other field and every other error keeps its old value. |
| `CommonForm.Component.HandleSubmit` | src/components/CommonForm.jsx:17-27 | The form goes to `onSubmit` exactly when `validate` reports no key. On rejection the errors become exactly what `validate` reported. The form never changes. |
| `CommonForm.Component.DisplayValue` | src/components/CommonForm.jsx:43 | An input shows `""` exactly when its field is absent or empty, and shows the field's value otherwise. |
| `CommonForm.Component.ErrorShown` | src/components/CommonForm.jsx:47-49 | A field's message is rendered only when the field has a non-empty error. |
| `PersonForm.Component.constructor` | src/components/Form.jsx:5-6 | The form starts as the initial data, with no errors. |
| `PersonForm.Component.InitialDataChanged` | src/components/Form.jsx:8-10 | New initial data replaces the form. |
| `PersonForm.Component.HandleChange` | src/components/Form.jsx:12-15 | Only the edited field changes, and only its error is cleared. |
| `PersonForm.Component.HandleSubmit` | src/components/Form.jsx:17-30 | The name and the department are each reported when they are white space only, together if both are. The form is submitted exactly when neither is blank. A missing field makes `trim` throw, and nothing changes. |
| `Users.BadgeText` | src/pages/User.jsx:88-103 | The badge reads "Added" exactly when the face or the body embedding is a non-empty array, and "Not added" otherwise. |
| `Users.TableData` | src/pages/User.jsx:84-136 | There is one row per person, in order, each with four cells: name, department, the badge ("Added" exactly when an embedding is a non-empty array, "Not added" otherwise), and the buttons for that person. |
| `Users.Required` | src/pages/User.jsx:171-176 | The name and the department each get their message exactly when absent or white space only, and no other key is set. The map is empty exactly when both are filled in. |
| `Users.Validate` | src/pages/User.jsx:171-176 | Filling the error object field by field gives exactly the map `Required` describes. |
| `Users.OpenPersonForm` | src/pages/User.jsx:163-177 | The dialog's form starts from the selected person or the empty name and department, without errors, and is gated by `Required`. |
| `Users.SubmitPersonForm` | src/pages/User.jsx:163-177 | The page's form reaches `handleSubmit` exactly when name and department are both filled in; otherwise the errors shown are exactly `Required`'s. |
| `Users.PersonFields` | src/pages/User.jsx:165 | A selected person fills the form with exactly the name and department it has. |
| `Users.InitialFormData` | src/pages/User.jsx:165 | The dialog starts from the selected person, or from an empty name and department when adding. |
| `Users.FormTitle` | src/pages/User.jsx:164 | The title is "Update  Person" exactly when a person is selected, and "Person Registration" otherwise. |
| `Users.Page.constructor` | src/pages/User.jsx:14-19 | No users, nobody selected, both dialogs closed. |
| `Users.Page.UsersLoaded` | src/pages/User.jsx:22-25 | A successful load replaces the users. |
| `Users.Page.HandleAdd` | src/pages/User.jsx:36-39 | Adding clears the selection and opens the dialog. |
| `Users.Page.HandleEdit` | src/pages/User.jsx:42-45 | Editing selects the person and opens the dialog. |
| `Users.Page.CloseFormModal` | src/pages/User.jsx:162 | Closing hides the add/edit dialog. |
| `Users.Page.EmbeddingDialogShown` | src/pages/User.jsx:183-186 | The embedding dialog is rendered only with a person to show it for. While the page invariant holds, it is rendered exactly when `isModalOpen` is set. |
| `Users.Page.HandleEmbedding` | src/pages/User.jsx:61-64 | The embedding dialog opens for the person, and the invariant "open exactly when it has a person" holds. |
| `Users.Page.CloseEmbedding` | src/pages/User.jsx:187-191 | Closing the embedding dialog forgets its person and asks for a reload. |
| `Users.Page.HandleSubmit` | src/pages/User.jsx:67-81 | With a person selected the request is an update of that person's id, and otherwise a registration; either way it carries the submitted data. On success the users are reloaded and the dialog closes. On failure nothing changes. |
| `Users.Page.HandleDelete` | src/pages/User.jsx:48-58 | The delete request for the id is sent exactly when the user confirms. The users are reloaded exactly when it also succeeds. |

## Left out

- Network requests (`fetch`, `axios`) and the JSON they return are not modelled. Each request is reduced to its success flag, and the handlers return the request or reload they cause. Only the embedding dialog's Start and Stop are split into the request and its later answer.
- `EmbeddingModal.Component.ConfirmDelete`, `Users.Page.HandleSubmit`, `Users.Page.HandleDelete`: modelled as single steps. Their answers change no dialog field, only the reload, the close and `modalOpen`; an answer that arrives after further clicks, and the order of those effects among them, is not modelled. The REST paths and `BASE_URL` are not modelled.
- The debounce timer, `AbortController` cancellation and the interval scheduling are not modelled. A tick of the one-second interval is the explicit method `Tick`.
- Dates are abstracted:
  - `new Date(text)` becomes the `ms` field of a stamp.
  - `toISOString` in `buildQuery` becomes the parameter `toIso`, whose `None` stands for the exception an invalid date throws.
  - `toLocaleString` (the `formatTS` display) is not modelled, because it depends on the locale and the time zone.
- `PresenceReport.BuildQuery`: returns the list of parameter pairs rather than `params.toString()`, because form-urlencoding is not modelled. For the same reason, the `?` query suffix of the report URL is not modelled either.
- JavaScript numbers are doubles; the model uses unbounded integers. `String(n)` switches to exponent notation from 1e21 up and arithmetic stops being exact above 2^53. Reported seconds, stamp differences and the timer are taken to stay below those bounds, which no real duration reaches.
- `Number(...)` coercion of the reported seconds is abstracted. It is either absent, a whole number (negative ones follow JavaScript's floor division and truncating remainder), or NaN. Fractional seconds and coercion of strings are not modelled.
- The CSV file separates its lines with a bare line feed (`"\n"`), not with the CRLF that RFC 4180 asks for; the model writes and reads it that way.
- Each field of a presence record stands for its `String(...)` text, as the export converts every cell; `None` stands for null or undefined. Numbers such as `user_id` or `cam_number` are not modelled as numbers.
- The Blob, the anchor element and the download of the CSV file are not modelled. `window.confirm` answers are parameters, and `alert` messages are returned.
- Form values are strings. A field holding another kind of value, such as a person's id or embeddings passed as initial data, is not modelled. `PersonForm` treats a missing field as the case where `trim` throws.
- The `user?.name` heading, the option lists of cameras and users, and the rest of the JSX rendering are not modelled. The other source files (`App.jsx`, `Layout.jsx`, `Sidebar.jsx`, `Topbar.jsx`, `Modal.jsx`, `Card.jsx`, `Table.jsx`, `tailwind.config.js`) are presentational, and are not part of this model.
- Unmounting the embedding dialog when the page closes it is not modelled, and neither is the clearing of its interval on unmount. The page's `isModalOpen <==> modalUser` invariant is modelled instead.
