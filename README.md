# Lead CRM: a verified model of the lead submission core

The application is a small Flask lead-capture service. A web form posts a
name, a phone number and an acquisition source to `POST /submit_lead`; the
service trims and validates the three fields, refuses a phone number that is
already stored, inserts a row into the SQLite table `leads`, tries to append
the lead to a Google Sheet and sends a WhatsApp template message. `GET
/dashboard` lists all leads newest first, and `DELETE /delete_lead/<id>`
removes one.

This project models that core in Dafny:

- `text.dfy` (module `Text`): Python's `str.strip()` and `str.isdigit()` as
  functions, with lemmas saying what stripping keeps and removes.
- `validation.dfy` (module `Validation`): the submission rule. A missing or
  whitespace-only field fails with "All fields are required"; otherwise a
  stripped phone that is not exactly ten digits fails with "Phone must be 10
  digits". The first failure wins.
- `leads.dfy` (module `Leads`): a row of `leads(id, name, phone, source,
  created_at)`, the table invariant, the `DELETE ... WHERE id = ?` and
  `ORDER BY id DESC` queries as functions on the row sequence, and lemmas
  about them.
- `crm.dfy` (module `Crm`): the `{success, message}` reply, the function
  `Submit` that states the whole outcome of a submission (reply, table
  afterwards, outbound calls attempted), lemmas about it, and the class `LeadDb`
  holding the table (`rows`, in rowid order) and the AUTOINCREMENT counter
  (`nextId`). Its methods `SubmitLead` and `DeleteLead` update the table in
  place, and `ListLeads` is the dashboard's read.
- `scenarios.dfy` (module `Scenarios`): sample submissions
  (a five-digit phone, a phone with letters, an empty name, submitting the
  same lead twice), written as client code of the model.
- `wrappers.dfy` (module `Wrappers`): `Option` and `Result`.

Inputs the model takes as parameters instead of computing them:

- `createdAt` is the timestamp string that `get_ist_time` would produce from
  the wall clock.
- The JSON body is a `map<string, string>`; an absent key reads as "".
- The outcome of the spreadsheet append and of the WhatsApp send is a
  `StepOutcome` argument: `Completed`, or `Raised(error)` with the
  exception's text.

The table invariant (`Leads.TableInvariant`) covers four things. Ids are
unique and increase in storage order. Every id is below the counter, so a
deleted id is never handed out again. No two rows share a phone. Every row
passed validation.

How the two outbound steps end, in the code as written:

- Only the spreadsheet step sits inside the inner `try` (app.py:99-104); the
  WhatsApp call at line 107 does not. Its exception reaches the outer handler
  (lines 111-113), which replies `success: false` with the exception text
  after the row was committed at line 95. `Submit` and `Crm.OutboundFailures`
  state exactly this. `Crm.RetryAfterSendFailureIsDuplicate` shows the
  consequence: a client that retries is told "Phone already exists".
- `setup_google_sheets` (app.py:41-45) has no `return`, so it yields `None`.
  The append at line 101 therefore always raises, and the exception is
  swallowed; nothing reaches Google Sheets. The model records the attempt and
  keeps its outcome as a parameter. `Submit` ignores it, which proves the
  reply never depends on it.

## Model

| member | source | states |
|---|---|---|
| `Text.TrimStart` | app.py:68-70 | the leading half of `strip`; no contract of its own, stated by `Text.TrimStartSpec` |
| `Text.TrimEnd` | app.py:68-70 | the trailing half of `strip`; no contract of its own, stated by `Text.TrimEndSpec` |
| `Text.Strip` | app.py:68-70 | Python's `str.strip()`; no contract of its own, stated by `Text.StripSpec`, `Text.StripEmptyIffBlank`, `Text.StripUntouched` and `Text.StripIdempotent` |
| `Text.TrimStartSpec` | app.py:68-70 | the leading cut of `strip` removes a whitespace-only prefix and stops at the first non-whitespace character |
| `Text.TrimEndSpec` | app.py:68-70 | the trailing cut of `strip` removes a whitespace-only suffix and stops at the last non-whitespace character |
| `Text.StripSpec` | app.py:68-70 | `strip` keeps an infix of the input that starts and ends with non-whitespace, and everything cut on either side is whitespace |
| `Text.StripEmptyIffBlank` | app.py:68-73 | a field is empty after stripping exactly when it consisted of whitespace only |
| `Text.StripUntouched` | app.py:68-70 | a string without whitespace at either end strips to itself |
| `Text.StripIdempotent` | app.py:68-70 | stripping an already stripped field changes nothing |
| `Text.IsDigitString` | app.py:76 | `isdigit` holds exactly for a non-empty string whose every character is a digit |
| `Validation.Field` | app.py:68-70 | `data.get(key, '')`: the value under the key, or "" when the key is absent; no contract of its own, used by `Crm.Submit` and its lemmas |
| `Validation.Validate` | app.py:68-77 | "All fields are required" exactly when some field is whitespace only; otherwise "Phone must be 10 digits" exactly when the stripped phone is not ten digits; otherwise success with the three stripped fields, non-empty and with a ten-digit phone |
| `Validation.ValidateStripped` | app.py:68-77 | the fields validation returns pass validation again and come back unchanged |
| `Leads.TableInvariant` | app.py:21-23 | the schema's constraints as a predicate: ids unique (kept in increasing storage order) and below the AUTOINCREMENT counter, phones unique, every row validated; preserved by `Leads.AppendKeepsInvariant`, `Leads.DeleteKeepsInvariant` and `Crm.SubmitKeepsInvariant` |
| `Leads.HasPhone` | app.py:86-87 | the duplicate lookup `SELECT phone ... WHERE phone = ?` finds a row; no contract of its own, used by `Crm.DuplicatePhoneRejected` and `Crm.LeadDb.Insert` |
| `Leads.AppendKeepsInvariant` | app.py:19-27 | appending a validated row under the counter's id and with an unused phone keeps the table invariant (unique increasing ids, unique phones) |
| `Leads.DeleteById` | app.py:120 | the delete keeps exactly the rows whose id differs from the given one, and never adds a row |
| `Leads.DeleteKeepsInvariant` | app.py:120-121 | deleting keeps the table invariant |
| `Leads.DeleteAbsentIsNoop` | app.py:118-123 | deleting an id no row has leaves the table as it was |
| `Leads.DeleteTwiceIsDeleteOnce` | app.py:118-123 | repeating a delete changes nothing further |
| `Leads.DeleteDistributes` | app.py:120 | the delete works row by row and keeps the order of the surviving rows |
| `Leads.SortByIdDesc` | app.py:58 | `ORDER BY id DESC` as an insertion sort; no contract of its own, stated by `Leads.SortSpec`, `Leads.SortPermutes` and `Leads.ListingOfAscendingIsReversed` |
| `Leads.InsertSpec` | app.py:58 | one insertion step of the listing keeps ids descending, strictly so when no id repeats, and adds exactly the one row |
| `Leads.SortSpec` | app.py:58 | the listing holds exactly the table's rows, ordered by id descending, strictly when ids are distinct |
| `Leads.SortPermutes` | app.py:58-59 | the listing is a permutation of the table: no row lost, none doubled |
| `Leads.InsertSmallestLast` | app.py:58 | a row whose id is below every listed id is placed last |
| `Leads.ListingOfAscendingIsReversed` | app.py:58 | rows stored in increasing id order are listed in exactly the reverse of their storage order |
| `Crm.Submit` | app.py:63-113 | the whole outcome of a submission (reply, table afterwards, counter, outbound calls attempted); no contract of its own, stated by the `Crm` lemmas below, and `Crm.LeadDb.SubmitLead` is proved equal to it |
| `Crm.MissingFieldRejected` | app.py:73-74 | a missing or whitespace-only field gives "All fields are required" whatever the phone, and the table, the counter and the outbound calls are untouched |
| `Crm.MalformedPhoneRejected` | app.py:76-77 | with all fields present, a stripped phone that is not ten digits gives "Phone must be 10 digits" and changes nothing |
| `Crm.DuplicatePhoneRejected` | app.py:86-89 | a valid submission whose phone is already stored gives "Phone already exists", inserts nothing and calls nothing |
| `Crm.NewLeadAppended` | app.py:91-107 | a valid new submission appends exactly one row with the stripped fields and `createdAt` under an id above every stored id, keeps all earlier rows, advances the counter, then attempts the sheet append and the WhatsApp send in that order |
| `Crm.OutboundFailures` | app.py:95-113 | after the commit, the reply is success whatever the spreadsheet step did; a raised WhatsApp send gives a failure reply with the exception text while the row stays stored |
| `Crm.RetryAfterSendFailureIsDuplicate` | app.py:86-113 | after a failed WhatsApp send, the same body submitted again gets "Phone already exists" and changes nothing |
| `Crm.SubmitKeepsInvariant` | app.py:86-95 | every submission, accepted or not, keeps the table invariant and never lowers the counter |
| `Crm.LeadDb.constructor` | app.py:16-29 | a freshly created table is empty, with the AUTOINCREMENT counter at its start, and satisfies the invariant |
| `Crm.LeadDb.Insert` | app.py:82-96 | the duplicate lookup and the insert: a row is added exactly when no stored row has the phone, under an id above every stored id, and the invariant is kept |
| `Crm.LeadDb.SubmitLead` | app.py:63-113 | the endpoint's reply, the new table, the counter and the outbound calls are exactly those `Submit` gives for the old table, and the invariant is kept |
| `Crm.LeadDb.DeleteLead` | app.py:115-125 | the table becomes the old rows minus those with the id, the counter is unchanged, an absent id leaves the table as it was, the invariant is kept, and the reply is always success without a message |
| `Crm.LeadDb.ListLeads` | app.py:54-61 | the dashboard lists every row exactly once, ordered by id descending, strictly so and newest first for a valid table |
| `Scenarios.FiveDigitPhoneRejected` | app.py:76-77 | the phone "12345" is rejected with "Phone must be 10 digits" |
| `Scenarios.LettersInPhoneRejected` | app.py:76-77 | the phone "12345abcde" is rejected with "Phone must be 10 digits" |
| `Scenarios.EmptyNameRejected` | app.py:73-74 | an empty name is rejected with "All fields are required" whatever the phone |
| `Scenarios.SubmitTwice` | app.py:86-109 | on a new database, the same valid body submitted twice is saved the first time and refused as a duplicate the second time, even when the spreadsheet step fails, and the table keeps one row |

## Left out

- Flask plumbing is not modelled: `request.json`, `jsonify`, `render_template` and the routes. A JSON body that is null, is not an object or holds a non-string value under `name`, `phone` or `source` ends in the generic exception reply (app.py:111-113), and that path is not modelled.
- Strings are modelled as sequences of Unicode scalar values, so a field holding a lone surrogate (which a JSON `\ud800` escape produces) is not an input of the model. In the source, such a name or source passes validation, and the INSERT at app.py:91-94 then raises because the text cannot be encoded as UTF-8. The outer handler (app.py:111-113) replies `success: false` and no row is stored; that path is not modelled.
- The SQLite connection, cursor, commit and close calls are not modelled. The table is an in-memory sequence, and each operation is atomic.
- Concurrency is not modelled. Two near-simultaneous submissions with the same phone race in the real database, and the `UNIQUE` constraint then raises into the generic exception reply.
- Errors raised by the sqlite3 calls are not modelled, including a lead id of 2^63 or more, which fails to bind at app.py:120. `DeleteLead` therefore always replies success, and the `except` branch of `delete_lead` (app.py:124-125) is absent.
- AUTOINCREMENT exhaustion is not modelled. SQLite refuses new rows once the largest 64-bit id is used; the model's counter is an unbounded `nat`.
- `get_ist_time` is not modelled, because it reads the wall clock and uses pytz. `createdAt` is an input.
- The Google Sheets integration is not modelled: `setup_google_sheets`, `google_sheets.py`, credentials and network. The append is one call record with an outcome given as a parameter.
- `send_whatsapp` is not modelled. whatsapp.py is not part of this model; the send is one call record with an outcome given as a parameter.
- Console logging with `print` is not modelled, because it has no observable effect on replies or on the table.
- `init_db` on an existing database is not modelled. `CREATE TABLE IF NOT EXISTS` leaves an existing table alone; the constructor models only a new database file, and an existing table is any state satisfying `Valid()`.
- Text.IsDigitString: accepts only the ASCII digits '0'..'9'. Python's `str.isdigit()` also accepts other Unicode digits, such as Arabic-Indic digits and superscripts, so the model's phone rule is narrower than the source's.
- Text.IsSpace: uses the fixed set of characters for which Python's `str.isspace()` is true. It follows Python's Unicode tables as of recent releases, not every version's.
