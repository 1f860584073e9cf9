# Excel File Splitter — a Dafny model

The application is a small Streamlit page. A user uploads a spreadsheet,
picks a column and presses "Process". The page then offers a ZIP archive
with one member per distinct value of that column. In "ZIP" mode each
member is a workbook `<value>.xlsx` holding that value's rows. In "Email"
mode each member is a message file `<value>.eml`. Its subject and body
name the value, its `To` header lists the addresses typed into a text box,
and it carries the workbook as an attachment named `<value>.xlsx`. Email
mode with no address shows "Please enter at least one email address."
instead of a download.

This project models that pipeline and proves its properties:

- `Text`: Python's `str.strip()`, `str.split(sep)` and `sep.join(...)` on
  strings.
- `Recipients`: the list comprehension that parses the address box, and
  the `To` header.
- `Partition`: `df.groupby(column)` over a table of rows, each row with its
  key value.
- `Email`: the message built for one group, both as a value (`Compose`)
  and as the step-by-step updates of a `MimeMultipart` object.
- `Archive`: the in-memory ZIP file as a class whose `WriteStr` appends a
  member. Also `split_excel_and_zip` and `create_outlook_emails` as loops
  over the groups, proved against the specification function `ArchiveOf`.
- `App`: the branch run by the "Process" button. `Expected` is its
  specification and the method `Process` is proved against it.

The spreadsheet writer (pandas/openpyxl) and the message serialiser
(`BytesGenerator.flatten`) are not defined by the application. They are
parameters of the model: the two functions of a `Libraries` value. The
attachment's base64 step (`encoders.encode_base64`, which encodes the
payload and sets its `Content-Transfer-Encoding` before anything is
flattened) is modelled as a mark on the part: the part keeps the raw
workbook as its payload and records the transfer encoding `base64`.

## Model

| member | source | states |
|---|---|---|
| Text.Strip | streamlit_app.py:82 | the result has no white space at either end and is no longer than the input |
| Text.StripInfix | streamlit_app.py:82 | the result is a contiguous piece of the input: only characters at the two ends are removed |
| Text.StripPadded | streamlit_app.py:82 | stripping `w + t + v` with `w`, `v` white space and `t` trimmed gives exactly `t` |
| Text.StripIdempotent | streamlit_app.py:82 | stripping twice is stripping once: every parsed address is already stripped |
| Text.StripEmptyIffAllSpace | streamlit_app.py:82 | a line strips to nothing exactly when it is all white space |
| Text.Split | streamlit_app.py:82 | `split('\n')` gives one more piece than there are separators, and no piece holds the separator |
| Text.SplitChars | streamlit_app.py:82 | the pieces hold only characters of the text, and every non-separator character is in some piece |
| Text.SplitConcat | streamlit_app.py:82 | splitting `a + sep + b` gives the pieces of `a` followed by those of `b` |
| Text.SplitJoin | streamlit_app.py:82 | splitting a join of separator-free parts gives back the parts |
| Text.JoinSplit | streamlit_app.py:82 | joining the pieces of a split gives back the text |
| Text.Join | streamlit_app.py:44 | joining no parts gives the empty string and joining one part gives that part |
| Recipients.ParseRecipients | streamlit_app.py:82 | every parsed address is non-empty, trimmed and free of `'\n'`; there are at most as many addresses as lines; the exact result per line is given by `ParseRecipientsOfPaddedLine` and `ParseRecipientsLineByLine` |
| Recipients.NoRecipientsIffBlank | streamlit_app.py:82 | the parsed list is empty exactly when the text is blank or white space only |
| Recipients.ParseRecipientsConcat | streamlit_app.py:82 | the addresses of two texts, one after the other, are the first text's followed by the second's, so line order is kept |
| Recipients.ParseRecipientsOfLines | streamlit_app.py:82 | typing a list of trimmed, non-empty addresses one per line parses back to that list |
| Recipients.ParseRecipientsOfPaddedLine | streamlit_app.py:82 | a line holding one address with white space before and after it parses to exactly that address |
| Recipients.ParseRecipientsLineByLine | streamlit_app.py:82 | a text of several lines parses line by line: each line is stripped on its own, and blank lines are dropped |
| Recipients.ToHeader | streamlit_app.py:44 | with one recipient the `To` header is that recipient, and with none it is empty |
| Recipients.ToHeaderRoundTrip | streamlit_app.py:44 | splitting the `To` header at `;` and stripping gives back exactly the recipients, in order, when no address holds a `;` |
| Recipients.ParseAddressList | streamlit_app.py:44 | reading a header back yields only non-empty, trimmed, `;`-free addresses |
| Partition.Dedup | streamlit_app.py:17 | the keys without repeats: pairwise distinct, with the same members as the input |
| Partition.DistinctKeys | streamlit_app.py:17 | the group keys are pairwise distinct and are exactly the key values that occur in the table |
| Partition.Filter | streamlit_app.py:17 | a group's rows are exactly the table rows that carry its key |
| Partition.GroupBy | streamlit_app.py:17 | groups have distinct keys and are non-empty; every row of a group is a table row with the group's key; zero groups exactly for an empty table |
| Partition.GroupByIsPermutation | streamlit_app.py:17 | the groups' rows, concatenated, are a permutation of the table's rows |
| Partition.RowInExactlyOneGroup | streamlit_app.py:17 | every row lies in exactly one group |
| Partition.GroupCount | streamlit_app.py:17 | there are exactly as many groups as distinct key values |
| Partition.GroupHoldsKeyRows | streamlit_app.py:17 | a group holds every row with its key, as many times as the table does |
| Partition.RegionGroups | streamlit_app.py:17 | the table East, West, East splits into East (rows 1 and 3) and West (row 2) |
| Email.GetHeader | streamlit_app.py:43-45 | a header is found exactly when one of that name was set, and its value is that of the first header of that name |
| Email.Between | streamlit_app.py:43-52 | a recovered middle really sits between the given prefix and suffix |
| Email.BetweenOf | streamlit_app.py:43-52 | the middle of `prefix + m + suffix` is recovered as `m` |
| Email.ComposedMessage | streamlit_app.py:42-53 | the subject and the plain-text body name the key; the `To` header is `'; '.join` of the recipients, reads back as them when no address holds a `;`, and is the recipient when there is one; `From` is the fixed placeholder; the one attachment is the workbook, base64, of the spreadsheet media type, with file name `key + ".xlsx"` |
| Email.Compose | streamlit_app.py:42-53 | the message built for one group has two parts, the second carrying the group's workbook as its payload under the file name `key + ".xlsx"` |
| Email.MimeMultipart.constructor | streamlit_app.py:42 | `MIMEMultipart()` starts with no headers and no parts |
| Email.MimeMultipart.SetItem | streamlit_app.py:43-45 | `msg[name] = value` appends a header and leaves the parts alone |
| Email.MimeMultipart.Attach | streamlit_app.py:46-53 | `msg.attach(part)` appends a part and leaves the headers alone |
| Email.ComposeMessage | streamlit_app.py:42-53 | the statements that build `msg` leave exactly the message `Compose` describes |
| Archive.Artifact | streamlit_app.py:24-61 | the member one iteration writes (line 24 in ZIP mode, line 61 in Email mode) is named after the group's key plus the mode's suffix and holds that iteration's data |
| Archive.ArtifactData | streamlit_app.py:18-24 | in ZIP mode the data is the group's workbook; in Email mode it is the flattened message composed from the group's key, its workbook and the recipients (lines 36-61) |
| Archive.Entries | streamlit_app.py:17-24 | one member per group, in loop order, each the group's artifact |
| Archive.ArchiveOf | streamlit_app.py:16-25 | the archive both loops write has one member per group of `groupby`, in group order, each that group's artifact |
| Archive.Lookup | streamlit_app.py:24 | reading a name finds nothing exactly when no member has that name |
| Archive.LookupFinds | streamlit_app.py:24 | in an archive with distinct names every member is found by its name |
| Archive.SuffixInjective | streamlit_app.py:24 | distinct keys give distinct member names |
| Archive.ArchiveEntryPerKey | streamlit_app.py:16-24 | the archive has exactly one member per distinct key value (none for an empty table) and no two members share a name |
| Archive.ArchiveEntryOfKey | streamlit_app.py:17-24 | the member named after key `k` holds the artifact of exactly the rows with key `k` |
| Archive.ArchiveHasNoOtherEntry | streamlit_app.py:17-24 | no member has a name other than some key plus the mode's suffix |
| Archive.SheetEntryOfKey | streamlit_app.py:17-24 | in ZIP mode `k + ".xlsx"` holds the workbook of exactly the rows with key `k` |
| Archive.EmailEntryOfKey | streamlit_app.py:34-61 | in Email mode `k + ".eml"` holds the flattened message whose subject and body name `k`, whose attachment is named `k + ".xlsx"` and is the workbook of exactly the rows with key `k` |
| Archive.RegionExample | streamlit_app.py:17-24 | the East/West table gives the members `East.xlsx` (two rows) and `West.xlsx` (one row) |
| Archive.ZipArchive.constructor | streamlit_app.py:14-16 | a new archive has no members |
| Archive.ZipArchive.WriteStr | streamlit_app.py:24 | `writestr` appends one member with the given name and contents |
| Archive.SplitExcelAndZip | streamlit_app.py:13-27 | the loop leaves a fresh archive whose members are exactly `ArchiveOf(rows, SheetOnly, libs)` |
| Archive.CreateOutlookEmails | streamlit_app.py:30-64 | the loop leaves a fresh archive whose members are exactly `ArchiveOf(rows, SheetAsEmail(recipients), libs)` |
| App.Expected | streamlit_app.py:80-105 | an error exactly in Email mode with a blank address box, and then the fixed message; otherwise a `application/zip` download named `suppliers_files.zip` (ZIP) or `email_files.zip` (Email) with one member per distinct key and distinct member names |
| App.ZipIgnoresRecipients | streamlit_app.py:85-93 | ZIP mode's result does not depend on the address box |
| App.ZipUsesSheets | streamlit_app.py:85-93 | ZIP mode always offers a download, whose members are the archive of one workbook per group |
| App.EmailUsesParsedRecipients | streamlit_app.py:94-103 | a successful Email download has a non-empty parsed list and its members are the messages for exactly those recipients |
| App.Process | streamlit_app.py:84-105 | pressing "Process" shows an error exactly when `Expected` is an error, with its message, and otherwise offers a fresh archive whose members, file name and media type are those of `Expected` |

## Left out

- Spreadsheet reading and writing (pandas, openpyxl): the uploaded file is
  already a sequence of rows, and writing a group is the parameter
  `Libraries.toExcel`. Its round trip is the library's promise, not the
  application's.
- The ZIP container format and DEFLATE compression: the archive is its
  sequence of named members, not compressed bytes.
- MIME serialisation and header folding: flattening is the parameter
  `Libraries.flatten`. The model keeps the headers and parts the code
  sets.
- The base64 text of the attachment: `encoders.encode_base64` replaces the
  payload with its base64 encoding and adds the `Content-Transfer-Encoding`
  header. The model keeps the raw workbook as the payload and records
  `base64` as the part's transfer encoding.
  The `Content-Type`/`MIME-Version` headers and the boundary that
  `MIMEMultipart` adds itself are left out. So is `MIMEText`'s charset.
- Email.GetHeader: compares header names exactly. Python compares them
  without regard to case. The model only reads the names it set itself.
- The order of groups: pandas sorts the keys, and the model lists them in
  order of first occurrence. So the equality contracts of `Entries`,
  `ArchiveOf`, `SplitExcelAndZip`, `CreateOutlookEmails` and `Process` fix
  the model's first-occurrence order of the members, not the program's
  sorted order. The order-free lemmas carry over to the program:
  `ArchiveEntryPerKey`, `ArchiveEntryOfKey`, `ArchiveHasNoOtherEntry`,
  `SheetEntryOfKey`, `EmailEntryOfKey`, `GroupByIsPermutation` and
  `RowInExactlyOneGroup`. In the East/West example both orders agree.
- Keys other than strings: NaN keys that `groupby` drops, and the `str()`
  of numbers or dates in file names. So two keys that print the same
  (`1` and `"1"`) cannot collide here. If names did collide, `writestr`
  would add a second member of the same name, and `WriteStr` appends
  likewise. Reading such a name finds the last member, as `Lookup` does.
- A row is its key plus its cells as strings. The column layout and cell
  types of the table are not modelled.
- The Streamlit calls: title, uploader, preview, select box, radio button,
  text area, button, download button and error display. `Process` is the
  branch the button guards, and its result is what the page shows.
- The clock and randomness inside the libraries: openpyxl stamps each
  workbook with the current time, `writestr` stamps each member with the
  local time, and `BytesGenerator` picks a random MIME boundary. So two
  presses of "Process" do not give the same bytes. A `Libraries` value
  stands for the library behaviour during one run, and the equalities the
  model proves hold under one such value.
- App.ZipIgnoresRecipients: compares two results under the same `libs`, so
  it states that ZIP mode's members are computed without the address box,
  not that two downloads are byte for byte identical.
- `BytesIO` and its `seek(0)` calls: they only move a read position.
- Failures raised inside pandas, openpyxl, `zipfile` or the `email`
  package: the code does not catch them, and the model's library functions
  are total. Examples are an unwritable cell value, and a key holding a
  line break followed by `Name:`. Such a key goes into the subject, and
  flattening the message then raises while folding that header.
- App.Expected: succeeds in Email mode for every key, including a key
  whose subject header makes flattening raise; the program stops with an
  exception there and offers no download.
- A key column missing from the table: the column is picked from the
  table's own columns, so it cannot be missing.
