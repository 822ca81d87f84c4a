# Patient Management System: the verified core

A Dafny model of the sequential logic inside the Django patient-management
application PM_App, with proofs of what that logic promises:

- **The patient table of the dashboard** (`static/js/dash.js`). The
  module-level pagination state is `currentPage`, `entriesPerPage` and
  `filteredData`. The handlers that change it are search, page size,
  previous/next, a page-number click, table load and table initialisation.
  The views derived from it are the visible rows, the page buttons and the
  "Showing start to end of total" figures. The model also covers the in-place
  upsert of a saved patient's row, the removal of a deleted patient's row,
  and `calculateAge`. `DashTable.TableView` is a class whose fields are that
  state. `Paging` holds the page arithmetic it is proved against.
- **Patient IDs** (`models.py`). `Patient.save` gives an empty `patient_id`
  the value `"PT-2026"` followed by `zfill(4)` of one past the largest
  primary key. The model covers the format, its read-back and its
  injectivity.
- **The PDF exporter's text helpers** (`export_views.py`). These are the
  photo-placeholder initials, the full-name normalisation, the greedy word
  wrap of `draw_text_area` (over any width function) and the `wrap_col`
  preprocessing of `draw_info_table`.
- **Request handlers with rules of their own** (`views.py`). These are:
  - the partial profile update of `dashboard_view`;
  - the `update_or_create` upsert of `add_patient`, over a map from
    `patient_id` to row;
  - the `next_id` offered on GET;
  - the image defaults of `get_patients_json`;
  - the null-to-empty defaults of `verify_patient_api`.

Modules:

| file | contents |
|---|---|
| `Wrappers.dfy` | `Option`, `Result` |
| `Text.dfy` | Python's `isspace`/`split`/`strip`/`replace('  ', ' ')`/`join`/`upper`, JavaScript's `toLowerCase`/`includes` |
| `Models.dfy` | `PatientData`, the ID format, `Patient.save` |
| `Paging.dfy` | page count, page slices, info figures, button flags |
| `DashTable.dfy` | rows, filter, and the class `TableView` with every table handler |
| `Age.dfy` | `calculateAge` |
| `PdfExport.dfy` | initials, full name, word wrap, `wrap_col` |
| `Views.dfy` | the `views.py` handlers |

A table row is a value that carries its DOM identity (`node`). Visibility is
the set of nodes whose `style.display` is `'none'`. This is how an in-place
update keeps a row's element and its visibility.

Some things become parameters:

- today's date;
- `stringWidth`;
- `make_password`;
- `build_absolute_uri`;
- the storage `.url`;
- the primary key of the last patient.

## Model

| member | source | states |
|---|---|---|
| Models.Decimal | PatientManagement/PM_App/models.py:40 | `str(n)` is a non-empty string of decimal digits without a leading zero |
| Models.ZFill | PatientManagement/PM_App/models.py:40 | `zfill(w)`: the length is the larger of the old length and w; a text already w long is kept; otherwise it ends with the text (after a sign kept in front) and every added character is `0` |
| Models.NextNumber | PatientManagement/PM_App/models.py:38-39 | the next number is at least 1 and exceeds the last patient's primary key |
| Models.ZFillDigits | PatientManagement/PM_App/models.py:40 | `zfill(w)` pads with leading zeros to at least `w` characters and never truncates |
| Models.FormatPatientId | PatientManagement/PM_App/models.py:40 | the generated ID starts with `PT-2026` and is at least 11 characters long; its digits are stated by Models.PatientIdNumber |
| Models.DecimalValue | PatientManagement/PM_App/models.py:40 | the decimal digits of `n` read back as `n` |
| Models.LeadingZerosValue | PatientManagement/PM_App/models.py:40 | leading zeros do not change the value the digits stand for |
| Models.PatientIdNumber | PatientManagement/PM_App/models.py:40 | an ID is `PT-2026` followed by at least four digits that read back as its number |
| Models.FormatPatientIdInjective | PatientManagement/PM_App/models.py:38-40 | distinct numbers give distinct IDs |
| Models.PatientIdLength | PatientManagement/PM_App/models.py:40 | numbers below 10000 give IDs of exactly 11 characters; larger ones are written unpadded |
| Models.NextIdIsNew | PatientManagement/PM_App/models.py:38-40 | the generated ID differs from the ID of every existing primary key, since the next number exceeds the largest |
| Models.Patient.Save | PatientManagement/PM_App/models.py:36-41 | an empty `patient_id` becomes `PT-2026` + `zfill(4)` of the next number; a non-empty one and all other columns are kept |
| Paging.TotalPages | PatientManagement/PM_App/static/js/dash.js:653 | `Math.ceil(len / n)`: definition; its ceiling property is stated by Paging.TotalPagesCeil |
| Paging.Page | PatientManagement/PM_App/static/js/dash.js:642-644 | `slice(p*n, p*n + n)` holds at most n rows, the i-th of them row p*n + i of the list |
| Paging.ActiveMarks | PatientManagement/PM_App/static/js/dash.js:661-668 | one mark per button; no button other than the current page's is active, and the current page's button is active when it exists |
| Paging.ActiveMarksCount | PatientManagement/PM_App/static/js/dash.js:661-668 | exactly one button is active when the current page has a button, and none otherwise |
| Paging.TotalPagesCeil | PatientManagement/PM_App/static/js/dash.js:653 | `totalPages` is ceil(len / n): the fewest pages of n rows that hold every row |
| Paging.NoPagesIffEmpty | PatientManagement/PM_App/static/js/dash.js:653 | there are no pages exactly when the filtered list is empty |
| Paging.PageSize | PatientManagement/PM_App/static/js/dash.js:642-644 | a page holds at most n rows; every page before the last is full; an existing page is non-empty |
| Paging.PagesPrefix | PatientManagement/PM_App/static/js/dash.js:642-644 | the pages before page k, concatenated in order, are the prefix of the list up to where page k starts |
| Paging.PagesCover | PatientManagement/PM_App/static/js/dash.js:642-653 | pages 0 .. totalPages-1 concatenated in order give back the whole filtered list |
| Paging.PageLengthsTotal | PatientManagement/PM_App/static/js/dash.js:642-653 | the page lengths add up to the number of filtered rows |
| Paging.PagesDisjoint | PatientManagement/PM_App/static/js/dash.js:642-644 | an earlier page ends before a later page starts, so the pages are pairwise disjoint |
| Paging.PageOfIndex | PatientManagement/PM_App/static/js/dash.js:642-644 | row k is shown on page k / n at offset k % n, and that page exists |
| Paging.ShowingMatchesPage | PatientManagement/PM_App/static/js/dash.js:701-712 | on an existing page the figures are the 1-based first and last row shown; an empty list reads 0 to 0 |
| Paging.EmptyListDisablesNext | PatientManagement/PM_App/static/js/dash.js:682-693 | on an empty list the next button is disabled whatever the current page |
| Paging.StepsStayInRange | PatientManagement/PM_App/static/js/dash.js:715-730 | prev and next keep an existing page existing and move by at most one |
| Paging.StepsFollowButtons | PatientManagement/PM_App/static/js/dash.js:687-730 | next moves exactly when the next button is enabled, and prev exactly when the previous button is enabled |
| Paging.StalePageExample | PatientManagement/PM_App/static/js/dash.js:586-599 | 10 rows with page index 1 left over: the page is empty, no button is active, and the info reads 11 to 10 of 10 |
| Paging.TwentyFiveRowsExample | PatientManagement/PM_App/static/js/dash.js:642-653 | 25 rows in pages of 10 make three pages of 10, 10 and 5 rows |
| Text.Split | PatientManagement/PM_App/export_views.py:142 | `str.split()` yields non-empty words without blanks |
| Text.Join | PatientManagement/PM_App/export_views.py:257 | `' '.join(words)`: definition; splitting it back is stated by Text.SplitJoin, its ends by Text.JoinEnds and the missing double space by Text.JoinHasNoPair |
| Text.StripLeft | PatientManagement/PM_App/export_views.py:314 | `lstrip` drops an all-blank prefix and leaves a non-blank first character |
| Text.StripRight | PatientManagement/PM_App/export_views.py:314 | `rstrip` drops an all-blank suffix and leaves a non-blank last character |
| Text.SkipBlanks | PatientManagement/PM_App/export_views.py:314 | from a position, the first non-blank at or after it: everything skipped is blank |
| Text.TrimBlanks | PatientManagement/PM_App/export_views.py:314 | before a position, the end of the last non-blank: everything trimmed is blank |
| Text.Strip | PatientManagement/PM_App/export_views.py:314 | `strip()` leaves no blank at either end |
| Text.Lower | PatientManagement/PM_App/static/js/dash.js:603 | `toLowerCase` keeps the length, leaves no ASCII capital, turns each capital into the small letter at the same place in the alphabet and keeps every other character |
| Text.LowerIdempotent | PatientManagement/PM_App/static/js/dash.js:603 | lower-casing an already lower-cased text changes nothing |
| Text.LowerAppend | PatientManagement/PM_App/static/js/dash.js:603 | lower-casing distributes over concatenation |
| Text.Includes | PatientManagement/PM_App/static/js/dash.js:611 | `includes`: the empty term is always included, and an included term is no longer than the text; its meaning is stated by Text.IncludesIffOccurs |
| Text.IncludesInfix | PatientManagement/PM_App/static/js/dash.js:611 | a text includes every term that occurs in its middle |
| Text.IncludesIffOccurs | PatientManagement/PM_App/static/js/dash.js:611 | `includes(t)` holds exactly when t occurs at some position |
| Text.IncludesEmpty | PatientManagement/PM_App/static/js/dash.js:611 | every text includes the empty term |
| Text.SplitJoin | PatientManagement/PM_App/export_views.py:247-261 | splitting words joined by single spaces gives back the words |
| Text.SplitEmptyIffBlank | PatientManagement/PM_App/export_views.py:142 | `split()` is empty exactly when the text is blank |
| Text.CollapseWithoutPairs | PatientManagement/PM_App/export_views.py:314 | `replace('  ', ' ')` leaves a text without two adjacent spaces unchanged |
| Text.CollapseSpacePairs | PatientManagement/PM_App/export_views.py:314 | `replace('  ', ' ')` never lengthens the text; its laws are stated by Text.CollapseWithoutPairs, Text.CollapseAppend and Text.CollapseKeepsLast |
| Text.CollapseAppend | PatientManagement/PM_App/export_views.py:314 | `replace('  ', ' ')` works piecewise across a boundary not preceded by a space |
| Text.CollapseAppendPair | PatientManagement/PM_App/export_views.py:314 | the piecewise law of `replace` when the left part starts with a pair of spaces |
| Text.CollapseAppendOne | PatientManagement/PM_App/export_views.py:314 | the piecewise law of `replace` when the left part does not start with a pair of spaces |
| Text.JoinHasNoPair | PatientManagement/PM_App/export_views.py:257 | words joined by single spaces have no two adjacent spaces |
| Text.StripUnchanged | PatientManagement/PM_App/export_views.py:314 | `strip()` leaves a text with non-blank ends unchanged |
| DashTable.Filter | PatientManagement/PM_App/static/js/dash.js:609-612 | the kept rows are among the rows, match the term, and are no more than the rows |
| DashTable.Matches | PatientManagement/PM_App/static/js/dash.js:610-611 | the row test: the empty term matches every row, and a matched term is no longer than the row text |
| DashTable.ListingText | PatientManagement/PM_App/static/js/dash.js:92-108 | the text of a row loadPatientTable builds contains the patient's ID, so a lower-cased search for it matches |
| DashTable.SavedText | PatientManagement/PM_App/static/js/dash.js:1134-1149 | the text of a row the save handler builds contains the patient's ID, so a lower-cased search for it matches |
| DashTable.IdInRowText | PatientManagement/PM_App/static/js/dash.js:92-93 | the first cell of a row template occurs in the lower-cased row text |
| DashTable.SearchByIdKeepsRow | PatientManagement/PM_App/static/js/dash.js:601-612 | a search for a patient's ID, typed in any case, keeps every row built for that patient |
| DashTable.FilterAppend | PatientManagement/PM_App/static/js/dash.js:609-612 | filtering distributes over concatenation, so the original order is kept |
| DashTable.FilterMembership | PatientManagement/PM_App/static/js/dash.js:609-612 | a row is kept exactly when it is a row of the table whose lower-cased text includes the term |
| DashTable.FilterKeepsAll | PatientManagement/PM_App/static/js/dash.js:609-612 | when every row matches, the filter returns all of them in order |
| DashTable.EmptySearchKeepsAll | PatientManagement/PM_App/static/js/dash.js:601-612 | an empty search keeps every row, in order |
| DashTable.FilterNodes | PatientManagement/PM_App/static/js/dash.js:609-612 | the filtered rows are elements of the table |
| DashTable.DropNode | PatientManagement/PM_App/static/js/dash.js:51-54 | the rows left are exactly those whose element is not the removed one |
| DashTable.RemoveKeepsWithin | PatientManagement/PM_App/static/js/dash.js:51-54 | removing a row from both the table and filteredData keeps filteredData within the table, without that row |
| DashTable.DeleteLeavesStaleRow | PatientManagement/PM_App/static/js/dash.js:46-54 | after removing row k, the old rows (filteredData after initializeTable) are no longer within the table, and the total counts one row too many |
| DashTable.TableView.UpdatePaginationInfo | PatientManagement/PM_App/static/js/dash.js:701-713 | the start, end and total figures shown are those of the current state |
| DashTable.TableView.DisplayTablePage | PatientManagement/PM_App/static/js/dash.js:631-650 | every row is hidden except those of `filteredData.slice(p*n, p*n+n)`, and the info figures are updated |
| DashTable.TableView.UpdatePaginationButtons | PatientManagement/PM_App/static/js/dash.js:682-699 | prev is disabled iff on page 0; next is disabled iff `p >= totalPages-1`; only button p is active |
| DashTable.TableView.UpdatePagination | PatientManagement/PM_App/static/js/dash.js:652-680 | one button per page, exactly the current one active, and the prev/next flags follow |
| DashTable.TableView.Redraw | PatientManagement/PM_App/static/js/dash.js:597-598 | `updatePagination(); displayTablePage()` leaves the table drawn for its rows, filter, page and page size, which it does not change |
| DashTable.TableView.Repaint | PatientManagement/PM_App/static/js/dash.js:718-719 | `displayTablePage(); updatePaginationButtons()` shows the current page and its figures, sets prev/next and marks only the current button active, keeping the button count |
| DashTable.TableView.InitializeTable | PatientManagement/PM_App/static/js/dash.js:586-599 | filteredData becomes all rows and everything is drawn again, while currentPage is kept |
| DashTable.TableView.InitializeTableAtFirstPage | PatientManagement/PM_App/static/js/dash.js:586-599 | like initializeTable, but back to page 0, which exists whenever there is a row, showing 1 to the page's length |
| DashTable.TableView.SearchTable | PatientManagement/PM_App/static/js/dash.js:601-620 | filteredData is exactly the rows, in order, whose lower-cased text includes the lower-cased input; page 0; drawn again |
| DashTable.TableView.ChangeEntries | PatientManagement/PM_App/static/js/dash.js:622-629 | the new page size, page 0, drawn again, with the rows and filteredData unchanged |
| DashTable.TableView.PrevPage | PatientManagement/PM_App/static/js/dash.js:715-721 | one page back, or no change at all on page 0; a drawn state stays drawn |
| DashTable.TableView.NextPage | PatientManagement/PM_App/static/js/dash.js:723-730 | one page on, or no change at all on the last page or with no pages; a drawn state stays drawn |
| DashTable.TableView.ClickPage | PatientManagement/PM_App/static/js/dash.js:670-674 | currentPage becomes the clicked index, which exists when the buttons were drawn from the state |
| DashTable.TableView.LoadPatientTable | PatientManagement/PM_App/static/js/dash.js:68-118 | one fresh row per fetched patient, in order, with the listing's text; all rows are filtered; page 0; drawn |
| DashTable.TableView.FindRow | PatientManagement/PM_App/static/js/dash.js:1117 | the first row with the patient ID, or none when no row has it |
| DashTable.TableView.SavePatientRow | PatientManagement/PM_App/static/js/dash.js:1113-1184 | the row with the saved ID is rewritten in place, keeping its element; without one, exactly one displayed row is appended; nothing else changes |
| DashTable.TableView.RemovePatientRow | PatientManagement/PM_App/static/js/dash.js:46-54 | only the first row with that ID leaves the table; filteredData, the page and the drawing are left as they were |
| DashTable.TableView.RemovePatientRowAndRefresh | PatientManagement/PM_App/static/js/dash.js:51-54 | the row leaves the table and filteredData, the page is clamped to an existing one, and everything is drawn again |
| DashTable.TableView.RemoveAndForget | PatientManagement/PM_App/static/js/dash.js:51-54 | the row leaves the table and filteredData, and the current page exists unless the list is empty |
| DashTable.TableView.DropFromFilter | PatientManagement/PM_App/static/js/dash.js:51-54 | the removed row's element leaves filteredData, which stays within the table |
| Age.CalculateAge | PatientManagement/PM_App/static/js/dash.js:1268-1279 | the year difference, less one exactly when the birthday is still ahead this year; the whole years lived |
| Age.AgeIsUnique | PatientManagement/PM_App/static/js/dash.js:1268-1279 | no other count of years is reached by today without the next one being reached |
| Age.AgeSign | PatientManagement/PM_App/static/js/dash.js:1268-1279 | the age is non-negative exactly when the birthdate is not after today |
| Age.AgeMonotone | PatientManagement/PM_App/static/js/dash.js:1268-1279 | a later today never gives a smaller age |
| Age.AgeOnBirthday | PatientManagement/PM_App/static/js/dash.js:1268-1279 | the age goes up by one on the birthday and not the day before |
| PdfExport.FirstLetters | PatientManagement/PM_App/export_views.py:142 | one upper-cased first character per word, in order |
| PdfExport.Initials | PatientManagement/PM_App/export_views.py:142 | at most two characters: the upper-cased first characters of the first two words, in order |
| PdfExport.BlankNameHasNoInitials | PatientManagement/PM_App/export_views.py:142 | an empty or blank name has empty initials |
| PdfExport.InitialsOfWords | PatientManagement/PM_App/export_views.py:142 | the initials of words joined by spaces come from the first two of those words |
| PdfExport.InitialsOfTwoOrMore | PatientManagement/PM_App/export_views.py:142 | a name of two or more words has exactly two initials |
| PdfExport.Normalize | PatientManagement/PM_App/export_views.py:314 | `strip().replace('  ', ' ')` leaves no blank at either end |
| PdfExport.FullName | PatientManagement/PM_App/export_views.py:396 | the full name has no leading or trailing blank |
| PdfExport.RawName | PatientManagement/PM_App/export_views.py:396 | `f"{first} {middle or ''} {last}"` starts with the first name and a space, ends with a space and the last name, and is two characters longer than its parts |
| PdfExport.NormalizeJoin | PatientManagement/PM_App/export_views.py:314 | words already joined by single spaces come out unchanged |
| PdfExport.NormalizeClean | PatientManagement/PM_App/export_views.py:314 | on a text with non-blank ends only the replace has an effect |
| PdfExport.CollapseDoubleGap | PatientManagement/PM_App/export_views.py:314 | `"a  b"` becomes `"a b"` |
| PdfExport.NormalizeDoubleGap | PatientManagement/PM_App/export_views.py:314 | with an empty middle name, `"first  last"` becomes `"first last"` |
| PdfExport.FullNameOfWords | PatientManagement/PM_App/export_views.py:396 | for one-word name parts the full name is the present parts joined by single spaces |
| PdfExport.WrapText | PatientManagement/PM_App/export_views.py:246-261 | the lines' words in order are exactly `content.split()`; no line is empty; each fits or is a single word; each line is full, since the next word would not fit |
| PdfExport.WrapWord | PatientManagement/PM_App/export_views.py:251-258 | one word step keeps the emitted words plus the current line equal to the words seen, and keeps every line fitting and full |
| PdfExport.AppendLine | PatientManagement/PM_App/export_views.py:260-261 | flushing the current line adds exactly its words, and the lines stay well wrapped |
| PdfExport.LineWordsOfJoin | PatientManagement/PM_App/export_views.py:257 | the words of `' '.join(current_line)` are `current_line` |
| PdfExport.WellWrappedSnoc | PatientManagement/PM_App/export_views.py:256-261 | a fitting current line that did not fit after the last line keeps the lines well wrapped |
| PdfExport.HitsPositive | PatientManagement/PM_App/export_views.py:182-184 | a cell is wrapped exactly when some listed index names it, counting negative indices from the end |
| PdfExport.SingleColumnHits | PatientManagement/PM_App/export_views.py:182-184 | a single index c wraps cell c once in rows long enough to have it, and no other cell |
| PdfExport.WrapColumns | PatientManagement/PM_App/export_views.py:179-186 | `wrap_col` is read as a list, an int as the one-element list (PdfExport.Columns); no `wrap_col` leaves the data as it is; otherwise the row count, each row's length and the header are kept; exactly the listed cells below `len(row)` of body rows are wrapped; an index below `-len(row)` raises IndexError |
| PdfExport.WrapRow | PatientManagement/PM_App/export_views.py:181-185 | one row: a header row is copied unchanged; a body row has exactly the listed cells below `len(row)` wrapped, and an index below `-len(row)` raises IndexError |
| Views.User.UpdateProfile | PatientManagement/PM_App/views.py:41-48 | each field is overwritten only by a present, non-empty value (the password hashed); otherwise it is unchanged |
| Views.NextId | PatientManagement/PM_App/views.py:130-132 | `PT-2026` followed by digits that read back as one past the last primary key (or 1) |
| Views.AddPatient | PatientManagement/PM_App/views.py:86-102 | an upsert keyed by patient_id: an existing row is updated and keeps its primary key and, unless its stored ID is empty, its ID; an empty stored ID is replaced by NextId as Patient.save does; otherwise exactly one row is added, under the posted ID or NextId; an ID already taken raises IntegrityError; other rows are unchanged |
| Views.AddPatientCount | PatientManagement/PM_App/views.py:86-102 | an update keeps the number of patients, and a creation adds exactly one |
| Views.AddPatientKeepsLast | PatientManagement/PM_App/views.py:86-102 | the last primary key remains the largest after a save |
| Views.GeneratedIdsNeverCollide | PatientManagement/PM_App/views.py:86-102 | when every stored ID was generated, a save without a posted ID succeeds, and every stored ID is still generated |
| Views.DefaultImages | PatientManagement/PM_App/views.py:164-171 | same records in the same order, only the image changed: the absolute URI of a stored path, or exactly `/static/img/default.png` |
| Views.ImageUrl | PatientManagement/PM_App/views.py:167-170 | a record without a stored image gets exactly `/static/img/default.png`; the image is never empty when `build_absolute_uri` never returns the empty text |
| Views.VerifyPatient | PatientManagement/PM_App/views.py:56-78 | unknown ID gives 404; otherwise every stored value of the patient, with a null or empty middle name sent as `""` and no image sent as `""` |
| Views.VerifyAfterAdd | PatientManagement/PM_App/views.py:58-74 | a patient just saved is found under the returned ID with the saved names |

## Left out

- The DOM is left out: `innerHTML` templates beyond a row's text content, modals, notifications, animations, CSS classes other than `active`, `FileReader` previews and `window.location`. Visibility is the set of hidden row elements; the page buttons are their `active` marks.
- The early returns when `#patientTable` or `#pageNumbers` is absent are left out: the table and its controls are assumed to be on the page.
- `fetch` calls, CSRF lookup, JSON decoding and the error paths of the network calls are left out. Each handler is modelled on its success path, with the fetched data as a parameter.
- The add-patient handler reloads the table after saving. That is `DashTable.TableView.LoadPatientTable` with the fetched list, called separately.
- filteredData holds element references in JavaScript. The model holds row values, so a row rewritten in place keeps its old value inside filteredData; only the element identities are used for paging and visibility.
- DashTable.TableView.ChangeEntries: requires a positive page size. The entries select offers only positive values; `parseInt` of anything else (NaN or 0) is not modelled.
- `calculateAge` takes today and the birthdate as (year, month, day); `new Date()`, date-string parsing and time zones are not modelled, and neither is `formatDate`.
- Case mapping (`toLowerCase`, `upper()`) is modelled on ASCII letters only. Python's `upper()` of a character that becomes two characters is not modelled.
- Python's `isspace` is modelled on the characters it reports as blank; there is no Unicode normalisation.
- The reportlab layout is not modelled: coordinates, fonts, colours, `Table` and `drawOn`. Also left out are the floating-point `max_width`, the line cap `int(height/(4*mm))` and the `current_y` geometry; `stringWidth` is an arbitrary integer-valued function, and `max_width` is an integer.
- A `Paragraph` is an abstract wrapper around a cell, and `str()` of a cell is not modelled.
- The initials of a full name are not derived from the full-name construction as one statement; each part is proved separately (`PdfExport.FullNameOfWords`, `PdfExport.InitialsOfWords`).
- The export views' archive/patient lookups, the PDF responses and the `datetime.now()` footer are left out, as are float formatting of weight and height.
- The Django ORM is a map from `patient_id` to (primary key, columns). Also left out are `authenticate`, `login`, `logout` and `user.save()`.
- The form parsing of `request.POST` is not modelled: posted values arrive already converted, so the ValueError Django raises when an empty string is saved into a numeric column (`age`, `weight`, `height`) does not occur in the model.
- Views.AddPatient: when update_or_create updates a row whose stored ID is empty, the model writes the ID Patient.save generates into the table. Since Django 4.2, update_or_create saves only the fields named in `defaults`, which would leave the stored ID empty; that behaviour is not modelled.
- A new row's primary key is taken to be one past the largest (`NextNumber(last)`), which is how SQLite assigns rowids when no row was deleted; the database's actual key allocation is not modelled.
- `make_password`, `build_absolute_uri` and the storage's `.url` are function parameters.
- Views.DefaultImages: "every record has a non-empty image" is proved under the hypothesis that `build_absolute_uri` never returns the empty text.
- `add_patient`'s JSON response, the redirects, `record_complaint`, `list_patients` and the login/logout views are left out: glue with no rule of its own.
- The archive and export flows of `dash.js` are left out, including both `deleteArchived` definitions (lines 334 and 922, the later winning): network glue.
- `urls.py` and `serializers.py` are declarative configuration and are left out.

## Findings

| source | as written | input that shows it | evidently intended | confidence | as-written member | corrected member |
|---|---|---|---|---|---|---|
| PatientManagement/PM_App/static/js/dash.js:586-599 | `initializeTable` (called when the list view is shown, line 262) replaces `filteredData` without resetting `currentPage` | 11 rows in pages of 10; go to page 2; delete its only row; switch to the list view: 10 rows, `currentPage` 1, an empty page and "Showing 11 to 10 of 10" | go back to page 0 like `searchTable`, `changeEntries` and `loadPatientTable` | medium, not executed | DashTable.TableView.InitializeTable, Paging.StalePageExample | DashTable.TableView.InitializeTableAtFirstPage |
| PatientManagement/PM_App/static/js/dash.js:51-54 | `deletePatient` removes the `<tr>` but leaves it in `filteredData` and does not redraw | any shown row: after the delete, the total still counts it and the page has one row fewer than it should until the next reload | take the row out of `filteredData`, keep the page in range and redraw | medium, not executed | DashTable.TableView.RemovePatientRow, DashTable.DeleteLeavesStaleRow | DashTable.TableView.RemovePatientRowAndRefresh |
