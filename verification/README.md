# Exam admin portal — a Dafny model

The admin portal is a single Streamlit page. On it an exam administrator
assembles an exam package:

- an exam name and a cover image;
- a login type: either "Login + Password", backed by an uploaded credentials
  sheet, or "User Input Model", backed by a list of typed input fields;
- an optional sheet of exam questions.

The page checks what it is given and writes a metadata record that names the
exam, the login type, the cover image and the files it produced.

This project models the logic of that page, which lives in
`admin_portal.py`, as pure Dafny functions over immutable data. It proves
what the page guarantees about its results. The modules follow the page's
sections:

| module | what it models |
|---|---|
| `Seqs` | `list.index`, `list.remove`, list comprehensions that drop chosen columns, repeat-freedom |
| `Text` | `str.strip()`, `str.lower()`, `str.split('\n')`, `'\n'.join` |
| `Frame` | a data frame: header and rows of cells; `rename(columns=…)`; the missing-column guard; `df[names]` |
| `Clock` | `%H:%M` and `%I:%M %p` times, with parsing and formatting |
| `Credentials` | the login column and its uniqueness check; the password column; the column-renaming loop; the final selection |
| `UserInputs` | the field-definition loop, its range errors and the records it keeps |
| `Roles` | the five role select boxes, the relabelling to canonical names and the question table |
| `Questions` | the per-row check of the questions sheet: display rows, image references, warnings, the `valid` flag |
| `Metadata` | the metadata dictionary and the two file names it may carry |

The page's widgets become inputs:

- the credentials picks and rename entries (`CredentialPicks`, `RenameEntry`);
- the user-input rows (`FieldEntry`);
- the five role picks (`RolePicks`).

Each input is constrained only to the values its select box can return
(`CredentialsOffered`, `Offered`). Whether a string names a readable image
file is the parameter `isImage`. The random file names are parameters of
`Metadata.CredentialsFile` and `Metadata.QuestionsFile`.

Sheets are `Frame.Table`s. A cell is either missing (`NA`, pandas NaN) or
the text of its value.

Three behaviours of the code are modelled exactly as written:

- **Choice questions count raw pieces.** The code counts the pieces of
  `options.split('\n')`, so empty pieces count too. An empty options cell
  gives one piece, `[""]`, and so is invalid. A rule that counts only
  non-empty options reaches the same verdict on every row, because the
  options are trimmed first (`Questions.PieceRuleMatchesNonEmptyRule`). Only
  the display differs: empty lines inside the options are shown as options.
- **Only some rows are checked.** Options are checked for blankness only
  for the answer types "number" and "text". Number fields are recorded
  without a range check.
- **A skipped field does not stop the loop.** A date or time field whose
  range is inverted is not recorded, but the loop continues. A time field
  with no format chosen is skipped silently. The blank row that ends the
  loop can still show its own range error.

## Model

| member | source | states |
|---|---|---|
| `Seqs.RemoveFirst` | admin_portal.py:210-223 | `list.remove` shortens the list of columns still on offer by exactly one |
| `Seqs.RemoveFirstDistinct` | admin_portal.py:210-223 | removing a pick from a repeat-free header list removes exactly that column, keeps all the others and keeps the list repeat-free |
| `Seqs.Exclude` | admin_portal.py:72-76 | the filtering comprehensions keep exactly the columns that are not excluded, and never grow the list |
| `Seqs.ExcludeAppend` | admin_portal.py:72-76 | the filtering comprehensions keep the original order: filtering a concatenation concatenates the filtered parts, and one element stays exactly when it is not excluded |
| `Seqs.IndexOf` | admin_portal.py:99 | a name is looked up at its first occurrence in the header, and no earlier column bears it |
| `Text.Strip` | admin_portal.py:246-248 | the stripped string is the part of the input between leading and trailing white space; it neither starts nor ends with white space; it is empty exactly when the input is all white space |
| `Text.StripSlice` | admin_portal.py:246-248 | the piece between the leading and trailing white space neither starts nor ends with white space, and is empty exactly when the whole string is white space |
| `Text.StripIdempotent` | admin_portal.py:246-248 | stripping twice strips nothing more |
| `Text.Lower` | admin_portal.py:246 | lower-casing maps each character to its lower-case form and keeps the length |
| `Text.LowerIdempotent` | admin_portal.py:246 | a lower-cased answer type contains no ASCII capital, and lower-casing it again changes nothing |
| `Text.Split` | admin_portal.py:257 | splitting on line breaks gives one more piece than there are line breaks, and no piece contains a line break |
| `Text.JoinSplit` | admin_portal.py:150 | joining the split list items with line breaks gives back the typed text |
| `Text.SplitJoin` | admin_portal.py:257 | splitting a join of line-break-free pieces gives back those pieces |
| `Frame.Missing` | admin_portal.py:95 | the missing-column list holds exactly the selected names absent from the header, and it is empty exactly when every selected name is present |
| `Frame.ProjectCells` | admin_portal.py:99 | on a sheet whose headers do not repeat, `df[names]` has the selected names as its header and keeps every row; its cell `(i, k)` is the cell of row `i` at the header position holding `names[k]` |
| `Clock.Hour24` | admin_portal.py:143-145 | `%I` with `%p` gives a 24-hour hour: PM exactly from hour 12 on, and the same hour modulo 12, so 12 AM is hour 0 |
| `Clock.MidnightAndNoon` | admin_portal.py:143-145 | 12:00 AM is midnight, 12:00 PM is noon, and the other AM hours are their own number |
| `Clock.FromMinutesOfMinutes` | admin_portal.py:139-145 | reading a 12-hour clock as a time of day and back gives the same reading, so different readings are different times of day |
| `Clock.MinutesOfFromMinutes` | admin_portal.py:184-185 | every time of day has a 12-hour reading |
| `Clock.LaterOrder` | admin_portal.py:145 | every AM reading is earlier than every PM reading, 12 AM is the earliest AM hour, and with equal hour and period the minutes decide |
| `Clock.Pad2` | admin_portal.py:139 | `{n:02}` writes two decimal digits whose value is `n` |
| `Clock.Parse12` | admin_portal.py:143-144 | every string the model's parser accepts (the spellings the 12-hour select box offers) is eight characters long, like every offered time; `Clock.FormatParse12` says it is written back unchanged |
| `Clock.ParseFormat12` | admin_portal.py:184-185 | parsing a reading written with `%I:%M %p` gives back the reading |
| `Clock.FormatParse12` | admin_portal.py:139-144 | every string the model's parser accepts (the spellings the select box offers) is written back unchanged, so the stored bounds are the strings chosen |
| `Clock.ParseFormat24` | admin_portal.py:176-177 | parsing a time of day written with `%H:%M` gives back the time, so different times are stored differently |
| `Credentials.LoginUniqueIff` | admin_portal.py:66-70 | the login column passes the `nunique` check exactly when no value is missing and no value occurs twice |
| `Credentials.PasswordChoices` | admin_portal.py:72-73 | the password box offers blank and every column except the login column |
| `Credentials.RenameCandidates` | admin_portal.py:76 | the rename loop starts from exactly the columns other than login and password |
| `Credentials.CollectRenamesPrefix` | admin_portal.py:77-89 | the accepted renames are a prefix of the entries; none is blank; each names a column still on offer; there are no more of them than there are columns |
| `Credentials.CollectRenamesComplete` | admin_portal.py:77-89 | the loop accepts every entry before the first blank one, stopping early only when the columns on offer run out |
| `Credentials.CollectRenamesDistinct` | admin_portal.py:77-89 | with a repeat-free header the loop never accepts the same column twice |
| `Credentials.NothingAfterStop` | admin_portal.py:88-89 | the loop's result depends only on the entries before the first blank one |
| `Credentials.AssignPresent` | admin_portal.py:85 | assigning to a key already in the dictionary replaces that key's entry in place and changes nothing else |
| `Credentials.AssignFresh` | admin_portal.py:85 | assigning a new key appends it last, in insertion order |
| `Credentials.RenameDictDistinct` | admin_portal.py:85 | with keys that never repeat, the dictionary keeps every accepted rename, in order |
| `Credentials.ToMapDistinct` | admin_portal.py:91-92 | the rename mapping has exactly the dictionary's keys, each mapped to its own new name |
| `Credentials.SetupReached` | admin_portal.py:64-92 | at the rename step, login and password are distinct header columns, and the renamed columns are distinct header columns other than those two |
| `Credentials.SelectedPresent` | admin_portal.py:91-95 | after renaming, the login, the password and every new name are in the header |
| `Credentials.SelectNeverMissing` | admin_portal.py:91-97 | at the rename step, the missing-column error cannot occur |
| `Credentials.CredentialsNeverMissing` | admin_portal.py:62-97 | with a repeat-free header, the credentials section never reports missing columns |
| `Credentials.SelectedPositions` | admin_portal.py:91-99 | with fresh, pairwise-different new names, each selected name sits in the renamed header exactly where its original column was |
| `Credentials.SelectProjection` | admin_portal.py:91-99 | with fresh, pairwise-different new names, the selection is the original sheet projected onto login, password and the renamed columns, under the selected names |
| `Credentials.CredentialsProjection` | admin_portal.py:62-99 | the credentials table holds the picked columns of the uploaded sheet, every row kept, under the login and password names and the new names |
| `UserInputs.AcceptReadsBack` | admin_portal.py:157-192 | a recorded field keeps its name and its settings; the stored time strings parse back to the chosen bounds; the stored list items join back to the typed text |
| `UserInputs.SkippedIff` | admin_portal.py:157-192 | a filled-in row records nothing exactly when its range is inverted, its time format is blank, or its list text is empty |
| `UserInputs.Added` | admin_portal.py:157-192 | a row adds at most one record |
| `UserInputs.CollectInputs` | admin_portal.py:109-195 | the loop as the page runs it records the fields and shows the range errors the loop definition gives |
| `UserInputs.Reached` | admin_portal.py:157-195 | the loop passes the rows before the first row with a blank name or type, and stops there |
| `UserInputs.CollectAppend` | admin_portal.py:109-195 | rows that are all filled in neither stop the loop nor change how the rows after them are handled or numbered |
| `UserInputs.CollectNoStop` | admin_portal.py:109-195 | over filled-in rows, the loop records every row's record and every range error, in row order |
| `UserInputs.CollectFields` | admin_portal.py:157-195 | the recorded fields are the records of the rows before the first blank row, in order |
| `UserInputs.CollectErrors` | admin_portal.py:126-146 | the range errors are those of the rows rendered, the blank row that ends the loop included, in row order |
| `UserInputs.IgnoredAfterStop` | admin_portal.py:194-195 | rows after a blank row change neither the records nor the errors |
| `UserInputs.AcceptedOrdered` | admin_portal.py:162-185 | every record a row adds has its minimum at or before its maximum |
| `UserInputs.FieldsOrdered` | admin_portal.py:162-185 | all records of a run of rows have their ranges in order |
| `UserInputs.CollectOrdered` | admin_portal.py:109-195 | whatever is entered, every recorded date or time field has its minimum at or before its maximum |
| `Roles.RemainingContents` | admin_portal.py:207-225 | each select box offers the header columns no earlier box took, still without repeats |
| `Roles.PicksDistinct` | admin_portal.py:209-225 | every non-blank pick is a header column that no other box picked |
| `Roles.RoleRenameDistinct` | admin_portal.py:228-234 | with five distinct picks, the rename mapping sends each pick to its own canonical name and touches no other column |
| `Roles.ReadRows` | admin_portal.py:245-248 | the row check reads one question row per sheet row |
| `Roles.ConfigureNeedsAllRoles` | admin_portal.py:227 | the rows are checked only when all five roles are chosen |
| `Roles.CanonicalDistinct` | admin_portal.py:236 | the five canonical names differ from one another |
| `Roles.RenamedPosition` | admin_portal.py:228-234 | after renaming, a canonical name is found where its picked column was |
| `Roles.CanonicalPresent` | admin_portal.py:228-239 | renaming five distinct header columns leaves no canonical name missing |
| `Roles.QuestionsNeverMissing` | admin_portal.py:236-239 | with a header pandas produces, the questions section never reports missing columns |
| `Roles.PickedRows` | admin_portal.py:245-248 | reading the sheet through the picked columns gives one row per sheet row |
| `Roles.PickedRowsColumns` | admin_portal.py:245-248 | on a sheet whose headers do not repeat, each cell of question row `i` is the sheet's cell in row `i` at the header position of the column picked for that role |
| `Roles.RenamedPositions` | admin_portal.py:228-234 | after relabelling, every canonical name is found where its picked column was |
| `Roles.RenamedRows` | admin_portal.py:228-248 | the rows the row check sees are the sheet's rows read through the picked columns |
| `Roles.RenamedTable` | admin_portal.py:228-236 | the five-column table is the sheet projected onto the picked columns in role order, under the canonical names |
| `Roles.QuestionTableFaithful` | admin_portal.py:227-298 | the rows are checked; the table exists exactly when the sheet is valid; it is the picked columns under the canonical names, untouched by the option expansion |
| `Questions.ExpandOptionsShape` | admin_portal.py:262-276 | the option expansion has one row per option, numbered from 1 in split order; the question's own fields are on the first row only and blank on the rest |
| `Questions.ImagePathsMembers` | admin_portal.py:262-265 | the options recorded as images are exactly the options that name image files |
| `Questions.ChoiceRow` | admin_portal.py:256-276 | a choice question with fewer than two pieces is invalid and shows nothing; with two or more it is valid and shows its options row by row |
| `Questions.OtherRow` | admin_portal.py:277-288 | any other answer type shows one unnumbered row with its trimmed options; it is invalid exactly for "number" or "text" with non-blank options |
| `Questions.RowImages` | admin_portal.py:250-265 | a row records its question if that names an image (first), and for a shown choice question every option that names one; nothing else |
| `Questions.OutcomesAppend` | admin_portal.py:245 | processing two parts of a sheet is processing the whole sheet |
| `Questions.CheckQuestions` | admin_portal.py:241-288 | the loop as the page runs it, with four accumulators, gives the flag, display, images and warnings of the row-by-row definition |
| `Questions.AllValidIff` | admin_portal.py:241-280 | the `valid` flag survives exactly when every row is valid, and exactly when no warning is raised |
| `Questions.BatchValidIffAllRowsValid` | admin_portal.py:241-290 | the sheet is valid exactly when every row is, and exactly when no warning was raised |
| `Questions.WarningsSound` | admin_portal.py:259-280 | every warning names a row in range and that row's problem |
| `Questions.WarningsComplete` | admin_portal.py:259-280 | every invalid row has its warning |
| `Questions.WarningsOrdered` | admin_portal.py:245-280 | warnings come in strictly increasing row order, at most one per row |
| `Questions.BatchWarningsSound` | admin_portal.py:245-280 | every warning on the sheet names a sheet row and the problem that row has |
| `Questions.BatchWarningsComplete` | admin_portal.py:245-280 | every invalid sheet row raises a warning with its 1-based position and its problem |
| `Questions.BatchWarningsOrdered` | admin_portal.py:245-280 | the sheet's warnings are in strictly increasing row order |
| `Questions.BatchAppend` | admin_portal.py:241-288 | an invalid row neither stops nor changes the processing of later rows, whose warnings keep their sheet positions |
| `Questions.BatchImages` | admin_portal.py:243-265 | a string is recorded as an image reference exactly when some row records it |
| `Questions.ExpansionKeepsOptions` | admin_portal.py:257-276 | the displayed options of a valid choice question, joined with line breaks, give back its trimmed options |
| `Questions.PieceRuleMatchesNonEmptyRule` | admin_portal.py:247-258 | counting raw pieces and counting non-empty pieces agree on whether there are at least two options; the first and last pieces are never empty |
| `Metadata.CredentialsFile` | admin_portal.py:99-101 | a credentials file name is given exactly when the credentials columns were selected |
| `Metadata.QuestionsFile` | admin_portal.py:290-298 | a questions file name, when given, is the generated one |
| `Metadata.CredentialsFileIff` | admin_portal.py:62-101 | with a repeat-free header, the credentials file exists exactly when a login column with distinct values and a password column are chosen |
| `Metadata.QuestionsFileIff` | admin_portal.py:227-298 | once the five roles relabel the sheet, the questions file exists exactly when every row read through the picked columns passes its check |
| `Metadata.RecordExists` | admin_portal.py:300-315 | a record is assembled exactly when the image, the name and the login type are all given, and its keys are distinct |
| `Metadata.RecordKeys` | admin_portal.py:303-315 | the three common keys are always present; the credentials key exactly under "Login + Password"; the inputs key exactly under "User Input Model"; the questions key exactly when a questions file was produced |
| `Metadata.RecordValues` | admin_portal.py:303-315 | each key holds its value: the name, the login-type label, the image name, the credentials file name or null, the input fields, the questions file name |

## Left out

- Rendering: the Streamlit widgets and their rendering are left out, including `st.write`, the HTML list preview, the HTML display table and the error and warning banners. The banners become lists of errors and warnings.
- Reruns: Streamlit re-runs the script on every interaction; the model is one pass over the widget values.
- Sheet reading: reading sheets with pandas (`read_csv`, `read_excel`) is left out; a sheet is given as a header and rows of text cells.
- Images: `is_image_file` opens a file with PIL; it becomes the parameter `isImage`.
- Thumbnails: `image_to_base64` is left out; a thumbnail is represented by its file path.
- File names: `generate_random_filename` draws random names; they are parameters.
- Output: `to_csv`, `json.dumps`, the zip archive and the download button (lines 100, 297 and 317-337) are left out. The model stops at the tables and the record that would be written.
- Dates: a date is a day number; `isoformat` is not modelled.
- Empty dates and times: the `date_input` and `time_input` widgets always return a value, so the `None` branches at lines 167-168 and 176-177 are unreachable and left out.
- Text.Lower: lower-cases ASCII letters only; Python lower-cases all of Unicode. The two agree on the answer-type words compared at line 256.
- Frame.Project: looks a duplicated column name up at its first occurrence, where pandas would return every copy. Headers read by pandas are repeat-free, which is what the projection theorems assume.
- Credentials.CredentialsProjection: assumes new names that are fresh and pairwise different (`FreshRenames`); otherwise the renamed frame would have duplicate columns.
- Roles.QuestionTableFaithful: assumes that no column outside the five picks already bears a canonical name (`Relabelling`); otherwise the relabelled frame would have duplicate columns.
- Roles.ReadRows: when a column outside the five picks already bears a canonical name, the relabelled frame has that name twice, and the model reads the first copy of it. What the page does depends on the name. A doubled "Options" or "Questions" makes `row["Options"]` or `row["Questions"]` a Series; `pd.notna` of a Series in a conditional raises `ValueError` at lines 247-248 on any sheet with a row, where the model reports a checked sheet. A doubled "Answer Type" makes line 246 read the text of a Series, which matches none of the types tested at lines 256 and 278, so the page accepts every row; the model reads the first copy and may reject a row the page accepts. A doubled "Topic/Subject" or "Group" leaves the verdict unchanged, but `df[selected_columns]` at line 296 keeps both copies, so the page writes a six-column table where the model has five. In each case `Roles.ConfigureQuestions` can differ from the page, and no outcome models the exception.
- Clock.Parse12: accepts only the strings the 12-hour select box offers; `strptime` would also accept other spellings, which the select box never produces.
- Metadata.QuestionsFile: states only that a given name is the generated one. When the name exists is stated by `Metadata.QuestionsFileIff`, under its relabelling assumption.
