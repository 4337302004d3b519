# Report-card grading, tables and batch rules, in Dafny

This project models the core of a school's report-card application. It covers:

- Grading: resolving a percentage to a grade band, resolving a skill score to a remark, totals and the 40 % pass rule.
- The tables a report card prints.
- Two older single-file generators (v5 and v7) with their merit CSV, word wrap and name capitalisation.
- Generated credentials and the plain-text password check.
- The class-teacher and principal dashboards' rules for saving marks and assembling a ZIP archive of report cards.
- The administrator's rules for accounts, class-teacher assignments, grade scales, imports and uploaded file names.

Every operation is a pure function or a small method over immutable values:

- A database table is a map or a sequence of rows.
- A query result is an input sequence.
- A row dictionary as the Python code sees it is a `map<string, Cell>`, where `Cell` is `None`, a number or a string. A missing key is a key absent from the map.
- Percentages are exact reals.
- The PDF library, the JPG conversion, file existence and the clock are parameters: a `render` function, a `convert` function returning `None` where it raises, a `readable` set of paths, and a `today` string.

Modules follow the source files:

| module | file | models |
|---|---|---|
| `PyValues`, `PyText` | — | Python semantics the code relies on: truthiness, `or`, `float()`, `int()`, `safe_float`, `strip`, `lower`/`upper`/`capitalize`, `split`, `splitlines`, `replace` (ASCII). |
| `Tables` | — | table cells as the PDF tables print them. |
| `GradeScale` | `pdf_generator.py` | `lookup_grade`, `lookup_remark`. |
| `Report` | `pdf_generator.py` | totals, status and tables of `create_report_pdf_bytes_v2`, and the adapter `create_report_card_bytes`. |
| `Merit` | v5 and v7 | first-covering-band search, the stable descending sort and grouping by subject. |
| `LegacyV5`, `LegacyV7` | `report_card_app_final_v5.py`, `report_card_app_final_v7.py` | the two single-file generators. |
| `Auth` | `auth.py` | username and password generation and `verify_password`. |
| `Batch` | shared by the two dashboards | archive entries, format gating and the batch outcome. |
| `ClassTeacher`, `Principal`, `Admin` | `modules/` | the dashboards. |

Notable behaviours of the code that the model keeps:

- **Gaps in a grade scale.** Bands `[50,100]` and `[0,49]` give `""` for 49.9, not "B" (`GradeScale.InclusiveBoundsAndGaps`).
- **Remark capitalisation.** The adapter's fixed skill remarks are upper-case ("BEGINNING"). v5's are title case ("Beginning").
- **Exceptions while rendering.** The dashboards do not catch an exception raised while rendering one student's report. It ends the whole batch before the archive is offered, and no success/failure count is kept. The one such exception the model derives is the NaN score below (`Batch.Outcome.Raised`). The JPG conversion can also fail, but that failure is swallowed.
- **NaN scores.** `pd.read_sql` turns a NULL score into NaN when the same column of the student's marks also holds a number. NaN is not `None`, so the generator treats the row as graded, and `int(nan)` raises (`Report.ReportRaisesIffMixed`).
- **The archive flag.** `has_files` is set after the PDF and JPG branches (modules/class_teacher.py:373-381), but it does not depend on them. So an archive is offered as soon as one student's PDF is non-empty, even when no entry was written for it (`Batch.EmptyArchiveOffered`).
- **The grade label.** The header draws a label with a digit run only when it has a suffix, so "Grade 10" is not drawn (`Report.RenderReport` uses `Report.GradePiecesAsWritten`; see Findings).

## Model

| member | source | states |
|---|---|---|
| PyValues.Trunc | pdf_generator.py:572 | `int()` of a float rounds toward zero: the result is within 1 of the value, on the zero side |
| PyValues.ParseFloat | report_card_app_final_v5.py:36-40 | `float()` accepts only a numeral shape (digits and points, an optional leading sign, at least one digit) once stripped; a leading minus gives a value at most 0 |
| PyValues.ParseFloatFixed | report_card_app_final_v5.py:36-40 | `float()` reads a decimal numeral with `k` fraction digits back as its value n / 10^k, and with a minus sign as the negated value |
| PyValues.SafeFloatReads | pdf_generator.py:81-85 | `safe_float` reads a fixed-decimal text as its value whatever the default, and gives the default for NULL and for text that is not a numeral |
| PyValues.ParseIntNatText | report_card_app_final_v5.py:32-35 | `int()` reads the decimal text of n back as n, and with a minus sign as -n |
| PyText.SplitLinesRoundTrip | pdf_generator.py:423 | for a comment whose only line breaks are `\n` and that does not end in one, joining the lines `splitlines` produced with newlines gives back the comment, so no text is lost before the line cap |
| PyText.SplitLinesJoinedBack | pdf_generator.py:423 | for any comment that does not end in a line break, joining the lines `splitlines` produced with newlines gives back the comment with each break (`\r\n` counting as one) written as a newline, so no text is lost before the line cap |
| PyText.NormalizeKeepsNewlines | pdf_generator.py:423 | a comment whose only breaks are `\n` is its own normal form, so for it the round trip gives back exactly the comment |
| PyText.SplitLines | pdf_generator.py:423 | `str.splitlines`: no line holds a line break (`\n`, `\r`, `\v`, `\f`, `\x1c`-`\x1e`, `\x85`, U+2028, U+2029), and the empty text has no lines |
| PyText.JoinLinesSplitBack | pdf_generator.py:423 | lines without breaks and with a non-empty last line, joined by `\n`, split back into exactly those lines |
| PyText.SplitAtBreak | pdf_generator.py:423 | a text, one break of any kind, and more text split into the first text followed by the lines of the rest |
| PyText.CrLfIsOneBreak | pdf_generator.py:423 | `\r\n` is one break: "a\r\nb" gives two lines |
| PyText.CarriageReturnBreaksLine | pdf_generator.py:423 | a lone `\r` breaks a line: "a\rb" gives two lines |
| PyText.BlankLineKept | pdf_generator.py:423 | an empty line between two breaks is kept: "a\n\nb" gives three lines |
| PyText.Underscored | modules/class_teacher.py:372 | replacing spaces with underscores keeps the length and every other character and leaves no space |
| GradeScale.LookupGrade | pdf_generator.py:91-104 | the label of the first band in list order whose inclusive `Min <= pct <= Max` holds; `""` when no band holds it (including the empty scale); any non-empty result is the label of some band that holds the percentage |
| GradeScale.BandReads | pdf_generator.py:98-101 | a band given as Min/Max/Grade is read back with those bounds, and with that label when it is non-empty |
| GradeScale.InclusiveBoundsAndGaps | pdf_generator.py:98-104 | both bounds are inclusive (50 → "A", 49 → "B"), and a percentage in the gap between two bands (49.9) gets no grade |
| GradeScale.ExactPass | pdf_generator.py:111-119 | the first pass finds nothing exactly when no row's integer Score equals the integer score; otherwise it finds the first such row's Remark |
| GradeScale.RangePass | pdf_generator.py:121-128 | the fallback pass finds the Remark of the first row whose range holds the score, and nothing when no range holds it |
| GradeScale.LookupRemark | pdf_generator.py:107-129 | an exact integer Score match wins over any range; ranges are tried only when no row matches exactly; `""` when both passes fail |
| Report.GradedOnly | pdf_generator.py:238-239 | keeps exactly the graded subjects, those with a TE or a CE score |
| Report.UngradedAddsNothing | pdf_generator.py:238-239 | inserting an ungraded subject anywhere changes neither total |
| Report.TotalsOverGradedOnly | pdf_generator.py:232-248 | the totals over all subjects equal the totals over the graded subjects alone |
| Report.ComputeTotals | pdf_generator.py:229-248 | the loop's scored and full totals are the sums over graded subjects, a missing TE or CE counting 0 |
| Report.OverallPct | pdf_generator.py:250 | 0 when the full-mark total is 0; otherwise the percentage times the full total equals 100 times the scored total |
| Report.Status | pdf_generator.py:251 | "PASSED" exactly when the percentage is at least 40, "FAILED" exactly when it is below |
| Report.PassesIffFortyPercent | pdf_generator.py:250-251 | with some full marks, a report passes exactly when the scored total is at least 40 % of the full total |
| Report.AcademicHeader | pdf_generator.py:259-262 | eight header cells, each the upper-cased title, holding no lower-case letter |
| Report.SubjectRow | pdf_generator.py:283-310 | an ungraded subject shows `-` in TE, CE, Scored, Full, Percentage and Grade; a graded one shows truncated scores, their sum, truncated full marks, the row percentage of those integers and the grade looked up for it; subject and remarks are always shown |
| Report.TotalRow | pdf_generator.py:325-337 | the TOTAL row shows the truncated scored and full totals and the overall percentage |
| Report.AcademicTable | pdf_generator.py:258-337 | header, then one row per subject in input order, then TOTAL: two more rows than subjects |
| Report.SumScaled | pdf_generator.py:271 | scaling every fraction by the content width scales their sum by it |
| Report.FractionsSumToOne | pdf_generator.py:269 | the academic column fractions sum to 1 |
| Report.ColumnWidths | pdf_generator.py:264-278 | the first column gains the extra width, the middle columns are their fraction of the width, and the last column absorbs any difference above the code's 0.0001 tolerance, so the widths sum to the content width within it |
| Report.AcademicWidthsExact | pdf_generator.py:269-278 | for the academic table, the subject column is 18 % + 5 mm, the remarks column 25 % − 5 mm, and the widths sum exactly to the content width |
| Report.SkillColumnWidths | pdf_generator.py:389-394 | the three skill-table columns span the same total width as the academic table |
| Report.SplitGradeLabel | pdf_generator.py:190-194 | a label without digits is not split; otherwise the number piece is a non-empty run of digits |
| Report.GradeTenDrawsNothing | pdf_generator.py:197-225 | as written, the label "Grade 10" splits into prefix and number but draws nothing |
| Report.GradePieces | pdf_generator.py:190-225 | the corrected label pieces: the whole label when it has no digits; otherwise the stripped prefix, then the bold number, then the `-` suffix only when there is one, so a label without a suffix draws exactly prefix and number; with a suffix, the pieces are exactly those the code draws |
| Report.GradeLabelAlwaysDrawn | pdf_generator.py:190-225 | with the correction, a non-empty label always draws something, and a label with a digit draws a bold number |
| Report.FixedRemark | pdf_generator.py:570-579 | a fixed remark exists exactly for scores whose integer part is 1 to 4 |
| Report.FixedRemarkRoundTrip | pdf_generator.py:570-579 | each level 1..4 is recovered from its fixed remark, so the four remarks are distinct |
| Report.SkillRemarkCell | pdf_generator.py:382-386 | the remark-scale lookup is used when a scale is given and it yields a truthy remark; otherwise the skill's own remark |
| Report.SkillRow | pdf_generator.py:387 | skill name, score and resolved remark, in that order |
| Report.SkillTable | pdf_generator.py:375-387 | a header row, then one row per skill in input order |
| Report.CommentLines | pdf_generator.py:423 | at most four comment lines, the first lines of the comment in order |
| Report.SignatureSlots | pdf_generator.py:467-492 | Principal, Class Teacher and Parent slots in that order; each image is drawn exactly when its path is given and readable, and the titles are always drawn |
| Report.RenderReport | pdf_generator.py:135-500 | the card's title is the upper-cased name; the grade label is drawn as written; the academic table is the header, one row per subject and TOTAL; status is PASSED iff the overall percentage is ≥ 40; both tables span the content width; the skill table is its header and one row per skill; the comment lines are the first four of `splitlines`; the frame is drawn iff it is readable; "prepared on" defaults to today |
| Report.MapMark | pdf_generator.py:541-558 | the subject, scores and remarks pass through; the mark is graded iff it has a TE or CE score; full marks are TE max (100 when missing or 0, both falsy) plus CE max (0 when missing) |
| Report.MapSkill | pdf_generator.py:562-567 | a score of 0 or none reads as no score; a remark that is missing or empty becomes the fixed remark of the score |
| Report.AdapterSkillRemark | pdf_generator.py:581-583 | through the adapter, a skill's remark cell is its own remark, and a score-3 skill with no remark reads ACCOMPLISHED |
| Report.FrameFor | pdf_generator.py:588-592 | a given background wins; without one, the default frame is used when it exists |
| Report.AdapterReport | pdf_generator.py:594-606 | the adapted card's academic table is the one built from the mapped marks and the given grade scale, and it passes iff those marks reach 40 %; its skill table is built with no remark scale; its comment lines are those of the comment; "prepared on" is always today |
| Report.AdapterSkillTable | pdf_generator.py:561-583 | one row per database skill after the header, each with its fixed or given remark |
| Report.ReadColumn | modules/class_teacher.py:318-324 | `pd.read_sql` keeps every number; a NULL reads as NaN exactly when the column holds both a NULL and a number, and as `None` otherwise |
| Report.ReportRaisesIffMixed | pdf_generator.py:285-300 | rendering a student's report raises exactly when their TE scores, or their CE scores, mix a NULL with a number |
| Report.NoRaiseReadsStored | pdf_generator.py:285-300 | when the report does not raise, the generator sees exactly the stored scores |
| Report.BlankRowRaisesIffScored | pdf_generator.py:285-300 | a subject with both scores NULL makes the report raise exactly when another subject of the student has a score |
| Report.BlankBesideScoredRaises | modules/class_teacher.py:318-324 | MATHS scored and ART left blank: reading the marks and rendering the report raises |
| Report.SettledReadIsStored | pdf_generator.py:238-239 | read with NaN taken as missing, every score reads back as stored and no row raises |
| Report.OneSubjectUngradedScenario | pdf_generator.py:232-251 | rows handed over with MATHS at 45 + 20 of 100 and ART with no scores give 65 of 100, 65 % and PASSED |
| Merit.FirstCovering | report_card_app_final_v5.py:54-56 | the index of the first band whose inclusive range holds the score, none when no band does |
| Merit.Resolve | report_card_app_final_v5.py:51-61 | the subject's own bands are searched first (subject upper-cased), then the ALL bands |
| Merit.ResolveFromCoveringBand | report_card_app_final_v5.py:51-61 | the result is ("", "") or the grade and comment of a band, of the subject or of ALL, that holds the score; ("", "") when none does |
| Merit.SortDescSorted | report_card_app_final_v5.py:47-48 | sorting by Min descending gives a sorted permutation of the bands |
| Merit.SortDescStable | report_card_app_final_v5.py:48 | the sort is stable: bands with equal Min keep their file order |
| Merit.SortedFirstCoveringHasLargestMin | report_card_app_final_v5.py:47-56 | after the sort, the band found has the largest Min of all bands holding the score |
| Merit.OrderDecidesOverlap | report_card_app_final_v5.py:48 | for overlapping bands the order decides: file order (v7) picks "B" for 75 where the sorted order (v5) picks "A" |
| Merit.Group | report_card_app_final_v5.py:43-46 | one key per subject seen; each subject's bands in file order, never empty |
| Merit.FirstCoveringOfBandsOf | report_card_app_final_v7.py:74-82 | the first covering band of a subject's group is that of the first covering row of that subject in the file |
| LegacyV5.CapitalizeWords | report_card_app_final_v5.py:21-22 | the words of the result are the capitalised words of the input: whitespace runs collapse to single spaces |
| LegacyV5.CapitalizeWordsTwice | report_card_app_final_v5.py:21-22 | capitalising twice equals capitalising once |
| LegacyV5.TotalOf | report_card_app_final_v5.py:33-35 | a row's Total is its integer value, 100 when blank or not an integer |
| LegacyV5.BandOf | report_card_app_final_v5.py:36-42 | grade and comment stripped; Min and Max read as floats, both 0 when either fails |
| LegacyV5.LastTotalIsLastRow | report_card_app_final_v5.py:45 | a subject's total is the Total of its last row in the file |
| LegacyV5.LoadMerit | report_card_app_final_v5.py:24-49 | one entry per subject, holding its last Total and its bands sorted by Min descending |
| LegacyV5.LoadMeritBands | report_card_app_final_v5.py:43-48 | a subject's loaded bands are sorted, are a permutation of its rows' bands, and keep file order among equal Mins |
| LegacyV5.FindGradeComment | report_card_app_final_v5.py:51-61 | the grade and comment come from a band of the subject or of ALL that covers the score; ("", "") only when no such band covers it |
| LegacyV5.FindGradeCommentPicksHighestBand | report_card_app_final_v5.py:47-61 | the grade comment comes from the covering band with the largest Min |
| LegacyV5.DefaultOutOf | report_card_app_final_v5.py:143 | with no merit data every subject is out of 100 |
| LegacyV5.Percentage | report_card_app_final_v5.py:148 | 0 when the out-of total is 0; otherwise the percentage times it equals 100 times the scored total |
| LegacyV5.SubjectRow | report_card_app_final_v5.py:142-145 | subject, truncated score (0 when missing), out-of, and the grade and comment found for the score |
| LegacyV5.TotalRow | report_card_app_final_v5.py:149 | TOTAL with the truncated scored total, the out-of total and the percentage |
| LegacyV5.SubjectTable | report_card_app_final_v5.py:138-149 | nine rows: header, the seven fixed subjects in order, TOTAL |
| LegacyV5.SkillComment | report_card_app_final_v5.py:169 | a comment exists exactly for scores 1 to 4 |
| LegacyV5.SkillCommentRoundTrip | report_card_app_final_v5.py:169 | each score 1..4 is recovered from its comment, and every other score maps to "" |
| LegacyV5.SkillTable | report_card_app_final_v5.py:166-170 | header plus the five fixed skills; a skill with no score shows 1 and "Beginning" |
| LegacyV5.WrapLinesShort | report_card_app_final_v5.py:198-209 | every wrapped line is at most 90 characters or is a single word |
| LegacyV5.WrapKeepsWords | report_card_app_final_v5.py:198-209 | the non-empty wrapped lines joined by spaces give back the comment's words in order |
| LegacyV5.LongFirstWordLeavesBlankLine | report_card_app_final_v5.py:203-205 | a first word longer than 90 characters is put after an empty first line |
| LegacyV5.DrawnLines | report_card_app_final_v5.py:210 | at most six lines are drawn: the first lines of the wrap, all of them when there are at most six |
| LegacyV5.RenderV5 | report_card_app_final_v5.py:101-220 | name and grade capitalised word by word; the subject table, the skill table and the drawn comment lines are those of the inputs; PASSED iff the percentage is at least 40; prepared on today by the given user |
| LegacyV5.OutputBytes | report_card_app_final_v5.py:227-237 | the JPG when "JPG" was asked for (any case) and the conversion worked; otherwise the PDF |
| LegacyV7.CapitalizeFirst | report_card_app_final_v7.py:31 | same length; the first character upper-cased and every other one lower-cased |
| LegacyV7.CapitalizeFirstTwice | report_card_app_final_v7.py:31 | capitalising twice equals capitalising once |
| LegacyV7.SecondWordLowered | report_card_app_final_v7.py:31 | unlike v5, later words are lowered: "AMINA KHAN" becomes "Amina khan" |
| LegacyV7.VerifyPassword | report_card_app_final_v7.py:38-47 | a stored value without the "pbkdf2$" prefix matches exactly the same typed text; a hash matches only when the hash check succeeds |
| LegacyV7.VerifyPasswordAgreesWithAuth | report_card_app_final_v7.py:38-47 | v7's check agrees with the application's `verify_password` on every stored value |
| LegacyV7.BandOf | report_card_app_final_v7.py:66-71 | grade and comment as read; Min and Max as floats, both 0 when either fails |
| LegacyV7.LoadMerit | report_card_app_final_v7.py:61-72 | one group per subject, holding its rows' bands in file order with no sort |
| LegacyV7.GradeCommentPicksFirstRow | report_card_app_final_v7.py:74-78 | the comment comes from the subject's first covering row in file order |
| LegacyV7.GradeCommentFallsBackToAll | report_card_app_final_v7.py:79-81 | when no row of the subject covers the score, the first covering ALL row decides |
| LegacyV7.Percentage | report_card_app_final_v7.py:208 | the percentage times 700 equals 100 times the scored total |
| LegacyV7.PassesIffTwoEighty | report_card_app_final_v7.py:208-215 | a v7 report passes exactly when the seven scores add up to at least 280 |
| LegacyV7.SubjectTable | report_card_app_final_v7.py:205-208 | nine rows: header, one per fixed subject in order, TOTAL out of 700 |
| LegacyV7.SubjectLoop | report_card_app_final_v7.py:205-207 | the loop builds one row per subject and sums the scores; each subject adds 100 to the out-of total |
| LegacyV7.Submit | report_card_app_final_v7.py:198-208 | the submitted table is the subject table, out of 700, with its percentage |
| LegacyV7.RenderV7 | report_card_app_final_v7.py:200-217 | name and grade capitalised; the subject table is the nine-row table of the scores and merit data; PASSED iff the scores reach 280; prepared on today by the capitalised user |
| LegacyV7.DownloadOf | report_card_app_final_v7.py:219-227 | a JPG download only when "JPG" was chosen and the conversion worked, else the PDF; the file name is the name with spaces turned into underscores |
| Auth.GenerateUsername | auth.py:24-35 | `""` for an empty first name; otherwise the stripped, lower-cased first name followed by at most the first three characters of the stripped, lower-cased last name |
| Auth.UsernameHasNoCapitals | auth.py:32-34 | a generated username has no capital letter |
| Auth.UsernameIgnoresCase | auth.py:32-34 | upper-casing the names does not change the username |
| Auth.PasswordOf | auth.py:48-52 | at most two leading characters of the first name, the last at most two of the last name, then "26!": 3 to 7 characters |
| Auth.GeneratePassword | auth.py:37-52 | `""` for an empty first name; otherwise built from the stripped names |
| Auth.VerifyPassword | auth.py:12-21 | nothing stored never verifies; a "pbkdf2$" value verifies only through the hash check; any other value verifies exactly when the typed text equals it |
| Auth.GeneratedPasswordChecksAsPlainText | auth.py:12-21 | a generated password stored as plain text accepts exactly itself |
| Batch.Chosen | modules/class_teacher.py:278 | the rows whose name was selected, and no others, in their original order: row k of the result is the row at the k-th chosen position |
| Batch.ChosenIndices | modules/class_teacher.py:278 | strictly increasing positions, each of a selected row, including every selected row |
| Batch.StudentEntries | modules/class_teacher.py:371-381 | nothing for an empty PDF; otherwise the `.pdf` entry iff "PDF" is chosen, and a `.jpg` entry iff "JPG" is chosen and the conversion worked |
| Batch.ConversionFailureKeepsPdf | modules/class_teacher.py:373-380 | a failed JPG conversion never removes the PDF entry and adds no entry |
| Batch.AllEntriesHoldsEach | modules/class_teacher.py:310-381 | every entry of every student is written to the archive |
| Batch.AllEntriesFromSomeStudent | modules/class_teacher.py:310-381 | every archive entry belongs to some student |
| Batch.Assemble | modules/class_teacher.py:307-381 | the loop writes all students' entries in order and notes whether any student rendered |
| Batch.Finish | modules/class_teacher.py:385-394 | the archive is offered exactly when some student rendered; otherwise the error message |
| Batch.EmptyArchiveOffered | modules/class_teacher.py:375-385 | with only "JPG" chosen and every conversion failing, an empty archive is still offered |
| ClassTeacher.StoredOf | modules/class_teacher.py:121 | an empty TE or CE cell is stored as NULL, not 0; an empty remark as "" |
| ClassTeacher.SaveMarks | modules/class_teacher.py:106-123 | no row is lost; rows of other subjects, and rows of students with no edit, are unchanged; every new row is for the saved subject and an edited student |
| ClassTeacher.SaveMarksStores | modules/class_teacher.py:108-121 | each student's row ends up as that student's last edit |
| ClassTeacher.EmptyScoresStayUngraded | modules/class_teacher.py:121 | saving both scores empty stores NULLs, which the adapter maps as ungraded, not graded 0; but read beside the student's other subjects, the report raises exactly when one of them has a score |
| ClassTeacher.SaveSkillRow | modules/class_teacher.py:215-218 | only non-empty cells are written, as truncated integers; cleared cells and other students' scores are untouched |
| ClassTeacher.ClearedSkillKeepsScore | modules/class_teacher.py:216-218 | clearing a skill cell keeps the old stored score |
| ClassTeacher.SaveRemark | modules/class_teacher.py:221-223 | the remark is always written, "" when empty; other students' remarks are untouched |
| ClassTeacher.ScaleRows | modules/class_teacher.py:296-305 | the grade's own scale rows when it has any, else the global rows, in order |
| ClassTeacher.ScaleRowsGrade | modules/class_teacher.py:296-305 | a report's grade is the label of the first record of the chosen scale whose range holds the percentage |
| ClassTeacher.Limits | modules/class_teacher.py:330-336 | the grade's own maxima, else the subject defaults, else (100, 0) |
| ClassTeacher.FullMarksFromLimits | modules/class_teacher.py:330-345 | the printed full marks are the TE and CE maxima of whichever level was used, a TE max of 0 reading as 100 |
| ClassTeacher.DbSkills | modules/class_teacher.py:348-349 | the skill rows carry no remark column, so every skill falls back to its fixed remark |
| ClassTeacher.IfExists | modules/class_teacher.py:258 | a path is kept exactly when it is given and the file exists |
| ClassTeacher.Card | modules/class_teacher.py:355-369 | the card's academic table is built from the student's marks with their limits and the grade's own scale (else the global one), and it passes iff those marks reach 40 %; the comment lines are those of the student's remark |
| ClassTeacher.BaseName | modules/class_teacher.py:372 | `{name}_{admission}` with spaces turned into underscores: the name's other characters kept, no space anywhere |
| ClassTeacher.Generate | modules/class_teacher.py:274-394 | refused without a selected student or a format; a selected student whose report raises ends the batch with no archive; otherwise the archive is offered exactly when a selected student's report rendered, and then holds every such student's PDF when "PDF" is chosen; otherwise the error message |
| Principal.Targets | modules/principal.py:23-55 | no grade gives no students; in one grade the targets are the grade's students whose name was selected (all of them when none was), in order, labelled with the grade; all grades give every student only once confirmed |
| Principal.Picked | modules/principal.py:34-38 | the selected students of the grade, in order: the k-th target is the student at the k-th chosen position, relabelled with the grade |
| Principal.TargetsComplete | modules/principal.py:32-42 | any two students of the grade that were selected (or all, when none was) are both targets, in their original order |
| Principal.EmptySelectionMeansWholeGrade | modules/principal.py:33-43 | an empty selection means every student of the grade, in order |
| Principal.RawRowReadsBlank | modules/principal.py:62-63 | a raw `grade_scales` row reads as the band 0..100 with an empty label |
| Principal.RawScaleGivesNoGrade | modules/principal.py:62-63 | with the raw rows every grade lookup is "", so a principal's report never shows a grade |
| Principal.GradeColumnBlank | modules/principal.py:62-63 | the grade column of every subject row is blank or a placeholder |
| Principal.CtSignFor | modules/principal.py:66-67 | the class-teacher signature of the student's grade, none when the grade is unknown |
| Principal.Card | modules/principal.py:119-132 | the card's academic table is built from the marks with the raw `grade_scales` rows, so its grade column is blank, and it passes iff the marks reach 40 %; the comment lines are those of the remark; with no background passed, the default frame is used exactly when it exists |
| Principal.BaseName | modules/principal.py:139 | `{grade}_{name}` with spaces turned into underscores: no space, the name's other characters kept after the grade |
| Principal.Generate | modules/principal.py:71-159 | refused without students, then without a format; a target whose report raises ends the batch with no archive; otherwise the archive is offered exactly when some target rendered and holds each such target's PDF when "PDF" is chosen |
| Admin.SplitFullName | modules/admin.py:147-149 | the first name holds no space; without a space the last name is ""; with one, the parts rejoined by a space give the full name |
| Admin.EditKeepsFullName | modules/admin.py:147-173 | saving the edit form untouched stores the same full name |
| Admin.CellText | modules/admin.py:83-85 | a cell's stripped text; the stripped default when the column is missing; as written, an empty cell reads "nan" |
| Admin.BulkCandidate | modules/admin.py:83-92 | no account when the first name is empty; otherwise a non-empty username, role Teacher when the column is missing, and dashboard `{role} Dashboard` |
| Admin.InsertAccounts | modules/admin.py:82-93 | only new accounts are added, each listed once with its password; every requested username ends up present |
| Admin.FirstAskInserted | modules/admin.py:87-93 | a new username gets the record of the first row that asks for it |
| Admin.BulkUpload | modules/admin.py:81-96 | only new accounts are added, each listed once with its password; existing accounts are untouched; every row that asks for an account ends with its username present |
| Admin.BulkUploadFromRows | modules/admin.py:82-93 | every account added is the one some row asked for |
| Admin.BlankFirstNameCreatesAccount | modules/admin.py:83-93 | as written, a row with an empty First Name creates an account whose username starts with "nan" |
| Admin.IntendedSkipsBlankFirstNames | modules/admin.py:83-86 | read as intended, an account is only created from a row whose First Name holds text |
| Admin.CreateUser | modules/admin.py:43-69 | both names are required; with both, the generated username is refused exactly when it is taken; otherwise the generated credentials are stored and existing assignments kept |
| Admin.CreatedClassTeacherGrades | modules/admin.py:59-65 | a new class teacher is class teacher of the chosen grades, on top of rows left by a deleted account of the same name |
| Admin.Missing | modules/admin.py:201 | the chosen ids not yet assigned, each once |
| Admin.Without | modules/admin.py:204-205 | exactly the rows not selected for deletion are kept |
| Admin.SyncSetsGrades | modules/admin.py:190-208 | after the sync the user is class teacher of exactly the chosen grades |
| Admin.SyncKeepsOtherRows | modules/admin.py:201-208 | the sync touches nothing but the user's class-teacher rows, and it inserts only grades the user did not have |
| Admin.UpdateAssignments | modules/admin.py:183-208 | for a class teacher, the renamed user's grades are exactly those chosen |
| Admin.UpdateUser | modules/admin.py:178-214 | renaming to a taken username commits nothing and changes no table; otherwise the account is stored under the new username with the new name, role and dashboard and the new password only when one was typed, other accounts unchanged, and a class teacher ends with exactly the grades chosen by name |
| Admin.RoleChangeKeepsClassTeacherRows | modules/admin.py:184-190 | when the update commits, moving a class teacher to another role keeps their class-teacher grades under the new username |
| Admin.RenameMovesGrades | modules/admin.py:185 | after the rename, the new username holds the class-teacher grades of both the old and the new name |
| Admin.AddSubject | modules/admin.py:240-248 | an empty name does nothing; a name taken once upper-cased fails; otherwise it is stored upper-cased with TE max 100 and CE max 0 |
| Admin.AddSubjectUpperCase | modules/admin.py:244 | stored names stay upper-case, and a name differing only in case is refused as a duplicate |
| Admin.ScaleTargets | modules/admin.py:389-405 | the global scale is a target exactly when nothing or "Global" is chosen, and then first; the other targets are exactly the known chosen grades |
| Admin.UnknownGradesGiveNoTargets | modules/admin.py:399-405 | choosing only unknown grades adds the rule nowhere |
| Admin.AddScaleRule | modules/admin.py:407-413 | existing rules are kept; every target ends up with the rule; only rules for the targets are added; the count is the number inserted; a global rule always inserts |
| Admin.StudentCandidate | modules/admin.py:530-535 | a student only when the name is non-empty and the grade name maps to a non-zero id |
| Admin.ImportStudents | modules/admin.py:529-540 | existing students are kept; each added one has a name and a known grade; admission numbers stay unique; the count is the number added; every valid row's student is stored unless its admission number is taken |
| Admin.InsertStudents | modules/admin.py:529-538 | existing students kept; admission numbers stay unique; every candidate is stored unless its admission number is taken |
| Admin.BlankAdmissionsCollide | modules/admin.py:531-540 | as written, two rows without an admission number both store "nan": the second student is silently dropped |
| Admin.BlankAdmissionRowsAllImported | modules/admin.py:529-540 | read as intended (NULL for an empty cell), every such valid row is imported |
| Admin.AssignSubjects | modules/admin.py:644-648 | for one grade, every chosen subject is assigned, and each inserted row is new |
| Admin.AssignPairs | modules/admin.py:640-648 | every chosen (grade, subject) pair ends up assigned; inserted rows are new and distinct; the count is the number inserted |
| Admin.SavedFilesKeepExtension | modules/admin.py:703-749 | each saved signature or background file keeps the upload's extension |
| Admin.BackgroundFileName | modules/admin.py:749 | the file is `bg_` plus the name with spaces turned into underscores, then the extension; names differing only in space versus underscore share a file |
| Admin.ParentSignatureTarget | modules/admin.py:729-738 | the first student with that admission number, else the first with that name; none when neither exists |

## Left out

- Password hashing: PBKDF2 and random salts are foreign calls. `Auth.VerifyPassword` receives the hash check's outcome as a parameter (`None` where it raises).
- Drawing: reportlab, fonts, `stringWidth`, image loading and coordinates. A card is the record of what is drawn; PDF bytes come from a caller-supplied `render` function.
- JPG conversion and ZIP encoding are foreign libraries. The conversion is a parameter returning `None` where it raises; an archive is its list of entries.
- CSV and database I/O: file reading, SQL and connections. Query results and CSV rows are inputs; tables are values.
- The Streamlit interface: widgets, session state, login and routing. So are the numeric limits the widgets enforce on the values users type.
- Delete actions and single-record edits in the admin dashboard (modules/admin.py:217-223, 255-296, 309-366, 423-518, 556-611, 663-672): each is one SQL statement on a chosen id, with no rule to state.
- Background-to-grade assignment (modules/admin.py:769-778): an `INSERT OR REPLACE` per chosen grade.
- The principal and class-teacher signature uploads write bytes to a fixed path; only the file names are modelled.
- Floating point: percentages are exact reals, and `:.1f` formatting prints a `Pct` cell.
- `float()` of text accepts an optional sign and a plain decimal numeral. Exponents, `inf`, `nan` and underscores are left out.
- Case mapping, whitespace and digits are ASCII only. There is no Unicode case folding, and the non-ASCII decimal digits that `re.search(r"(\d+)")`, `float()` and `int()` accept are not digits in the model.
- `pd.read_csv` infers column types (modules/admin.py:78, 524). An all-digit column is read as numbers, so `str(...)` of a cell gives "101" for "00101", or "101.0" when the column also has a blank. The strings "NA", "N/A", "NULL" and "None" are read as missing and become "nan". The model reads every cell as its text, or as missing when it is empty. Two blank admission numbers still both become "nan" under pandas, so the admission-number finding stands; which non-blank numbers collide can differ.
- A NULL skill score read beside numbers is NaN: it prints as "nan" and gets no fixed remark. The model reads skill scores as stored.
- NULL maxima in `subjects` would read as NaN in the principal's query; the model takes maxima as stored.
- The clock: "prepared on" and the archive's date stamp are the `today` parameter.
- Set iteration order in the class-teacher sync (modules/admin.py:204-208) does not change the resulting rows as a set. The model inserts new grades in selection order.
- A missing (`None`) cell in v5's CSV would make `.strip()` raise. The model reads every cell as text.
- The v5 download label (report_card_app_final_v5.py:328-330) names a PDF fallback `.jpg`; only the returned bytes are modelled.
- v7 collects skill scores and comments (report_card_app_final_v7.py:186-196) but never draws them. `LegacyV7.RenderV7` draws no skills section.
- The class-teacher marks editor's own layout (modules/class_teacher.py:77-104) and the skills matrix build (modules/class_teacher.py:164-206) are display only.

## Findings

| source | as written | input that shows it | evidently intended | confidence | as-written member | corrected member |
|---|---|---|---|---|---|---|
| pdf_generator.py:190-225 | A label with a digit run is drawn only inside `if suffix:`. The `else` branch draws nothing, so a label ending in digits disappears from the header. | the grade label "Grade 10" | draw the prefix and the bold number even when there is no suffix | not executed | Report.GradeTenDrawsNothing | Report.GradeLabelAlwaysDrawn |
| modules/admin.py:83-86 | `str(row.get("First Name", "")).strip()` turns an empty CSV cell (NaN) into "nan", which is truthy. | a bulk-upload row with First Name empty and Last Name "Khan" | skip rows with an empty first name | not executed | Admin.BlankFirstNameCreatesAccount | Admin.IntendedSkipsBlankFirstNames |
| modules/admin.py:531-537 | An empty Admission No cell is stored as the text "nan". The UNIQUE column then refuses the second such student, and the insert error is swallowed. | two import rows with names, known grades and empty Admission No | store NULL, which UNIQUE allows many times, and import both | not executed | Admin.BlankAdmissionsCollide | Admin.BlankAdmissionRowsAllImported |
| modules/class_teacher.py:318-324 | A NULL score read by `pd.read_sql` beside a number in the same column becomes NaN. The generator's `is None` test lets the row through, and `int(safe_float(nan, 0))` raises, ending the whole batch. | a student with MATHS scored and ART saved with both scores empty | treat a missing score as ungraded, as the generator's own comment says | not executed | Report.BlankBesideScoredRaises | Report.SettledReadIsStored |
