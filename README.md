# Transcript credit calculator: a Dafny model

The program reads a student's PDF transcript and reports how many credits
the student has passed. It pulls tables out of the PDF, either from the
text layer (pdfplumber) or by OCR on a scanned PDF (img2table with
Tesseract). It cleans the cells and the header names, and stacks the
tables into one frame. It then finds the five transcript fields (學年度
academic year, 學期 term, 科目名稱 course name, 學分 credits, GPA grade)
among the frame's columns. It keeps the rows whose credits are a positive
number and whose grade looks like a grade, splits them into passed and
failed courses, and sums the credits of the passed ones.

The model follows the program's pipeline, one module per stage:

- `Wrappers` (wrappers.dfy): the `Option` type.
- `Text` (text.dfy): whitespace as Python's `str.isspace` sees it, and
  `normalize_text` together with a reference definition, the words of
  the text joined by single spaces. It also renders naturals in decimal,
  as an f-string does.
- `Columns` (columns.dfy): the keyword rewrite of header labels and
  `make_unique_columns`. Both are imperative loops proved against
  specification functions.
- `Grades` (grades.dfy): `is_gpa_valid` (the regular expression as
  predicates) and the number parse behind `pd.to_numeric(...,
  errors='coerce')`.
- `Frames` (frames.dfy): the tables each extractor builds and
  `pd.concat(..., ignore_index=True)` over them.
- `Extract` (extract.dfy): `process_pdf_file` and the text-layer test,
  plus both extractors. Their page and table loops are methods proved
  against functions.
- `Resolve` (resolve.dfy): the loop that fills `found_cols` from
  `col_mapping`.
- `CreditReport` (credits.dfy): the row filters, the pass/fail split and
  the credit total.
- `App` (app.dfy): one upload from the extracted frame to the page's
  outcome.

What the PDF libraries return is the input of the model. That is the
pages' text, the tables pdfplumber finds, and the tables img2table finds,
each with the exceptions they may raise.

### Where the code and the program's documented intent differ

The model follows the code in each case:

- `make_unique_columns` is documented as making names unique, but its
  output can repeat a name. Two blank labels both become
  `Unnamed_Column`, because the count is kept under the original label
  (`Columns.BlankLabelsRepeat`). A literal `學分_1` read after a
  generated `學分_1` is emitted unchanged (`Columns.LiteralSuffixRepeats`).
  `Columns.DuplicateAt` characterises exactly when the output repeats a
  name.
- A grade of 通過 ("passed") does not make a row count as passed. The
  grade filter drops the row, so its credits appear in neither list
  (`CreditReport.TranscriptExample`, `CreditReport.UncountedRows`).
- A numeric grade below 60 is not failing. Only the exact strings D, d,
  E, e, F and f are failing; D- and D+ count as passed
  (`CreditReport.FailingExample`).
- Synonyms of a field are matched exactly. Only the field's own name is
  also matched as a prefix.
- There is no course-code field. The five fields above are all that is
  resolved.
- On the OCR path, the header is the DataFrame's column labels. The
  first data row is not treated as a header.

## Model

| member | source | states |
|---|---|---|
| Text.NormalizeTextShape | app.py:13-33 | A missing cell becomes ""; every result has no whitespace at either end, no two whitespace characters in a row, and no whitespace other than the ASCII space |
| Text.NormalizeIsJoinOfWords | app.py:33 | Replacing whitespace runs by one space and stripping gives exactly the words of the text joined by single spaces |
| Text.NormalizeIdempotent | app.py:33 | Normalising an already normalised text changes nothing |
| Text.WordsOfNormalize | app.py:33 | Normalising keeps the words of the text, in order, and nothing else |
| Text.NormalizedShape | app.py:33 | Every normalised text has the normalised shape (no outer whitespace, single ASCII spaces only) |
| Columns.CleanHeader | app.py:98-111 | The cleaned header has one name per header cell, in order; each is the name of the first rule whose keywords the cell contains, or the cell itself |
| Columns.CanonicalNamesFixed | app.py:100-109 | Each of the five standard names is rewritten to itself |
| Columns.CanonicalLabelIdempotent | app.py:172-185 | Rewriting an already rewritten name leaves it unchanged |
| Columns.YearRuleFirst | app.py:100-103 | Every label containing both 學年 and 度 becomes 學年度, whatever else it contains, because the year rule is tested first |
| Columns.YearRuleExample | app.py:100-103 | 學年度學期 contains the term name 學期 and still becomes 學年度 |
| Columns.MakeUniqueColumns | app.py:35-57 | The loop with its `seen` counters emits exactly the names of the label-by-label specification |
| Columns.AddColumn | app.py:43-55 | One iteration, including the collision loop, performs exactly one specification step: the counters and the emitted list |
| Columns.FirstFree | app.py:47-51 | The collision loop stops at the least counter, at or above the current one, whose suffixed name is not yet emitted |
| Columns.SeenPositive | app.py:40-55 | After the loop, a label's counter is positive exactly when the label was read |
| Columns.UniquePrefix | app.py:42-56 | The names emitted for the first i labels are the first i names of the output, so the output keeps the input order |
| Columns.DedupAt | app.py:44-54 | A label read for the first time is emitted as is (a blank one as Unnamed_Column); a repeated label gets a suffix _m with m at least 1, different from every earlier name |
| Columns.Occurrences | app.py:277-279 | A column name occurs in the header exactly when it is counted at least once |
| Columns.SeenAtLeast | app.py:47-55 | A label's counter is at least the number of times the label was read |
| Columns.SeenOnce | app.py:44-55 | A non-blank label read at most once has a counter equal to its number of readings, unless its `_1` name was already emitted |
| Columns.SecondOccurrence | app.py:47-52 | The second reading of a non-blank label is emitted as label_1 whenever no earlier name is label_1 |
| Columns.RepeatSuffixAtLeast | app.py:47-52 | The (k+1)-th reading of a non-blank label is emitted as label_m with m at least k |
| Columns.DuplicateAt | app.py:44-55 | An output name repeats an earlier one exactly when its label is read for the first time and an earlier output already has that name |
| Columns.DistinctUnchanged | app.py:42-57 | Distinct non-blank labels come out unchanged |
| Columns.UniqueColumnsNonEmpty | app.py:44-46 | The output has one name per label and no name is empty |
| Columns.RepeatedCreditsExample | app.py:47-52 | A second 學分 becomes 學分_1 |
| Columns.BlankLabelsRepeat | app.py:44-55 | Two blank labels both come out as Unnamed_Column |
| Columns.LiteralSuffixRepeats | app.py:47-55 | A literal 學分_1 after a generated 學分_1 comes out unchanged, repeating a name |
| Grades.IsGpaValid | app.py:59-62 | A missing cell is never a valid grade |
| Grades.GpaValidIff | app.py:59-64 | A string is accepted exactly when, apart from one trailing newline, it is a letter A to F in either case with an optional + or -, or a non-empty run of digits and dots |
| Grades.ExclusionRedundant | app.py:63-64 | None of the listed non-grades (通過, 抵免, 必修, 選修) matches the pattern, so the exclusion list never changes the verdict |
| Grades.GradeExamples | app.py:59-64 | A+, D-, f, 3.5, 85, .. and B followed by one newline are accepted; 通過, G, A++, the empty string, 3.5分 and B followed by two newlines are not |
| Grades.ParseNumber | app.py:278 | A parsed cell is non-empty, and its value is non-negative unless it starts with a minus sign |
| Grades.ParsedShape | app.py:278 | A cell that parses consists of digits and dots after an optional leading sign |
| Grades.ParseDecimalString | app.py:283 | A whole number written in decimal parses back to that number |
| Grades.ParseNegativeDecimal | app.py:283 | A negative whole number parses back with its sign |
| Grades.ParseFraction | app.py:283 | Digits, a dot and digits parse to the whole part plus the fraction |
| Grades.ParseOneDecimalPlace | app.py:283 | n.d parses to n + d/10 |
| Grades.NumberExamples | app.py:278-283 | 3, 0 and -1 parse to 3, 0 and -1 |
| Grades.FractionExample | app.py:278-283 | 2.5 parses to 2.5 |
| Grades.NotNumberExamples | app.py:278 | 三, the empty string, a lone dot and 1.2.3 do not parse |
| Frames.UnionHasAll | app.py:133 | The united header holds a name exactly when some table has a column of that name |
| Frames.ConcatShape | app.py:133 | The concatenation keeps every row of every table, every row has one cell per column, and a united header is duplicate-free and holds exactly the tables' names |
| Frames.ConcatRow | app.py:133 | Row k of table j is row (rows of tables before j) + k of the concatenation; under identical headers its cells are the row's cells, under a united header each column holds the row's cell of the same name, or is missing when table j lacks that column |
| Frames.StackedAt | app.py:133 | Stacking places row k of table j, every cell present, after the rows of the tables before it |
| Frames.AlignedAt | app.py:133 | Under a united header, row k of table j sits after the rows of the tables before it, re-indexed by column name |
| Frames.ConcatRaises | app.py:133-137 | Headers that differ, one of which repeats a name, make the concatenation fail, and the extractor returns the empty frame |
| Frames.ConcatSingle | app.py:133 | A single table comes through with its header and rows unchanged |
| Frames.ConcatOrEmptyWellFormed | app.py:133 | The frame an extractor returns has one cell per column in every row |
| Extract.TextLayerIff | app.py:72-79 | A PDF is read through its text layer exactly when some page has text and no earlier page raised |
| Extract.ScanExamples | app.py:72-79 | A page that raises after a page with text does not matter; one that raises before it, no text at all, no pages and a failed open each mean OCR |
| Extract.Fitted | app.py:121-126 | A fitted row has the header's width; each cell is the row's cell at that place, or "" past its end |
| Extract.FitRow | app.py:121-126 | The padding and truncation of one row give exactly the fitted row |
| Extract.ExtractRows | app.py:118-127 | The loop over the data rows yields each row normalised and fitted, in order |
| Extract.ExtractTable | app.py:95-131 | One table's pass through the loop body gives exactly the table the specification keeps, or none |
| Extract.TextTableShape | app.py:95-131 | A table is skipped exactly when its header row is missing or empty or it has no data row; a kept table has the header's width, non-empty column names, one row per data row, and each cell is the normalised cell at that place or "" |
| Extract.PageFrames | app.py:94-131 | The loop over one page's tables keeps exactly the tables the specification keeps, in order |
| Extract.KeptFromPagesFails | app.py:92-93 | A page whose table extraction raises makes the whole text-layer extraction fail |
| Extract.TextLayerFrame | app.py:88-137 | The text-layer frame has one cell per column in every row |
| Extract.ExtractTextLayer | app.py:88-137 | The page and table loops, with their early exit on an exception, return exactly the specification's frame |
| Extract.OcrFrameShape | app.py:166-191 | An OCR table is kept exactly when it has columns and rows; a kept one has one non-empty name per label, the same rows, and every cell normalised |
| Extract.OcrTableFrame | app.py:163-191 | One OCR table's trip through the loop body gives exactly the table the specification keeps, or none |
| Extract.OcrPageFrames | app.py:161-191 | The loop over one page's OCR tables keeps exactly the tables the specification keeps, in order |
| Extract.OcrFrame | app.py:139-198 | The OCR frame has one cell per column in every row |
| Extract.ExtractOcr | app.py:139-198 | The page and table loops of the OCR path return exactly the specification's frame |
| Extract.ExtractedFrame | app.py:67-86 | The frame of an upload, from whichever path the text-layer test picks, has one cell per column in every row |
| Extract.ProcessPdf | app.py:67-86 | Dispatches to the OCR path exactly when the PDF is judged scanned, and to the text-layer path otherwise |
| Resolve.FirstPresent | app.py:232-235 | The chosen synonym is a column, and no earlier synonym is |
| Resolve.FirstWithPrefix | app.py:238-242 | The chosen column starts with the field's name, and no earlier column does |
| Resolve.ResolveColumns | app.py:230-242 | The loops fill found_cols exactly as the field-by-field specification does |
| Resolve.ResolveOne | app.py:232-242 | The synonym loop and then the prefix loop find exactly what the field's search specification finds |
| Resolve.SearchFound | app.py:232-242 | One field's search succeeds exactly when a synonym is a column or a column starts with the field's name, and it yields an existing column |
| Resolve.FoundIsResolve | app.py:230-242 | Each field's entry in found_cols is what that field's own search finds, unaffected by the other fields |
| Resolve.ResolvedField | app.py:222-242 | A field is found exactly when one of its synonyms is a column or some column starts with its name; it is found as an existing column; the first synonym in declaration order wins; otherwise the first prefix match in column order |
| Resolve.ResolvedDistinct | app.py:222-242 | Two different fields never resolve to the same column, so the renaming is one to one |
| Resolve.SynonymsDisjoint | app.py:222-228 | No two fields share a synonym |
| Resolve.SynonymPrefix | app.py:222-228 | A synonym that starts with a field's name belongs to that field |
| Resolve.FieldsPrefixFree | app.py:222-228 | No field's name starts with another field's name |
| Resolve.ResolveExamples | app.py:231-242 | An exact synonym beats an earlier prefix match; without a synonym, the first column starting with the field's name is taken |
| CreditReport.FilteredMembers | app.py:277-286 | A course is kept exactly when it comes from a row whose credits parse to a positive number and whose grade is valid |
| CreditReport.FilteredAppend | app.py:277-286 | Filtering works row by row, so the order of the rows is kept |
| CreditReport.PassedAppend | app.py:289-295 | The two masks and the sum work row by row |
| CreditReport.PartitionMembers | app.py:289-292 | A kept course is in exactly one of the two lists: failed when its grade is exactly D, d, E, e, F or f, passed otherwise |
| CreditReport.PartitionSizes | app.py:289-295 | The two lists together have as many courses, and as many credits, as the kept rows |
| CreditReport.FilteredPositive | app.py:277-286 | Every kept course has positive credits and a valid grade |
| CreditReport.TotalNonNegative | app.py:295 | The sum of positive credits is non-negative, and positive when there is a course |
| CreditReport.ClassifyReport | app.py:277-295 | The passed and failed lists split the kept rows by grade; the total is the passed credits, never negative, and positive once a course passed |
| CreditReport.ClassifyIsOnePass | app.py:277-295 | The column masks agree with handling the rows one at a time |
| CreditReport.ClassifySnoc | app.py:277-295 | Classifying one more row adds its course to the list its grade decides, and its credits to the total when it passed |
| CreditReport.TranscriptExample | app.py:277-295 | A 3-credit A counts, and a 0-credit 通過 appears in neither list; the total is 3 |
| CreditReport.FailingExample | app.py:286-295 | A 4-credit F is failed and adds nothing; a 3-credit D- passes; the total is 3 |
| CreditReport.UncountedRows | app.py:277-286 | Credits written 三, zero credits, missing credits and a 通過 grade each keep a row out of both lists |
| App.ProcessUpload | app.py:208-295 | One upload ends exactly as the specification of the page says: no data, missing fields, a duplicated column, or the report |
| App.ReportedOutcome | app.py:215-295 | A report comes only from a non-empty frame in which all five fields resolved to existing columns, the credits and grade columns occurring once; it is the classification of the frame's rows, with a non-negative total |
| App.NoDataIff | app.py:215 | The page stops with the no-data warning exactly when the extracted frame is empty |

## Left out

- The Streamlit page is not modelled: the title, the uploader, messages, spinners and table displays (app.py:201-220 and 296-321). The model ends in an `Outcome` value instead.
- Manual column selection (app.py:251-270) needs a user's choices and a rerun. The model ends in `MissingFields` with the columns it did find.
- The CSV export of the course lists (app.py:322-341) is not modelled.
- pdfplumber, img2table and Tesseract are not modelled. What they return, including their exceptions, is an input of the model (`Extract.Upload`).
- The source opens the uploaded file twice, once for the text-layer test and once for extraction. The model takes the two results as independent inputs. A failure on the second open gives the empty frame, which the input with one failing page also gives.
- Exceptions inside the extractors other than a failing page, a failing OCR call and a failing `pd.concat` are not modelled; each of these ends in the empty frame.
- Grades.ParseNumber: models only an optional sign, digits and an optional decimal fraction. Exponents, `inf`, `nan` and surrounding whitespace, all of which `pd.to_numeric` accepts, are left out. The extractors strip whitespace from every cell before this point.
- CreditReport.Total: credits are exact reals. Floating-point rounding in the sum is not modelled.
- App.Calculate: a resolved credits or grade column whose name occurs twice makes pandas select a frame instead of a column and raise. The model reports this as `DuplicateColumn` without the exception's text. For a repeated year, term or course-name column, the model reads the first such column.
- The regular expression engine is not modelled. The one pattern the program uses is written out as predicates (`Grades.LetterAlternative`, `Grades.NumberAlternative`).
- `str()` of an arbitrary cell object is not modelled. Such a cell carries the string it renders to (`Text.RawCell.Other`).
- The renaming of the frame's columns to the field names (app.py:273) is modelled by reading each field's resolved column directly. `Resolve.ResolvedDistinct` shows the renaming is one to one.
