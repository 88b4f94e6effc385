# University records and book-data pipeline, modelled in Dafny

This project models two small Python systems and proves properties of the model.

The first system is a university records system, which exists in two variants:

- **`question1_university_system`**: a Student enrols in at most six distinct,
  normalised course codes and keeps a grade per enrolled course. A Course validates
  its arguments and keeps a roster of distinct students bounded by its capacity.
  Adding a student to a course, or removing one, also updates the student's own
  course list.
- **`question1_university_management_system`**: a Person (name, id, updatable email
  and phone) is the base of Student, Faculty and Staff. Its Student accepts a blank
  course code. Its Course validates nothing and leaves the student untouched. A
  Department holds duplicate-free lists of faculty members and courses, with the
  head listed first.

The second system is a three-stage book-data pipeline, `question2_data_analysis`:

- a scraper with a bounded retry loop turns catalogue pages into book records and a
  CSV table;
- a cleaning step parses prices and ratings, drops incomplete and repeated rows, and
  derives a price band and an in-stock flag;
- an analysis step computes descriptive statistics (mean, median, mode, variance,
  range and quartiles), the top categories, IQR outliers and the decisions of a
  correlation test and a t-test.

Objects whose fields the Python code updates in place are Dafny classes. Their
methods are proved against pure specification functions such as `Enroll`, `Admit`,
`Drop`, `Record` and `AddNew`. Loops are methods with invariants: the retry loop,
the page loop and the product loop. The pandas and statistics code is modelled as
functions over sequences, with lemmas about those functions.

Modules:

- `Outcomes`: the Result, Option and Outcome types.
- `Seqs`: sequences as lists, including duplicate-free lists, `remove`,
  `drop_duplicates`, filters and sums.
- `Text`: `strip`, `upper`, `lower`, `replace`, `contains`, `join` and `split`.
- `Numbers`: rendering integers and parsing numbers.
- `Display`: the `__str__` and info texts.
- `Academic`: the grade dict, the GPA and the status that both Student classes share.
- One module per class of each university variant.
- `Scraper`, `Cleaning`, `Stats` and `Analysis` for the pipeline.

Source paths in the table are relative to the repository root.

## Model

| member | source | states |
|---|---|---|
| Text.Strip | question1_university_system/student.py:44 | the result has no leading or trailing whitespace |
| Text.StripIdempotent | question1_university_system/student.py:44 | stripping twice is stripping once |
| Text.StripCutsWhitespace | question1_university_system/student.py:44 | the stripped text is the original with nothing but whitespace cut from its two ends |
| Text.StripUnique | question1_university_system/student.py:44 | any text cut from the original by removing only outer whitespace, and with no whitespace at its ends, is the stripped text |
| Text.StripUnchanged | question1_university_system/student.py:44 | text without outer whitespace is left as it is |
| Text.Upper | question1_university_system/student.py:44 | same length; each character is upper-cased; with no outer whitespace, the result is normalised |
| Text.StripUpper | question1_university_system/student.py:44 | `strip().upper()` gives a normalised code no longer than its input |
| Text.UpperKeepsStripped | question1_university_system/student.py:44 | if one text is the other with only outer whitespace cut, that still holds after upper-casing both |
| Text.StripUpperCommutes | question1_university_system/student.py:44 | the normalised code is the upper-cased input with only outer whitespace cut, and equals stripping after upper-casing |
| Text.StripUpperIdempotent | question1_university_system/student.py:44 | normalising a code twice is normalising it once |
| Text.StripUpperUnchanged | question1_university_management_system/student.py:43 | an already normalised code is unchanged |
| Text.StripUpperEmpty | question1_university_system/student.py:45-46 | the normalised code is empty exactly when the input is all whitespace |
| Text.StripLower | question2_data_analysis/3_analysis.py:144 | `strip().lower()` leaves no upper-case letter, no whitespace at either end, and does not lengthen the text |
| Text.LowerKeepsStripped | question2_data_analysis/3_analysis.py:144 | if one text is the other with only outer whitespace cut, that still holds after lower-casing both |
| Text.StripLowerCommutes | question2_data_analysis/3_analysis.py:144 | the category key is the lower-cased text with only outer whitespace cut, and equals stripping after lower-casing |
| Text.Contains | question2_data_analysis/2_data_cleaning.py:87 | true exactly when the needle occurs at some position |
| Text.ContainsIgnoreCase | question2_data_analysis/2_data_cleaning.py:87 | true exactly when the lower-cased needle occurs in the lower-cased text |
| Text.RemoveAll | question2_data_analysis/2_data_cleaning.py:45-46 | the character is gone and every other character is kept |
| Text.RemoveAllConcat | question2_data_analysis/2_data_cleaning.py:45-46 | removal distributes over concatenation, so order is kept |
| Text.RemoveAllAbsent | question2_data_analysis/2_data_cleaning.py:45-46 | text without the character is unchanged |
| Text.Split | question1_university_management_system/department.py:41-51 | the inverse of the join, used to read joined lines and ratios back: at least one piece, none containing the separator |
| Text.SplitJoin | question1_university_management_system/department.py:41-51 | splitting the joined pieces gives them back when none holds the separator |
| Numbers.NatToString | question2_data_analysis/1_scraper.py:161 | a non-empty run of decimal digits |
| Numbers.IntToString | question1_university_management_system/course.py:56-63 | non-empty, made of digits and '-'; it starts with '-' exactly for negatives |
| Numbers.DigitsRoundTrip | question2_data_analysis/1_scraper.py:161 | the digits read back as the number written |
| Numbers.ParseNumber | question2_data_analysis/2_data_cleaning.py:48 | a parse succeeds only on digits, signs and points with at least one digit; unsigned text gives a non-negative value |
| Numbers.ParseNatString | question2_data_analysis/2_data_cleaning.py:54 | a written whole number parses back to itself |
| Numbers.ParseIntString | question1_university_management_system/course.py:60-63 | the text of any integer, negative ones included, parses back to it |
| Numbers.ParseDecimalString | question2_data_analysis/2_data_cleaning.py:48 | whole digits, a point and fraction digits parse to the whole part plus the fraction digits over their power of ten |
| Numbers.ParseNeedsDigit | question2_data_analysis/2_data_cleaning.py:48 | text without a digit does not parse |
| Display.CourseSummary | question1_university_management_system/course.py:56-63 | the summary is the code, " - ", the name, then " (" + enrolled/capacity + ")" at its end |
| Display.RatioReadsBack | question1_university_system/course.py:65-69 | the "enrolled/capacity" text splits at its slash into the roster size and the capacity, negative capacities included, which read back as those numbers |
| Display.JoinOrNone | question1_university_management_system/department.py:43-44 | an empty list shows as "None"; a list with text is joined by ", " |
| Display.JoinedEmpty | question1_university_management_system/department.py:43-44 | only empty names can join to empty text |
| Display.LinesSplit | question1_university_management_system/person.py:33-38 | lines without line breaks read back after joining |
| Seqs.RemoveFirst | question1_university_management_system/course.py:54 | `list.remove` shortens the list by one when the item is present and changes nothing otherwise |
| Seqs.RemoveFirstAt | question1_university_management_system/course.py:54 | it removes exactly the first occurrence |
| Seqs.RemoveFirstDistinct | question1_university_management_system/course.py:54 | on a duplicate-free list it removes the item and keeps every other item |
| Seqs.RemoveFirstAppended | question1_university_management_system/course.py:46-54 | removing an item just appended restores the list |
| Seqs.Dedup | question2_data_analysis/2_data_cleaning.py:64-67 | duplicate-free; the same items; no longer |
| Seqs.DedupDistinct | question2_data_analysis/2_data_cleaning.py:66 | a duplicate-free list is unchanged |
| Seqs.DedupIdempotent | question2_data_analysis/2_data_cleaning.py:66 | dropping duplicates twice is dropping them once |
| Seqs.DedupKeepsFirstOrder | question2_data_analysis/2_data_cleaning.py:66 | the kept items follow the order of their first occurrences |
| Seqs.Filter | question2_data_analysis/2_data_cleaning.py:60 | keeps exactly the items that pass, as a sub-multiset |
| Seqs.FilterConcat | question2_data_analysis/3_analysis.py:109 | filtering distributes over concatenation, so row order is kept |
| Seqs.FlatMapConcat | question2_data_analysis/1_scraper.py:112-140 | collecting per item distributes over concatenation |
| Seqs.SumBounds | question2_data_analysis/3_analysis.py:55 | n values between lo and hi sum to between n·lo and n·hi |
| Seqs.SumConcat | question2_data_analysis/3_analysis.py:55 | the sum of a concatenation is the sum of the sums |
| Seqs.MeanBounds | question2_data_analysis/3_analysis.py:55 | such a total divided by n lies between lo and hi and times n gives the total back |
| Academic.Put | question1_university_system/student.py:70 | `grades[code] = value` appends a new code and otherwise only overwrites |
| Academic.PutAsMap | question1_university_system/student.py:70 | as a dict, the assignment is a map update; an existing code keeps the size |
| Academic.PutUniqueCodes | question1_university_system/student.py:70 | no code is ever graded twice |
| Academic.PutNewAppends | question1_university_system/student.py:70 | a new code is appended, keeping every grade in range |
| Academic.AsMapEntries | question1_university_system/student.py:87-92 | one dict key per entry, each mapping to that entry's grade, and no other keys |
| Academic.Record | question1_university_system/student.py:58-70 | fails when the code is not enrolled or the grade is outside 0.0 to 4.0; on success the dict maps the code to the grade |
| Academic.RecordKeepsBook | question1_university_management_system/student.py:55-68 | recording keeps one entry per code, all grades in range, and only enrolled codes graded |
| Academic.Gpa | question1_university_system/student.py:72-78 | 0.0 with no grades, otherwise between 0.0 and 4.0 |
| Academic.GpaBetween | question1_university_system/student.py:72-78 | the GPA lies between the lowest and highest grade |
| Academic.GpaTimesCount | question1_university_system/student.py:72-78 | the GPA times the number of grades is their total |
| Academic.GpaAppend | question1_university_system/student.py:72-78 | one more grade moves the GPA to the weighted mean of the old GPA and that grade |
| Academic.GpaAfterNewGrade | question1_university_system/student.py:70-78 | grading a new course moves the GPA to that weighted mean |
| Academic.StatusOf | question1_university_system/student.py:94-105 | Dean's List from 3.5, Good Standing from 2.0 to below 3.5, Probation below 2.0; each both ways |
| Academic.StatusMonotone | question1_university_management_system/student.py:86-94 | a higher GPA never gives a lower status |
| MgmtPerson.Responsibilities | question1_university_management_system/person.py:49-54 | the general text exactly for the base class |
| MgmtPerson.ResponsibilitiesDistinct | question1_university_management_system/student.py:96-100 | the base class and the three subclasses all give different texts |
| MgmtPerson.Person.constructor | question1_university_management_system/person.py:15-27 | stores the four details and the class |
| MgmtPerson.Person.Info | question1_university_management_system/person.py:29-38 | four labelled lines (name, id, email, phone) that read back when the values have no line break |
| MgmtPerson.Person.UpdateContact | question1_university_management_system/person.py:40-47 | replaces each given detail and keeps each omitted one |
| MgmtPerson.Person.Duties | question1_university_management_system/person.py:49-54 | the object's get_responsibilities text |
| MgmtPerson.UpdateContactDemo | question1_university_management_system/main.py:50-51 | updating only the email keeps the phone, and the other way round |
| MgmtStudent.Enroll | question1_university_management_system/student.py:39-53 | succeeds exactly when the normalised code is new and fewer than six are held; then appends it |
| MgmtStudent.EnrollKeepsCourseList | question1_university_management_system/student.py:39-53 | the list stays distinct, normalised and within six |
| MgmtStudent.EnrollBlank | question1_university_management_system/student.py:43-53 | a blank code is accepted and stored as "" |
| MgmtStudent.EnrollTwice | question1_university_management_system/student.py:45-46 | enrolling again in the same code fails with "Already enrolled" |
| MgmtStudent.EnrollFull | question1_university_management_system/student.py:48-51 | a student with six courses accepts no other |
| MgmtStudent.Student.constructor | question1_university_management_system/student.py:21-37 | stores the details, with no courses and no grades |
| MgmtStudent.Student.EnrollCourse | question1_university_management_system/student.py:39-53 | the list becomes `Enroll`'s result, or is unchanged with its error |
| MgmtStudent.Student.AddGrade | question1_university_management_system/student.py:55-68 | the grades become `Record`'s result, or are unchanged with its error |
| MgmtStudent.Student.Gpa | question1_university_management_system/student.py:70-84 | between 0.0 and 4.0, 0.0 with no grades, and times the count it gives the total |
| MgmtStudent.Student.AcademicStatus | question1_university_management_system/student.py:86-94 | each status text exactly on its GPA band |
| MgmtCourse.Room | question1_university_management_system/course.py:32-36 | the number of seats is never below the capacity |
| MgmtCourse.Admit | question1_university_management_system/course.py:38-46 | succeeds exactly when there is room and the student is new; otherwise "is full" first |
| MgmtCourse.AdmitKeepsRoster | question1_university_management_system/course.py:38-46 | success appends the student once, keeping the roster distinct and within capacity |
| MgmtCourse.Drop | question1_university_management_system/course.py:48-54 | succeeds exactly when the student is on the roster, shortening it by one |
| MgmtCourse.DropRemovesOnly | question1_university_management_system/course.py:48-54 | removes that student and keeps every other |
| MgmtCourse.AdmitThenDrop | question1_university_management_system/course.py:38-54 | removing a student just added restores the roster |
| MgmtCourse.Course.constructor | question1_university_management_system/course.py:17-30 | stores the normalised code and the arguments, with an empty roster |
| MgmtCourse.Course.IsFull | question1_university_management_system/course.py:32-36 | full exactly when the roster fills the room |
| MgmtCourse.Course.AddStudent | question1_university_management_system/course.py:38-46 | the roster becomes `Admit`'s result, or is unchanged with its error |
| MgmtCourse.Course.RemoveStudent | question1_university_management_system/course.py:48-54 | the roster becomes `Drop`'s result, or is unchanged with its error |
| MgmtCourse.Course.Summary | question1_university_management_system/course.py:56-63 | starts with the code, " - " and the name, and ends with " (" + roster size/capacity + ")" |
| MgmtCourse.NonPositiveCapacityRefusesAll | question1_university_management_system/course.py:17-46 | a course with capacity zero or below refuses every student as full |
| MgmtCourse.GradeAfterAddStudent | question1_university_management_system/main.py:85-91 | after add_student the student's own list is still empty, so add_grade fails "not enrolled" |
| MgmtDepartment.AddNew | question1_university_management_system/department.py:31-39 | succeeds exactly for a new item and appends it; otherwise "already exists" |
| MgmtDepartment.AddNewKeepsDistinct | question1_university_management_system/department.py:31-39 | the list stays distinct and gains exactly the item |
| MgmtDepartment.AddNewTwice | question1_university_management_system/department.py:31-39 | a second addition of the same item fails |
| MgmtDepartment.Names | question1_university_management_system/department.py:43 | the faculty names in list order |
| MgmtDepartment.Codes | question1_university_management_system/department.py:44 | the course codes in list order |
| MgmtDepartment.Department.constructor | question1_university_management_system/department.py:22-29 | a given head becomes the only faculty member; there are no courses |
| MgmtDepartment.Department.AddFaculty | question1_university_management_system/department.py:31-34 | the faculty list becomes `AddNew`'s result, or is unchanged with its error |
| MgmtDepartment.Department.AddCourse | question1_university_management_system/department.py:36-39 | the course list becomes `AddNew`'s result, or is unchanged with its error |
| MgmtDepartment.Department.InfoFields | question1_university_management_system/department.py:41-51 | four labelled fields: the name, the head's name or "None", and the faculty names and course codes joined by ", " when they hold text, "None" when the list is empty |
| MgmtDepartment.Department.Info | question1_university_management_system/department.py:41-51 | the text splits back into the four fields when none holds a line break |
| MgmtDepartment.HeadAddedTwice | question1_university_management_system/main.py:58-59 | adding a department's head as faculty again fails with "already exists" |
| SystemStudent.Enroll | question1_university_system/student.py:40-56 | succeeds exactly when the normalised code is non-blank, not yet held and fewer than six are held; then appends it |
| SystemStudent.EnrollKeepsCourseList | question1_university_system/student.py:40-56 | the list stays distinct, non-blank, normalised and within six |
| SystemStudent.EnrollBlank | question1_university_system/student.py:45-46 | the empty-code error happens exactly for an all-whitespace code |
| SystemStudent.EnrollTwice | question1_university_system/student.py:48-49 | enrolling again in the same code fails with "Already enrolled" |
| SystemStudent.EnrollFull | question1_university_system/student.py:51-54 | a student with six courses accepts no other |
| SystemStudent.EnrollNormalises | question1_university_system/student.py:44 | enrolling with a code or with its normalised form is the same |
| SystemStudent.Student.constructor | question1_university_system/student.py:21-38 | stores the details, with no courses and no grades |
| SystemStudent.Student.EnrollCourse | question1_university_system/student.py:40-56 | the list becomes `Enroll`'s result, or is unchanged with its error |
| SystemStudent.Student.AddGrade | question1_university_system/student.py:58-70 | the grades become `Record`'s result, or are unchanged with its error |
| SystemStudent.Student.Gpa | question1_university_system/student.py:72-85 | between 0.0 and 4.0, 0.0 with no grades, and times the count it gives the total |
| SystemStudent.Student.GradeMap | question1_university_system/student.py:87-92 | the returned dict has exactly one key per graded course, mapped to its grade |
| SystemStudent.Student.AcademicStatus | question1_university_system/student.py:94-105 | each status text exactly on its GPA band |
| SystemStudent.SeventhCourseFails | question1_university_system/student.py:51-54 | six distinct codes are accepted and the seventh fails with the limit message |
| SystemStudent.BlankCodeFails | question1_university_system/student.py:45-46 | a blank code fails and nothing is stored |
| SystemCourse.CheckArgs | question1_university_system/course.py:28-34 | passes exactly for a non-blank code, positive credits and positive capacity |
| SystemCourse.CheckArgsBlank | question1_university_system/course.py:28-30 | the empty-code error happens exactly for an all-whitespace code |
| SystemCourse.Admit | question1_university_system/course.py:46-55 | succeeds exactly when there is room, the student is new and their enrolment succeeds; the student is appended |
| SystemCourse.AdmitKeepsCourse | question1_university_system/course.py:46-55 | the roster stays distinct and within capacity, and the code ends the student's list |
| SystemCourse.Drop | question1_university_system/course.py:57-63 | succeeds exactly when the student is on the roster |
| SystemCourse.DropKeepsCourse | question1_university_system/course.py:57-63 | the student leaves the roster and the code leaves their list; everything else stays |
| SystemCourse.AdmitThenDrop | question1_university_system/course.py:46-63 | removing a student just added restores both the roster and their list |
| SystemCourse.Course.constructor | question1_university_system/course.py:20-41 | on valid arguments, stores the normalised code and the arguments with an empty roster |
| SystemCourse.Course.New | question1_university_system/course.py:20-41 | the first validation error, or a new valid empty course holding the normalised code and the given name, credits, instructor and capacity |
| SystemCourse.Course.IsFull | question1_university_system/course.py:43-44 | full exactly when the roster is at capacity |
| SystemCourse.Course.AddStudent | question1_university_system/course.py:46-55 | the roster and the student's list become `Admit`'s result, or stay unchanged with its error |
| SystemCourse.Course.RemoveStudent | question1_university_system/course.py:57-63 | the roster and the student's list become `Drop`'s result, or stay unchanged with its error; grades stay |
| SystemCourse.Course.Summary | question1_university_system/course.py:65-69 | starts with the code, " - " and the name, and ends with " (" + roster size/capacity + ")" |
| SystemCourse.CapacityTwo | question1_university_system/course.py:46-55 | a capacity-two course admits two students and refuses a third as full |
| SystemCourse.RemoveThenReadd | question1_university_system/course.py:57-63 | after a removal the same student can be added again |
| Scraper.FirstSuccess | question2_data_analysis/1_scraper.py:58-68 | the first successful attempt from a point on, or none among the remaining ones |
| Scraper.Retry | question2_data_analysis/1_scraper.py:56-69 | a response exactly when one of the three attempts succeeds |
| Scraper.AttemptsUsed | question2_data_analysis/1_scraper.py:58-68 | one to three attempts; all before the last failed; three when none succeeds |
| Scraper.RequestWithRetry | question2_data_analysis/1_scraper.py:56-69 | the loop returns `Retry`'s response after `AttemptsUsed` attempts, pausing after every failed attempt but the last |
| Scraper.PausesFollowFailures | question2_data_analysis/1_scraper.py:63-66 | a first success at attempt k follows k failures and k pauses |
| Scraper.RatingOf | question2_data_analysis/1_scraper.py:118-120 | 1 to 5 for the five words, 0 for anything else |
| Scraper.RatingWord | question2_data_analysis/1_scraper.py:118-119 | the first class other than "star-rating", or "" when there is none |
| Scraper.CategoryOf | question2_data_analysis/1_scraper.py:77-89 | "Unknown" with no response or fewer than three breadcrumbs; a fetched page with three or more gives the third, stripped |
| Scraper.ExtractCategory | question2_data_analysis/1_scraper.py:72-89 | the category from the retried detail page, with one extra pause |
| Scraper.PageBooks | question2_data_analysis/1_scraper.py:112-140 | at most one book per product |
| Scraper.PageBooksYields | question2_data_analysis/1_scraper.py:112-140 | the books are each product's yield in order |
| Scraper.PageBooksConcat | question2_data_analysis/1_scraper.py:112-140 | the products are processed independently, in order |
| Scraper.BadProductSkipped | question2_data_analysis/1_scraper.py:137-140 | a product that fails to parse is skipped and changes nothing else |
| Scraper.ScrapePage | question2_data_analysis/1_scraper.py:112-140 | the product loop appends exactly `PageBooks` and pauses `PagePauses` times, once per category-request attempt of each complete product |
| Scraper.PagePausesBounds | question2_data_analysis/1_scraper.py:112-125 | a page's products cost at most three pauses each, and none when every product raises before its category request |
| Scraper.PageResult | question2_data_analysis/1_scraper.py:100-105 | a page whose retries fail contributes nothing |
| Scraper.PageResults | question2_data_analysis/1_scraper.py:96-105 | one result per visited page |
| Scraper.PageResultsAt | question2_data_analysis/1_scraper.py:96-105 | the result for page k comes from that page's own responses alone |
| Scraper.ScrapedStep | question2_data_analysis/1_scraper.py:96-140 | visiting a page appends its books after those of the earlier pages |
| Scraper.PageWaits | question2_data_analysis/1_scraper.py:99-101 | each visited page costs at least one pause, the one after its request |
| Scraper.PageWaitsBound | question2_data_analysis/1_scraper.py:99-125 | a page of at most m products costs at most 3·(1 + m) pauses |
| Scraper.TotalPausesBounds | question2_data_analysis/1_scraper.py:96-125 | n pages cost between n and n·3·(1 + m) pauses when no page has more than m products |
| Scraper.ScrapeBooks | question2_data_analysis/1_scraper.py:92-145 | the page loop collects the books of pages 1 to 10 in order, and its pauses are `TotalPauses`: the retries, the pause after every page request and the category requests |
| Scraper.FailedPageSkipped | question2_data_analysis/1_scraper.py:103-105 | a failed page gives the same books as an empty page |
| Scraper.OtherPageUnchanged | question2_data_analysis/1_scraper.py:96-105 | one page's failure does not change another page's books |
| Scraper.LaterPagesIgnored | question2_data_analysis/1_scraper.py:96 | pages beyond the limit have no influence |
| Scraper.CsvRow | question2_data_analysis/1_scraper.py:127-135 | one cell per header field |
| Scraper.SaveToCsv | question2_data_analysis/1_scraper.py:148-161 | no file for no data; otherwise the header then one row per book |
| Scraper.SavedRatingReadsBack | question2_data_analysis/1_scraper.py:161 | the rating cell parses back to the book's rating |
| Cleaning.StripCurrency | question2_data_analysis/2_data_cleaning.py:42-47 | no '£' or 'Â' is left and every other character is kept |
| Cleaning.StripCurrencyConcat | question2_data_analysis/2_data_cleaning.py:45-46 | the removal works piece by piece, keeping order |
| Cleaning.OnlyGlyphsVanish | question2_data_analysis/2_data_cleaning.py:45-46 | text made only of the glyphs vanishes |
| Cleaning.NoGlyphsKept | question2_data_analysis/2_data_cleaning.py:45-46 | text without the glyphs is unchanged |
| Cleaning.ToNumeric | question2_data_analysis/2_data_cleaning.py:54 | coercion never leaves text; missing stays missing; a number stays; text becomes a number exactly when it parses |
| Cleaning.CleanPriceCell | question2_data_analysis/2_data_cleaning.py:42-48 | a text cell is stripped of glyphs and then coerced |
| Cleaning.PriceWithGlyphs | question2_data_analysis/2_data_cleaning.py:42-48 | "£12", even mis-decoded as "Â£12", cleans to 12 |
| Cleaning.PriceDecimalWithGlyphs | question2_data_analysis/2_data_cleaning.py:42-48 | a decimal price such as "£51.77" or "Â£51.77" cleans to its decimal value |
| Cleaning.GlyphsBeforeDecimalVanish | question2_data_analysis/2_data_cleaning.py:45-46 | removing the glyphs from pound signs before a decimal leaves the decimal |
| Cleaning.PriceWithoutDigits | question2_data_analysis/2_data_cleaning.py:48 | a price without a digit becomes missing |
| Cleaning.CleanPrice | question2_data_analysis/2_data_cleaning.py:40-49 | only the price column changes, row by row |
| Cleaning.CleanRating | question2_data_analysis/2_data_cleaning.py:52-55 | only the rating column changes, row by row |
| Cleaning.ZeroRatingKept | question2_data_analysis/2_data_cleaning.py:54 | the scraper's unknown rating 0 is kept as the number 0 |
| Cleaning.HandleMissing | question2_data_analysis/2_data_cleaning.py:58-61 | keeps exactly the complete rows |
| Cleaning.HandleMissingConcat | question2_data_analysis/2_data_cleaning.py:60 | dropna keeps row order |
| Cleaning.RemoveDuplicates | question2_data_analysis/2_data_cleaning.py:64-67 | distinct rows, the same set of rows, no more than before |
| Cleaning.RemoveDuplicatesKeepsOrder | question2_data_analysis/2_data_cleaning.py:66 | kept rows are in the order of their first occurrence |
| Cleaning.Categorize | question2_data_analysis/2_data_cleaning.py:73-79 | Budget below 20, Mid-range from 20 to 40, Premium above 40; each both ways |
| Cleaning.CategorizeMonotone | question2_data_analysis/2_data_cleaning.py:73-79 | a dearer book is never in a cheaper band |
| Cleaning.InStock | question2_data_analysis/2_data_cleaning.py:85-88 | no flag for a non-text cell; true exactly when "in stock" occurs, ignoring case |
| Cleaning.InStockPrefix | question2_data_analysis/2_data_cleaning.py:87 | "In stock (…)" is in stock |
| Cleaning.InStockIgnoresCase | question2_data_analysis/2_data_cleaning.py:87 | upper-casing the text does not change the flag |
| Cleaning.Derive | question2_data_analysis/2_data_cleaning.py:108-109 | the derived columns leave the row itself unchanged |
| Cleaning.Prepared | question2_data_analysis/2_data_cleaning.py:104-107 | distinct complete rows with numeric price and rating, each a parsed input row |
| Cleaning.Clean | question2_data_analysis/2_data_cleaning.py:97-109 | one output per prepared row, each with the band of its price and the flag of its availability |
| Cleaning.CompleteRowSurvives | question2_data_analysis/2_data_cleaning.py:104-107 | a complete row whose price parses survives, whatever its rating |
| Stats.Min | question2_data_analysis/3_analysis.py:63 | the smallest price, which is one of them |
| Stats.Max | question2_data_analysis/3_analysis.py:63 | the largest price, which is one of them |
| Stats.Range | question2_data_analysis/3_analysis.py:63 | non-negative and at least every difference of two prices |
| Stats.Mean | question2_data_analysis/3_analysis.py:55 | between the minimum and the maximum |
| Stats.MeanWithin | question2_data_analysis/3_analysis.py:55 | the total over the count lies between the minimum and the maximum |
| Stats.SampleVariance | question2_data_analysis/3_analysis.py:62 | defined exactly with two or more values (ddof=1), and then non-negative |
| Stats.Mode | question2_data_analysis/3_analysis.py:59-60 | a value of highest count, the smallest among ties |
| Stats.InsertAscending | question2_data_analysis/3_analysis.py:56 | inserting into a sorted list keeps it sorted and adds exactly the value |
| Stats.Sort | question2_data_analysis/3_analysis.py:56 | a sorted permutation |
| Stats.Interpolate | question2_data_analysis/3_analysis.py:102-103 | linear interpolation stays between the two neighbouring values |
| Stats.QuantilePosition | question2_data_analysis/3_analysis.py:102-103 | the position q·(n−1) split into an index and a fraction in [0, 1) |
| Stats.QuantileOfSorted | question2_data_analysis/3_analysis.py:102-103 | between the first and last of the sorted values |
| Stats.Quantile | question2_data_analysis/3_analysis.py:102-103 | between the minimum and the maximum |
| Stats.Median | question2_data_analysis/3_analysis.py:56 | between the minimum and the maximum |
| Stats.InterpolateMonotone | question2_data_analysis/3_analysis.py:102-103 | a later position interpolates no lower |
| Stats.QuantilePositionMonotone | question2_data_analysis/3_analysis.py:102-103 | a larger q gives a later position |
| Stats.QuantileOfSortedMonotone | question2_data_analysis/3_analysis.py:102-103 | a larger q gives no smaller quantile of a sorted list |
| Stats.QuantileMonotone | question2_data_analysis/3_analysis.py:102-104 | a larger q gives no smaller quantile, so Q1 ≤ Q3 |
| Stats.CountAtKey | question2_data_analysis/3_analysis.py:87 | in a key-sorted table, a key's count is its entry |
| Stats.Bump | question2_data_analysis/3_analysis.py:87 | counting one more value keeps keys sorted and adds exactly one to that value's count |
| Stats.Tally | question2_data_analysis/3_analysis.py:87 | sorted keys, positive counts, one count per value matching its occurrences, and a total equal to the length |
| Stats.TallyCounts | question2_data_analysis/3_analysis.py:87 | every entry is a value of the column with its count, and every value is counted |
| Analysis.Parse | question2_data_analysis/3_analysis.py:42-43 | one item per kept row |
| Analysis.ParseConcat | question2_data_analysis/3_analysis.py:42-43 | parsing works row by row, keeping order |
| Analysis.Items | question2_data_analysis/3_analysis.py:42-46 | the parsed rows that have price, rating and category, in order |
| Analysis.ItemsConcat | question2_data_analysis/3_analysis.py:42-46 | loading works block by block, keeping order |
| Analysis.KeptRowLoaded | question2_data_analysis/3_analysis.py:46 | a row with the three values is loaded |
| Analysis.LoadData | question2_data_analysis/3_analysis.py:31-47 | the missing-columns error exactly when a required column is absent, naming the missing ones; otherwise the loaded items |
| Analysis.Prices | question2_data_analysis/3_analysis.py:53 | the price column in order |
| Analysis.Ratings | question2_data_analysis/3_analysis.py:87 | the rating column in order |
| Analysis.Describe | question2_data_analysis/3_analysis.py:50-63 | none for an empty table; otherwise min and max are prices bounding all, mean and median lie between, range is max − min, mode is most frequent, std exists from two rows |
| Analysis.RatingCounts | question2_data_analysis/3_analysis.py:87 | ascending ratings with their counts, adding up to the number of rows |
| Analysis.InsertByValue | question2_data_analysis/3_analysis.py:80 | inserting into a descending list keeps it descending and adds exactly the entry |
| Analysis.SortByValueDesc | question2_data_analysis/3_analysis.py:80 | a descending permutation |
| Analysis.CategoryCounts | question2_data_analysis/3_analysis.py:75 | one entry per distinct category with its count, in descending order |
| Analysis.TopCategories | question2_data_analysis/3_analysis.py:75 | the first five, or all when there are fewer |
| Analysis.TopCategoriesCounted | question2_data_analysis/3_analysis.py:75 | each top entry is a category with its true count |
| Analysis.TopInCategories | question2_data_analysis/3_analysis.py:75 | every top category occurs in the data |
| Analysis.TopAreMostFrequent | question2_data_analysis/3_analysis.py:75 | no category outside the top is counted more than any category in it |
| Analysis.InCategory | question2_data_analysis/3_analysis.py:77 | exactly the rows of the category |
| Analysis.CategoryMean | question2_data_analysis/3_analysis.py:78-79 | lies between the category's cheapest and dearest price |
| Analysis.SameKeys | question2_data_analysis/3_analysis.py:80 | re-ordering keeps the set of categories |
| Analysis.TopAverages | question2_data_analysis/3_analysis.py:76-79 | each top category with its mean price |
| Analysis.AveragePriceTable | question2_data_analysis/3_analysis.py:76-81 | the top categories' mean prices, in descending order |
| Analysis.IqrFences | question2_data_analysis/3_analysis.py:100-107 | none for no prices; otherwise Q1 and Q3, IQR ≥ 0, fences 1.5 IQR out, with lower ≤ Q1 ≤ Q3 ≤ upper inside the price range |
| Analysis.Outliers | question2_data_analysis/3_analysis.py:109 | exactly the rows priced beyond a fence |
| Analysis.OutliersInOrder | question2_data_analysis/3_analysis.py:109 | outliers keep row order |
| Analysis.OutliersOutsideQuartiles | question2_data_analysis/3_analysis.py:106-109 | no outlier lies between the quartiles |
| Analysis.PearsonConclusion | question2_data_analysis/3_analysis.py:134-137 | significant exactly when p < 0.05 |
| Analysis.SmallerPStaysSignificant | question2_data_analysis/3_analysis.py:134 | a smaller p-value stays significant |
| Analysis.GroupOf | question2_data_analysis/3_analysis.py:144-147 | Fiction or Nonfiction exactly for those stripped, lower-cased names |
| Analysis.Members | question2_data_analysis/3_analysis.py:146-147 | exactly the rows of the group |
| Analysis.Sample | question2_data_analysis/3_analysis.py:146-147 | one price per member |
| Analysis.GroupsDisjoint | question2_data_analysis/3_analysis.py:146-147 | no row is in both groups, so the samples fit in the table |
| Analysis.TTestStep | question2_data_analysis/3_analysis.py:152-166 | too few exactly when a group has under two rows; otherwise reject exactly when p < 0.05 |
| Analysis.TTestSharesRule | question2_data_analysis/3_analysis.py:134-166 | the t-test rejects exactly when the correlation test would call p significant |

## Left out

- Faculty and Staff of `question1_university_management_system` appear only as a
  Person with a role tag. Their extra fields and `get_info` texts are not modelled.
- `question1_university_system/person.py` is not part of this model.
- Faculty and Staff of `question1_university_system` are not modelled.
- Student `get_info` in both variants is not modelled. It formats the GPA as a float
  with two decimals, which the model does not reproduce.
- Grades are modelled as reals. A grade that is not a number, which `float()` would
  reject, is not modelled.
- The Pearson r, the Welch t-statistic and the p-values come from scipy. Each
  p-value is a parameter of the decision it feeds.
- The standard deviation is a square root. `Describe` keeps the sample variance
  instead.
- All I/O is left out:
  - HTTP requests and the exceptions they raise are modelled as a list of attempt
    outcomes;
  - `sleep_polite`'s random delay is modelled as a count of pauses;
  - BeautifulSoup parsing is modelled as pre-extracted product fields;
  - CSV files, `os.makedirs`, printing, `report_basic_stats` and `save_cleaned_data`
    are not modelled.
- Scraper.RequestWithRetry: the unreachable `return None` after the loop is not
  modelled.
- Only the pandas values NaN, text and number are modelled. Other NA tokens that
  `read_csv` recognises are not.
- Analysis.CategoryCounts: pandas breaks ties in `value_counts` and `sort_values`
  by its own rules. The model only promises a descending order, a permutation and
  the right counts.
- Analysis.AveragePriceTable: ties in the average price are ordered the same way as
  in `CategoryCounts`.
- The `category_norm` column is not modelled as a column. It appears only as the
  grouping in `Analysis.GroupOf`.
- `Analysis.LoadData` returns the set of missing columns, not the formatted set in
  the error message.
- `4_visualization.py` and `5_prediction.py` are not modelled.
- Case mapping and whitespace cover ASCII only. Python's Unicode `upper`, `lower`
  and `strip` are wider.
- `main.py` is not modelled as a program. Only the steps that the lemmas and demo
  methods restate are modelled.
- SystemCourse.Course.New, SystemCourse.CheckArgs and MgmtCourse.Course.constructor take
  credits and capacity as integers. `int()` in
  `question1_university_system/course.py:31-40` and
  `question1_university_management_system/course.py:27-29` also truncates floats and
  parses numeric strings; that coercion is not modelled.
- Numbers.ParseNumber accepts plain decimal text with an optional sign. Exponents,
  "inf" and "nan" spellings, and surrounding whitespace, which `pd.to_numeric`
  accepts, are not modelled.
