# GradeNotify transcript scraper, modelled in Dafny

GradeNotify reads a student's transcript page from a university portal. Its
`scrap()` function (main.py) walks every `transdetail` table of the page. It
walks every row of each table except row 0, the heading, and sorts the row by
its number of `<td>` cells:

- 2 cells open a new category (code, title);
- 9 cells are a course (code, title, credits, graded, grade, gp, percent,
  credit points, gpa), appended to the table's single course list. That list
  is then attached with `setdefault` to the category opened last. A course row
  met while no category is open raises `IndexError`;
- 8 cells are a total, of which only the first is kept (`setdefault`); cell 0
  is a label and is dropped;
- any other count is ignored.

Table i becomes a transcript `{level: i+1, categories, total?}`. It is appended
to the module-level list `data["transcripts"]`, which every call of `scrap()`
extends and never resets.

The model works on the page as already split into cells: a table is a
`seq<Row>`, a row a `seq<string>` of raw cell texts (nothing is converted to
numbers). Modules:

- `Rows` (rows.dfy): cells, the three row widths, and the course, total and
  category records built from a row.
- `Assembler` (assembler.dfy): `AssembleTable`, the per-table loop as an
  imperative method, proved equal to `Assemble`. `Assemble` is a row-by-row
  specification made of `Opened` (categories), `Courses` (the shared list),
  `FirstTotal` and `LeadingCourse` (the course row that crashes, if any).
- `AssemblerFacts` (assembler_facts.dfy): those specification functions stated
  against the rows by position and count. Also `Records`, the serialised view
  in which the shared list appears under every category whose "courses" key
  is set.
- `AssemblerExample`: one worked table.
- `Scraper` (scraper.dfy): the class `Data` for the global `data` dict, with
  `Scrap`, the loop over tables, and `Run`, its specification.

The aliasing of main.py:88 and 120-121 is modelled explicitly. There is one
course list per table. Each category has a `hasCourses` flag, which is true
once `setdefault("courses", courses)` has run on it. In the serialised form,
every flagged category therefore holds the whole list, including courses that
arrived under earlier categories (`SharedCourseList`,
`TwoCategoriesShareCourses`).

The date of `data` comes from `datetime.now()`. Here it is the constructor's
parameter.

## Model

| member | source | states |
|---|---|---|
| `Rows.MakeCategory` | main.py:97-103 | a 2-cell row opens a category whose code and title are cells 0 and 1 and that has no "courses" key yet |
| `Rows.CourseRoundTrip` | main.py:106-118 | a course keeps all nine cells in the fixed field order: reading a row and writing it back gives the row, and two rows give the same course only if they are equal |
| `Rows.TotalRoundTrip` | main.py:123-133 | a total keeps exactly cells 1..7 in field order; cell 0 has no influence |
| `Assembler.AssembleTable` | main.py:84-137 | the per-table loop (heading skipped, 2/9/8-cell dispatch, `setdefault` on the last category and on the total, the `IndexError` return) yields exactly `Assemble(table, rows)` |
| `Assembler.LeadingCourseSnoc` | main.py:106-121 | one more row creates a crashing course exactly when it has 9 cells and no category has been opened yet; an earlier crash stays the one reported |
| `Assembler.LeadingCourseExtend` | main.py:121 | once a course row has met an empty category list, no later row changes the outcome |
| `Assembler.OpenedSnoc` | main.py:96-121 | a 2-cell row appends a fresh category; a 9-cell row sets the "courses" key of the last category only; every other row leaves the categories as they are |
| `Assembler.CoursesSnoc` | main.py:105-120 | a 9-cell row appends its course to the shared list; no other row changes the list |
| `Assembler.FirstTotalSnoc` | main.py:123-135 | an 8-cell row sets the total only if none is set yet; no other row changes it |
| `AssemblerFacts.LeadingCourseAt` | main.py:121 | the crash is reported at row k exactly when row k is the first 9-cell row of the body and no 2-cell row comes before it |
| `AssemblerFacts.LeadingCourseNone` | main.py:106-121 | a table does not crash exactly when every 9-cell row has some 2-cell row before it |
| `AssemblerFacts.OpenedLength` | main.py:97-103 | there is one category per 2-cell row |
| `AssemblerFacts.OpenedAt` | main.py:97-121 | the 2-cell row at position i is the category whose index is the number of 2-cell rows before it, with its cells as code and title; it has a "courses" key exactly when a 9-cell row follows it before the next 2-cell row |
| `AssemblerFacts.CoursesLength` | main.py:106-120 | the shared list has one course per 9-cell row |
| `AssemblerFacts.CourseAt` | main.py:106-120 | the 9-cell row at position i is the course whose index in the shared list is the number of 9-cell rows before it |
| `AssemblerFacts.SomeCategoryHoldsCourses` | main.py:88-121 | without a crash, some category has a "courses" key exactly when the table has a course |
| `AssemblerFacts.FirstTotalAt` | main.py:123-135 | the total comes from the first 8-cell row of the body |
| `AssemblerFacts.FirstTotalNone` | main.py:123-135 | there is no total exactly when no body row has 8 cells |
| `AssemblerFacts.LaterTotalsIgnored` | main.py:135 | rows after the first total cannot change it |
| `AssemblerFacts.IgnoredRow` | main.py:96-135 | inserting a row whose cell count is not 2, 8 or 9 anywhere changes no category, course or total, and does not decide whether the table crashes |
| `AssemblerFacts.HeaderIgnored` | main.py:89-92 | row 0 is skipped whatever its cells |
| `AssemblerFacts.AssembleOutcome` | main.py:84-137 | a table fails exactly when a non-heading 9-cell row has no 2-cell row between the heading and it, and the error names the first such row. Otherwise the transcript has level = index + 1, one category per 2-cell row, one course per 9-cell row, and a total exactly when some non-heading row has 8 cells |
| `AssemblerFacts.SharedCourseList` | main.py:88-121 | in the serialised transcript, every category with a "courses" key holds the whole course list of the table; such a key exists exactly when the table has a course |
| `AssemblerExample.TwoCategoriesShareCourses` | main.py:87-137 | a table with two categories, one course under each, and a total: both categories end up holding both courses |
| `Scraper.Data.constructor` | main.py:44-45 | `data` starts with the given date and an empty transcript list |
| `Scraper.Data.Scrap` | main.py:81-141 | one call appends `Run(tables).appended` to the existing list without resetting it, and reports `Run(tables).failure` |
| `Scraper.RunFromLength` | main.py:81-138 | a call appends at most one transcript per table, and one per table exactly when it does not fail |
| `Scraper.RunFromAt` | main.py:81-138 | the k-th transcript appended from tables numbered from `first` is that of table `first + k`, with level `first + k + 1` |
| `Scraper.RunFromFailure` | main.py:81-138 | a failing call stops at the first failing table: its error is that table's own, and only the tables before it were appended |
| `Scraper.RunShape` | main.py:81-138 | in a call, transcript k comes from table k with level k + 1; a completed call appends one transcript per table; a call that fails on table k appends exactly the k transcripts before it |
| `Scraper.RunSucceeds` | main.py:81-138 | a call completes exactly when every table assembles without error |

## Left out

- `main()` (main.py:47-56): the HTTP request to the portal and the write of `index.html` are network and file I/O.
- `load()` and `save()` (main.py:59-71), the read of `index.html` in `scrap()` (main.py:75-76) and the final `save(data)` (main.py:142): file I/O. `Scrap` ends by returning `None` where the source calls `save(data)`. The `Some` failure it returns stands for the `IndexError` that Python raises; in that case `save` is never reached, but the transcripts of earlier tables stay in the global list.
- BeautifulSoup (main.py:78-79, 82, 94): finding the `transdetail` tables, their `tr` rows and `td` cells, and `.text` belong to a foreign library. The input is given already split into tables of rows of cell texts.
- `datetime.now().isoformat()` (main.py:44): a clock read. The date is the constructor's parameter.
- `test_data` (main.py:8-43): sample data that no code reads.
- `data.setdefault("transcripts", transcripts)` (main.py:141): a no-op, because the key is always present and holds the same list object. It is not modelled further.
- Key order in the produced dicts: "total", when set, is inserted before "categories". Python keeps this order, but records here have no key order.
- Object identity: the one shared course list is represented by a flag on each category plus one list per transcript, not by references. `scrap()` never changes the list after its table's loop ends, so this loses nothing observable.
- The `IndexError` carries the table index and the row index. Python's exception carries neither. In Python, the course is appended to the local list before the crash; that list is discarded with the table, so the model does not record it.

