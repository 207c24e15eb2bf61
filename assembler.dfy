/** The per-table assembly loop of `scrap()` (main.py:81-138).

    `AssembleTable` is the loop as written. `Assemble` is its specification,
    stated row by row over the table's body (every row but the heading) by the
    recursive functions `Opened`, `Courses`, `FirstTotal` and `LeadingCourse`;
    the lemmas in the second half of this module and in `AssemblerFacts` relate
    them to the rows. */
module Assembler {
  import opened Rows

  datatype Option<T> = None | Some(value: T)

  /** The exception `categories[-1]` raises on a course row that meets an empty
      category list, with the table's index and the row's index in the table. */
  datatype AssemblyError = IndexError(table: nat, row: nat)

  datatype Result<T> = Success(value: T) | Failure(error: AssemblyError)

  /** One transcript dict. `courses` is the table's single course list, the one
      object every category with `hasCourses` refers to; `total` is absent when
      the "total" key was never set. */
  datatype Transcript = Transcript(
    level: nat, categories: seq<Category>, courses: seq<Course>, total: Option<Total>)

  /** The rows the loop looks at: all but row 0, the heading. */
  function Body(rows: Table): (s: seq<Row>)
  {
    if rows == [] then [] else rows[1..]
  }

  /** The position in `s` of a course row that comes before every category row
      of `s`, if there is one (the first such row). */
  function LeadingCourse(s: seq<Row>): (k: Option<nat>)
  {
    if s == [] then None
    else if |s[0]| == CourseWidth then Some(0)
    else if |s[0]| == CategoryWidth then None
    else match LeadingCourse(s[1..])
      case None => None
      case Some(k) => Some(k + 1)
  }

  /** The categories the 2-cell rows of `s` open, in row order. A category gets
      its "courses" key when a course row follows it before the next category
      row, that is, when it is the last category when some course arrives. */
  function Opened(s: seq<Row>): (cs: seq<Category>)
  {
    if s == [] then []
    else if |s[0]| == CategoryWidth
    then [Category(s[0][0], s[0][1], LeadingCourse(s[1..]).Some?)] + Opened(s[1..])
    else Opened(s[1..])
  }

  /** The courses the 9-cell rows of `s` add to the shared list, in row order. */
  function Courses(s: seq<Row>): (cs: seq<Course>)
  {
    if s == [] then []
    else if |s[0]| == CourseWidth then [MakeCourse(s[0])] + Courses(s[1..])
    else Courses(s[1..])
  }

  /** The total read from the first 8-cell row of `s`, if any. */
  function FirstTotal(s: seq<Row>): (t: Option<Total>)
  {
    if s == [] then None
    else if |s[0]| == TotalWidth then Some(MakeTotal(s[0]))
    else FirstTotal(s[1..])
  }

  /** What table number `table` (0-based) of the page assembles to. */
  function Assemble(table: nat, rows: Table): (r: Result<Transcript>)
  {
    var s := Body(rows);
    match LeadingCourse(s)
    case Some(k) => Failure(IndexError(table, k + 1))
    case None => Success(Transcript(table + 1, Opened(s), Courses(s), FirstTotal(s)))
  }

  /** `categories[-1].setdefault("courses", courses)` on a non-empty list. */
  function MarkLast(cs: seq<Category>): (r: seq<Category>)
    requires cs != []
  {
    cs[|cs| - 1 := cs[|cs| - 1].(hasCourses := true)]
  }

  /** The loop of main.py:87-137 for one table. */
  method AssembleTable(table: nat, rows: Table) returns (r: Result<Transcript>)
    ensures r == Assemble(table, rows)
  {
    var categories: seq<Category> := [];
    var courses: seq<Course> := [];
    var total: Option<Total> := None;
    for j := 0 to |rows|
      invariant categories == Opened(Body(rows[..j]))
      invariant courses == Courses(Body(rows[..j]))
      invariant total == FirstTotal(Body(rows[..j]))
      invariant LeadingCourse(Body(rows[..j])) == None
    {
      if j == 0 {
        // the heading row
        continue;
      }
      ghost var done := Body(rows[..j]);
      var cells := rows[j];
      BodySnoc(rows, j);
      OpenedSnoc(done, cells);
      CoursesSnoc(done, cells);
      FirstTotalSnoc(done, cells);
      LeadingCourseSnoc(done, cells);
      if |cells| == CategoryWidth {
        categories := categories + [MakeCategory(cells)];
      } else if |cells| == CourseWidth {
        courses := courses + [MakeCourse(cells)];
        if categories == [] {
          LeadingCourseExtend(done + [cells], rows[j + 1..]);
          BodySplit(rows, j + 1);
          return Failure(IndexError(table, j));
        }
        var last := |categories| - 1;
        if !categories[last].hasCourses {
          categories := categories[last := categories[last].(hasCourses := true)];
        } else {
          assert categories == MarkLast(categories);
        }
      } else if |cells| == TotalWidth {
        if total == None {
          total := Some(MakeTotal(cells));
        }
      }
    }
    assert rows[..|rows|] == rows;
    return Success(Transcript(table + 1, categories, courses, total));
  }

  // ---- One more row: how each specification function grows ----

  lemma BodySnoc(rows: Table, j: nat)
    requires 1 <= j < |rows|
    ensures Body(rows[..j + 1]) == Body(rows[..j]) + [rows[j]]
  {
    assert rows[..j + 1][1..] == rows[..j][1..] + [rows[j]];
  }

  lemma BodySplit(rows: Table, j: nat)
    requires 1 <= j <= |rows|
    ensures Body(rows) == Body(rows[..j]) + rows[j..]
  {
    assert rows[1..] == rows[..j][1..] + rows[j..];
  }

  lemma {:induction false} LeadingCourseSnoc(s: seq<Row>, r: Row)
    ensures LeadingCourse(s + [r]) ==
      if LeadingCourse(s).Some? then LeadingCourse(s)
      else if Opened(s) == [] && |r| == CourseWidth then Some(|s|)
      else None
  {
    if s != [] {
      assert (s + [r])[1..] == s[1..] + [r];
      LeadingCourseSnoc(s[1..], r);
    }
  }

  /** Once a course row has met an empty category list, later rows do not matter. */
  lemma {:induction false} LeadingCourseExtend(s: seq<Row>, t: seq<Row>)
    requires LeadingCourse(s).Some?
    ensures LeadingCourse(s + t) == LeadingCourse(s)
  {
    assert (s + t)[0] == s[0];
    if |s[0]| != CourseWidth {
      assert (s + t)[1..] == s[1..] + t;
      LeadingCourseExtend(s[1..], t);
    }
  }

  lemma MarkLastCons(c: Category, cs: seq<Category>)
    requires cs != []
    ensures MarkLast([c] + cs) == [c] + MarkLast(cs)
  {
  }

  lemma {:induction false} OpenedSnoc(s: seq<Row>, r: Row)
    ensures Opened(s + [r]) ==
      if |r| == CategoryWidth then Opened(s) + [MakeCategory(r)]
      else if |r| == CourseWidth && Opened(s) != [] then MarkLast(Opened(s))
      else Opened(s)
  {
    if s == [] {
      assert [r][1..] == [];
    } else {
      assert (s + [r])[1..] == s[1..] + [r];
      OpenedSnoc(s[1..], r);
      LeadingCourseSnoc(s[1..], r);
      if |s[0]| == CategoryWidth {
        var c := Category(s[0][0], s[0][1], LeadingCourse(s[1..]).Some?);
        assert Opened(s) == [c] + Opened(s[1..]);
        if |r| == CourseWidth && Opened(s[1..]) != [] {
          MarkLastCons(c, Opened(s[1..]));
        }
      }
    }
  }

  lemma {:induction false} CoursesSnoc(s: seq<Row>, r: Row)
    ensures Courses(s + [r]) ==
      if |r| == CourseWidth then Courses(s) + [MakeCourse(r)] else Courses(s)
  {
    if s == [] {
      assert [r][1..] == [];
    } else {
      assert (s + [r])[1..] == s[1..] + [r];
      CoursesSnoc(s[1..], r);
    }
  }

  lemma {:induction false} FirstTotalSnoc(s: seq<Row>, r: Row)
    ensures FirstTotal(s + [r]) ==
      if FirstTotal(s).Some? then FirstTotal(s)
      else if |r| == TotalWidth then Some(MakeTotal(r))
      else None
  {
    if s == [] {
      assert [r][1..] == [];
    } else {
      assert (s + [r])[1..] == s[1..] + [r];
      FirstTotalSnoc(s[1..], r);
    }
  }
}
