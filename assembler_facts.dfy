/** What one table assembles to, stated against the rows themselves: by
    position and by count, with no reference to how the specification functions
    of `Assembler` recurse. */
module AssemblerFacts {
  import opened Rows
  import opened Assembler

  /** The number of rows of `s` with exactly `w` cells. */
  function CountWidth(s: seq<Row>, w: nat): (n: nat)
  {
    if s == [] then 0 else (if |s[0]| == w then 1 else 0) + CountWidth(s[1..], w)
  }

  /** A category dict as it is serialised: the shared course list appears under
      every category whose "courses" key was set. */
  datatype CategoryRecord = CategoryRecord(code: Cell, title: Cell, courses: Option<seq<Course>>)

  function Records(t: Transcript): (r: seq<CategoryRecord>)
  {
    seq(|t.categories|, k requires 0 <= k < |t.categories| =>
      var c := t.categories[k];
      CategoryRecord(c.code, c.title, if c.hasCourses then Some(t.courses) else None))
  }

  // ---- The crash on a course row before any category ----

  /** `LeadingCourse(s)` is `Some(k)` exactly when row k is the first course row
      of `s` and no category row comes before it. */
  lemma {:induction false} LeadingCourseAt(s: seq<Row>, k: nat)
    ensures LeadingCourse(s) == Some(k) <==>
      (k < |s| && |s[k]| == CourseWidth &&
       forall i :: 0 <= i < k ==> |s[i]| != CategoryWidth && |s[i]| != CourseWidth)
  {
    if s != [] && k > 0 {
      LeadingCourseAt(s[1..], k - 1);
      if k < |s| {
        assert s[k] == s[1..][k - 1];
        if forall i :: 0 <= i < k ==> |s[i]| != CategoryWidth && |s[i]| != CourseWidth {
          forall i | 0 <= i < k - 1
            ensures |s[1..][i]| != CategoryWidth && |s[1..][i]| != CourseWidth
          {
            assert s[1..][i] == s[i + 1];
          }
        }
        if |s[0]| != CategoryWidth && |s[0]| != CourseWidth &&
           forall i :: 0 <= i < k - 1 ==> |s[1..][i]| != CategoryWidth && |s[1..][i]| != CourseWidth
        {
          forall i | 0 <= i < k ensures |s[i]| != CategoryWidth && |s[i]| != CourseWidth {
            if i > 0 { assert s[i] == s[1..][i - 1]; }
          }
        }
      }
    }
  }

  /** `LeadingCourse(s)` is absent exactly when every course row of `s` has a
      category row somewhere before it. */
  lemma {:induction false} LeadingCourseNone(s: seq<Row>)
    ensures LeadingCourse(s) == None <==>
      forall k :: 0 <= k < |s| && |s[k]| == CourseWidth ==>
        exists i :: 0 <= i < k && |s[i]| == CategoryWidth
  {
    if s != [] {
      LeadingCourseNone(s[1..]);
      if |s[0]| == CategoryWidth {
        forall k | 0 <= k < |s| && |s[k]| == CourseWidth
          ensures exists i :: 0 <= i < k && |s[i]| == CategoryWidth
        {
          assert |s[0]| == CategoryWidth;
        }
      } else if |s[0]| != CourseWidth {
        if LeadingCourse(s) == None {
          forall k | 0 <= k < |s| && |s[k]| == CourseWidth
            ensures exists i :: 0 <= i < k && |s[i]| == CategoryWidth
          {
            assert s[1..][k - 1] == s[k];
            var i :| 0 <= i < k - 1 && |s[1..][i]| == CategoryWidth;
            assert s[i + 1] == s[1..][i];
          }
        } else {
          var k :| 0 <= k < |s[1..]| && |s[1..][k]| == CourseWidth &&
            !(exists i :: 0 <= i < k && |s[1..][i]| == CategoryWidth);
          assert s[k + 1] == s[1..][k];
          forall i | 0 <= i < k + 1 ensures |s[i]| != CategoryWidth {
            if i > 0 { assert s[i] == s[1..][i - 1]; }
          }
        }
      }
    }
  }

  // ---- Categories: one per 2-cell row, in row order ----

  lemma {:induction false} OpenedLength(s: seq<Row>)
    ensures |Opened(s)| == CountWidth(s, CategoryWidth)
  {
    if s != [] { OpenedLength(s[1..]); }
  }

  /** The 2-cell row at position i opens the category whose index is the number
      of 2-cell rows before it; that category has a "courses" key exactly when
      a course row follows before the next category row. */
  lemma {:induction false} OpenedAt(s: seq<Row>, i: nat)
    requires i < |s| && |s[i]| == CategoryWidth
    ensures CountWidth(s[..i], CategoryWidth) < |Opened(s)|
    ensures Opened(s)[CountWidth(s[..i], CategoryWidth)] ==
      Category(s[i][0], s[i][1], LeadingCourse(s[i + 1..]).Some?)
  {
    OpenedLength(s);
    if i > 0 {
      OpenedAt(s[1..], i - 1);
      assert s[..i][1..] == s[1..][..i - 1];
      assert s[1..][i - 1 + 1..] == s[i + 1..];
      OpenedLength(s[1..]);
    }
  }

  // ---- Courses: one per 9-cell row, in row order ----

  lemma {:induction false} CoursesLength(s: seq<Row>)
    ensures |Courses(s)| == CountWidth(s, CourseWidth)
  {
    if s != [] { CoursesLength(s[1..]); }
  }

  /** The 9-cell row at position i is the course whose index in the shared list
      is the number of 9-cell rows before it. */
  lemma {:induction false} CourseAt(s: seq<Row>, i: nat)
    requires i < |s| && |s[i]| == CourseWidth
    ensures CountWidth(s[..i], CourseWidth) < |Courses(s)|
    ensures Courses(s)[CountWidth(s[..i], CourseWidth)] == MakeCourse(s[i])
  {
    CoursesLength(s);
    if i > 0 {
      CourseAt(s[1..], i - 1);
      assert s[..i][1..] == s[1..][..i - 1];
      CoursesLength(s[1..]);
    }
  }

  /** With no crash, some category carries the course list exactly when the
      table has a course row. */
  lemma {:induction false} SomeCategoryHoldsCourses(s: seq<Row>)
    requires LeadingCourse(s) == None
    ensures (exists k :: 0 <= k < |Opened(s)| && Opened(s)[k].hasCourses) <==> Courses(s) != []
  {
    if s != [] {
      var rest := s[1..];
      if |s[0]| == CategoryWidth {
        var c := Category(s[0][0], s[0][1], LeadingCourse(rest).Some?);
        assert Opened(s) == [c] + Opened(rest);
        if LeadingCourse(rest).Some? {
          LeadingCourseHasCourse(rest);
          assert Opened(s)[0].hasCourses;
        } else {
          SomeCategoryHoldsCourses(rest);
          if exists k :: 0 <= k < |Opened(s)| && Opened(s)[k].hasCourses {
            var k :| 0 <= k < |Opened(s)| && Opened(s)[k].hasCourses;
            assert Opened(rest)[k - 1] == Opened(s)[k];
          }
          if Courses(rest) != [] {
            var k :| 0 <= k < |Opened(rest)| && Opened(rest)[k].hasCourses;
            assert Opened(s)[k + 1] == Opened(rest)[k];
          }
        }
      } else if |s[0]| != CourseWidth {
        SomeCategoryHoldsCourses(rest);
        assert Opened(s) == Opened(rest) && Courses(s) == Courses(rest);
      }
    }
  }

  lemma {:induction false} LeadingCourseHasCourse(s: seq<Row>)
    requires LeadingCourse(s).Some?
    ensures Courses(s) != []
  {
    if |s[0]| != CourseWidth { LeadingCourseHasCourse(s[1..]); }
  }

  // ---- The total: only the first 8-cell row counts ----

  lemma {:induction false} FirstTotalAt(s: seq<Row>, j: nat)
    requires j < |s| && |s[j]| == TotalWidth
    requires forall i :: 0 <= i < j ==> |s[i]| != TotalWidth
    ensures FirstTotal(s) == Some(MakeTotal(s[j]))
  {
    if j > 0 {
      assert |s[0]| != TotalWidth;
      FirstTotalAt(s[1..], j - 1);
    }
  }

  lemma {:induction false} FirstTotalNone(s: seq<Row>)
    ensures FirstTotal(s) == None <==> forall i :: 0 <= i < |s| ==> |s[i]| != TotalWidth
  {
    if s != [] {
      FirstTotalNone(s[1..]);
      assert forall i :: 0 < i < |s| ==> s[i] == s[1..][i - 1];
    }
  }

  /** Rows after the first total cannot change it. */
  lemma {:induction false} LaterTotalsIgnored(s: seq<Row>, t: seq<Row>)
    requires FirstTotal(s).Some?
    ensures FirstTotal(s + t) == FirstTotal(s)
  {
    assert (s + t)[0] == s[0];
    if |s[0]| != TotalWidth {
      assert (s + t)[1..] == s[1..] + t;
      LaterTotalsIgnored(s[1..], t);
    }
  }

  // ---- Rows of any other width ----

  /** Inserting a row whose cell count is not 2, 8 or 9 anywhere changes no
      category, course or total, and does not decide whether the table crashes. */
  lemma {:induction false} IgnoredRow(s: seq<Row>, k: nat, r: Row)
    requires k <= |s|
    requires |r| != CategoryWidth && |r| != TotalWidth && |r| != CourseWidth
    ensures Opened(s[..k] + [r] + s[k..]) == Opened(s)
    ensures Courses(s[..k] + [r] + s[k..]) == Courses(s)
    ensures FirstTotal(s[..k] + [r] + s[k..]) == FirstTotal(s)
    ensures LeadingCourse(s[..k] + [r] + s[k..]).Some? == LeadingCourse(s).Some?
  {
    var u := s[..k] + [r] + s[k..];
    if k == 0 {
      assert u == [r] + s;
      assert u[1..] == s;
    } else {
      IgnoredRow(s[1..], k - 1, r);
      assert u[0] == s[0];
      assert u[1..] == s[1..][..k - 1] + [r] + s[1..][k - 1..];
    }
  }

  // ---- A whole table ----

  /** Row 0 is skipped whatever it holds. */
  lemma HeaderIgnored(table: nat, h: Row, h': Row, rest: seq<Row>)
    ensures Assemble(table, [h] + rest) == Assemble(table, [h'] + rest)
  {
    assert ([h] + rest)[1..] == rest == ([h'] + rest)[1..];
  }

  /** A table fails exactly when some non-heading 9-cell row has no 2-cell row
      between the heading and it; the error names the first such row. A table
      that does not fail yields level `table + 1` with one category per 2-cell
      row, one course per 9-cell row, and a total exactly when some non-heading
      row has 8 cells. */
  lemma AssembleOutcome(table: nat, rows: Table)
    ensures Assemble(table, rows).Failure? <==>
      exists j :: 1 <= j < |rows| && |rows[j]| == CourseWidth &&
        forall i :: 1 <= i < j ==> |rows[i]| != CategoryWidth
    ensures Assemble(table, rows).Failure? ==>
      var j := Assemble(table, rows).error.row;
      Assemble(table, rows).error.table == table &&
      1 <= j < |rows| && |rows[j]| == CourseWidth &&
      forall i :: 1 <= i < j ==> |rows[i]| != CategoryWidth && |rows[i]| != CourseWidth
    ensures Assemble(table, rows).Success? ==>
      var t := Assemble(table, rows).value;
      t.level == table + 1 &&
      |t.categories| == CountWidth(Body(rows), CategoryWidth) &&
      |t.courses| == CountWidth(Body(rows), CourseWidth) &&
      (t.total.Some? <==> exists j :: 1 <= j < |rows| && |rows[j]| == TotalWidth)
  {
    var s := Body(rows);
    assert forall j :: 1 <= j < |rows| ==> rows[j] == s[j - 1];
    LeadingCourseNone(s);
    match LeadingCourse(s)
    case Some(k) =>
      LeadingCourseAt(s, k);
      assert rows[k + 1] == s[k];
      assert forall i :: 1 <= i < k + 1 ==> rows[i] == s[i - 1];
    case None =>
      forall j | 1 <= j < |rows| && |rows[j]| == CourseWidth
        ensures exists i :: 1 <= i < j && |rows[i]| == CategoryWidth
      {
        assert |s[j - 1]| == CourseWidth;
        var i :| 0 <= i < j - 1 && |s[i]| == CategoryWidth;
        assert rows[i + 1] == s[i];
      }
      OpenedLength(s);
      CoursesLength(s);
      FirstTotalNone(s);
      if exists j :: 1 <= j < |rows| && |rows[j]| == TotalWidth {
        var j :| 1 <= j < |rows| && |rows[j]| == TotalWidth;
        assert |s[j - 1]| == TotalWidth;
      }
  }

  /** In the serialised transcript every category that has a "courses" key
      holds the same list: all of the table's courses, in row order, including
      those that arrived under earlier categories. A "courses" key exists
      somewhere exactly when the table has a course row. */
  lemma SharedCourseList(table: nat, rows: Table)
    requires Assemble(table, rows).Success?
    ensures var t := Assemble(table, rows).value;
      |Records(t)| == |t.categories| &&
      (forall k :: 0 <= k < |Records(t)| && Records(t)[k].courses.Some? ==>
        Records(t)[k].courses.value == Courses(Body(rows))) &&
      ((exists k :: 0 <= k < |Records(t)| && Records(t)[k].courses.Some?) <==>
        Courses(Body(rows)) != [])
  {
    var t := Assemble(table, rows).value;
    SomeCategoryHoldsCourses(Body(rows));
    assert forall k :: 0 <= k < |Records(t)| ==>
      (Records(t)[k].courses.Some? <==> t.categories[k].hasCourses);
    if exists k :: 0 <= k < |Records(t)| && Records(t)[k].courses.Some? {
      var k :| 0 <= k < |Records(t)| && Records(t)[k].courses.Some?;
      assert Opened(Body(rows))[k].hasCourses;
    }
  }
}

/** A worked table: two categories, one course under each, then a total. Both
    categories end up holding both courses. */
module AssemblerExample {
  import opened Rows
  import opened Assembler
  import opened AssemblerFacts

  lemma TwoCategoriesShareCourses(h: Row, a: Row, b: Row, x: Row, y: Row, t: Row)
    requires |a| == CategoryWidth && |b| == CategoryWidth
    requires |x| == CourseWidth && |y| == CourseWidth && |t| == TotalWidth
    ensures Assemble(0, [h, a, x, b, y, t]) == Success(Transcript(1,
      [Category(a[0], a[1], true), Category(b[0], b[1], true)],
      [MakeCourse(x), MakeCourse(y)],
      Some(MakeTotal(t))))
    ensures Records(Assemble(0, [h, a, x, b, y, t]).value) ==
      [CategoryRecord(a[0], a[1], Some([MakeCourse(x), MakeCourse(y)])),
       CategoryRecord(b[0], b[1], Some([MakeCourse(x), MakeCourse(y)]))]
  {
    var s := [a, x, b, y, t];
    assert Body([h, a, x, b, y, t]) == s;
    var s1, s2, s3, s4 := [x, b, y, t], [b, y, t], [y, t], [t];
    assert s[1..] == s1 && s1[1..] == s2 && s2[1..] == s3 && s3[1..] == s4 && s4[1..] == [];
    assert LeadingCourse(s) == None;
    assert FirstTotal(s4) == FirstTotal(s3) == FirstTotal(s2) == FirstTotal(s1) == Some(MakeTotal(t));
    assert FirstTotal(s) == FirstTotal(s1);
    assert Courses(s4) == [];
    assert Courses(s3) == [MakeCourse(y)] + Courses(s4);
    assert Courses(s2) == Courses(s3);
    assert Courses(s1) == [MakeCourse(x)] + Courses(s2);
    assert Courses(s) == Courses(s1) == [MakeCourse(x), MakeCourse(y)];
    assert Opened(s4) == [];
    assert Opened(s3) == Opened(s4);
    assert Opened(s2) == [Category(b[0], b[1], true)];
    assert Opened(s1) == Opened(s2);
    assert Opened(s) == [Category(a[0], a[1], true), Category(b[0], b[1], true)];
    assert Assemble(0, [h, a, x, b, y, t]) == Success(Transcript(1, Opened(s), Courses(s), FirstTotal(s)));
  }
}
