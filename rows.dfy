/** The cells of a transcript table and the records `scrap()` builds from them.

    A table row is the sequence of the texts of its `<td>` cells. The texts are
    kept exactly as found: `scrap()` converts nothing to numbers. */
module Rows {

  /** The text of one `<td>` cell. */
  type Cell = string

  /** The cell texts of one `<tr>`, in document order. */
  type Row = seq<Cell>

  /** The rows of one `transdetail` table, the heading row first. */
  type Table = seq<Row>

  /** Cell counts that give a row its meaning; every other count is ignored. */
  const CategoryWidth: nat := 2
  const TotalWidth: nat := 8
  const CourseWidth: nat := 9

  /** A course dict: nine raw cell texts under fixed keys. */
  datatype Course = Course(
    code: Cell, title: Cell, credits: Cell, graded: Cell, grade: Cell,
    gp: Cell, percent: Cell, creditPoints: Cell, gpa: Cell)

  /** The total dict of a table: seven raw cell texts. */
  datatype Total = Total(
    credits: Cell, graded: Cell, grade: Cell, gp: Cell,
    percent: Cell, creditPoints: Cell, gpa: Cell)

  /** A category dict. `hasCourses` says whether its "courses" key has been set;
      when it has, the value is the table's one shared course list. */
  datatype Category = Category(code: Cell, title: Cell, hasCourses: bool)

  /** A 2-cell row opens a category: code from cell 0, title from cell 1, no
      "courses" key yet. */
  function MakeCategory(row: Row): (c: Category)
    requires |row| == CategoryWidth
    ensures [c.code, c.title] == row
    ensures !c.hasCourses
  {
    Category(row[0], row[1], false)
  }

  /** A 9-cell row becomes a course, cell k going to the k-th field. */
  function MakeCourse(row: Row): (c: Course)
    requires |row| == CourseWidth
  {
    Course(row[0], row[1], row[2], row[3], row[4], row[5], row[6], row[7], row[8])
  }

  /** The cells a course is read from, in field order. */
  function CourseCells(c: Course): (row: Row)
  {
    [c.code, c.title, c.credits, c.graded, c.grade, c.gp, c.percent, c.creditPoints, c.gpa]
  }

  /** Reading a course loses no cell and invents none: the two directions of
      a bijection between 9-cell rows and courses. */
  lemma CourseRoundTrip(row: Row, c: Course)
    requires |row| == CourseWidth
    ensures CourseCells(MakeCourse(row)) == row
    ensures MakeCourse(CourseCells(c)) == c
    ensures MakeCourse(row) == c <==> row == CourseCells(c)
  {
    assert CourseCells(MakeCourse(row)) == row;
  }

  /** An 8-cell row becomes a total; cell 0 (a label) is dropped and cells
      1..7 go to the seven fields in order. */
  function MakeTotal(row: Row): (t: Total)
    requires |row| == TotalWidth
  {
    Total(row[1], row[2], row[3], row[4], row[5], row[6], row[7])
  }

  /** The cells 1..7 a total is read from, in field order. */
  function TotalCells(t: Total): (row: Row)
  {
    [t.credits, t.graded, t.grade, t.gp, t.percent, t.creditPoints, t.gpa]
  }

  /** A total keeps exactly cells 1..7 of its row, and nothing of cell 0. */
  lemma TotalRoundTrip(row: Row, caption: Cell, t: Total)
    requires |row| == TotalWidth
    ensures TotalCells(MakeTotal(row)) == row[1..]
    ensures MakeTotal([caption] + TotalCells(t)) == t
    ensures MakeTotal(row[0 := caption]) == MakeTotal(row)
  {
    assert TotalCells(MakeTotal(row)) == row[1..];
  }
}
