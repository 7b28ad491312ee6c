/** The `Student` table: one row per student, and the column constraints the
    database enforces on every stored row, for finite values. */
module StudentModel {

  import opened Format

  /** `name = String(100)`: at most this many characters. */
  const MaxNameLength: nat := 100

  /** `gpa = Numeric(3, 2)`: three digits, two of them after the point, so the
      magnitude in hundredths is at most 9.99. */
  const MaxGpaHundredths: nat := 999

  /** A stored row. `gpa` counts hundredths: 3.80 is 380. Both `name` and
      `gpa` are declared non-null, so every row has them. */
  datatype Student = Student(id: int, name: string, gpa: int)

  /** The column constraints a finite value must meet to be stored. */
  predicate FitsColumns(name: string, gpa: int) {
    |name| <= MaxNameLength && -(MaxGpaHundredths as int) <= gpa <= MaxGpaHundredths
  }

  predicate ValidStudent(s: Student) {
    FitsColumns(s.name, s.gpa)
  }

  /** The table's contents together with the next value of its id sequence. */
  datatype Table = Table(rows: seq<Student>, nextId: int)

  /** Every row fits its columns, `id` is a primary key (no two rows share
      one), and the id sequence is past every id in use. */
  predicate ValidTable(t: Table) {
    && (forall i :: 0 <= i < |t.rows| ==> ValidStudent(t.rows[i]))
    && (forall i, j :: 0 <= i < j < |t.rows| ==> t.rows[i].id != t.rows[j].id)
    && (forall i :: 0 <= i < |t.rows| ==> t.rows[i].id < t.nextId)
  }

  /** `Numeric(3, 2)` keeps three digits, two of them after the point: a GPA
      fits its column exactly when its `.2f` text has one digit before the
      point, after an optional minus sign. */
  lemma GpaColumnDigits(gpa: int)
    ensures -(MaxGpaHundredths as int) <= gpa <= MaxGpaHundredths
        <==> |Fmt2(gpa)| == (if gpa < 0 then 1 else 0) + 1 + 3
  {
    var a := if gpa < 0 then -gpa else gpa;
    assert |Fmt2(gpa)| == (if gpa < 0 then 1 else 0) + |NatToString(a / 100)| + 3;
  }

  /** The ids in use. */
  function Ids(rows: seq<Student>): set<int> {
    set i | 0 <= i < |rows| :: rows[i].id
  }

  /** `id` is a primary key: in a valid table there are exactly as many ids in
      use as rows, and the id sequence is past all of them. */
  lemma PrimaryKey(t: Table)
    requires ValidTable(t)
    ensures |Ids(t.rows)| == |t.rows|
    ensures forall id :: id in Ids(t.rows) ==> id < t.nextId
  {
    DistinctIds(t.rows);
  }

  lemma {:induction false} DistinctIds(rows: seq<Student>)
    requires forall i, j :: 0 <= i < j < |rows| ==> rows[i].id != rows[j].id
    ensures |Ids(rows)| == |rows|
  {
    if rows != [] {
      var rest := rows[1..];
      DistinctIds(rest);
      assert Ids(rows) == {rows[0].id} + Ids(rest) by {
        forall id | id in Ids(rows) ensures id in {rows[0].id} + Ids(rest) {
          var i :| 0 <= i < |rows| && rows[i].id == id;
          if i > 0 { assert rest[i - 1].id == id; }
        }
        forall id | id in Ids(rest) ensures id in Ids(rows) {
          var i :| 0 <= i < |rest| && rest[i].id == id;
          assert rows[i + 1].id == id;
        }
      }
      assert rows[0].id !in Ids(rest) by {
        forall i | 0 <= i < |rest| ensures rest[i].id != rows[0].id {
          assert rest[i] == rows[i + 1];
        }
      }
    }
  }
}
