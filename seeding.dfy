/** The start-up step that fills an empty `Student` table with sample data.
    The database is an in-memory table object; schema creation is not part of
    this model. */
module Seeding {

  import opened Wrappers
  import opened StudentModel

  /** The three sample rows, in insertion order: a name and a GPA in
      hundredths (3.8, 3.7 and 3.9 stored at scale 2). */
  const SampleData: seq<(string, int)> := [("Rasika", 380), ("Issa", 370), ("Rohit", 390)]

  predicate AllFit(data: seq<(string, int)>) {
    forall k :: 0 <= k < |data| ==> FitsColumns(data[k].0, data[k].1)
  }

  /** The rows stored for `data` when the id sequence hands out consecutive
      ids starting at `firstId`. */
  function Numbered(data: seq<(string, int)>, firstId: int): (r: seq<Student>)
    ensures |r| == |data|
    ensures forall k :: 0 <= k < |r| ==> r[k] == Student(firstId + k, data[k].0, data[k].1)
  {
    if data == [] then [] else [Student(firstId, data[0].0, data[0].1)] + Numbered(data[1..], firstId + 1)
  }

  /** The table after one committed batch insert of `data`. */
  function Insert(t: Table, data: seq<(string, int)>): Table {
    Table(t.rows + Numbered(data, t.nextId), t.nextId + |data|)
  }

  /** The table after the seeding step: the sample rows are added only when
      no row exists yet. */
  function Initialize(t: Table): Table {
    if t.rows == [] then Insert(t, SampleData) else t
  }

  /** A batch whose values fit the columns keeps the table invariant: the new
      ids are fresh, so the primary key stays unique. */
  lemma InsertPreservesValid(t: Table, data: seq<(string, int)>)
    requires ValidTable(t) && AllFit(data)
    ensures ValidTable(Insert(t, data))
  {
    var r := Insert(t, data).rows;
    var n := |t.rows|;
    forall i, j | 0 <= i < j < |r| ensures r[i].id != r[j].id {
      if j >= n {
        assert r[j].id == t.nextId + (j - n);
        if i < n {
          assert r[i] == t.rows[i];
        } else {
          assert r[i].id == t.nextId + (i - n);
        }
      }
    }
  }

  lemma SampleDataFits()
    ensures AllFit(SampleData)
    ensures forall k :: 0 <= k < |SampleData| ==> SampleData[k].0 != []
  {
  }

  /** Seeding an empty table stores exactly the three sample rows, in order,
      with the next three ids. */
  lemma SeedEmptyTable(t: Table)
    requires t.rows == []
    ensures Initialize(t).rows == [Student(t.nextId, "Rasika", 380), Student(t.nextId + 1, "Issa", 370), Student(t.nextId + 2, "Rohit", 390)]
    ensures Initialize(t).nextId == t.nextId + 3
  {
  }

  /** Seeding a table that has a row changes nothing: same rows, same order,
      same ids. */
  lemma SeedNonEmptyTable(t: Table)
    requires t.rows != []
    ensures Initialize(t) == t
  {
  }

  /** Running the seeding step a second time has no further effect. */
  lemma SeedIdempotent(t: Table)
    ensures Initialize(Initialize(t)) == Initialize(t)
    ensures Initialize(t).rows != []
  {
  }

  lemma SeedPreservesValid(t: Table)
    requires ValidTable(t)
    ensures ValidTable(Initialize(t))
  {
    if t.rows == [] {
      SampleDataFits();
      InsertPreservesValid(t, SampleData);
    }
  }

  /** The `Student` table as the database holds it. */
  class StudentTable {
    var rows: seq<Student>
    var nextId: int

    function State(): Table
      reads this
    {
      Table(rows, nextId)
    }

    ghost predicate Valid()
      reads this
    {
      ValidTable(State())
    }

    /** A newly created, empty table whose id sequence starts at 1. */
    constructor ()
      ensures Valid() && rows == [] && nextId == 1
    {
      rows := [];
      nextId := 1;
    }

    /** `Student.query.first()`: some stored row, or nothing when the table is
        empty. No order is requested, so which row is left open. */
    method First() returns (r: Option<Student>)
      ensures r.None? <==> rows == []
      ensures r.Some? ==> r.value in rows
    {
      r := if rows == [] then None else Some(rows[0]);
    }

    /** `db.session.add_all(data)` followed by `db.session.commit()`: the rows
        are appended as one batch, with ids taken from the id sequence. */
    method AddAll(data: seq<(string, int)>)
      requires Valid() && AllFit(data)
      modifies this
      ensures Valid()
      ensures State() == Insert(old(State()), data)
    {
      InsertPreservesValid(State(), data);
      rows := rows + Numbered(data, nextId);
      nextId := nextId + |data|;
    }

    /** `initialize_database`: when no row exists, add the sample rows. */
    method InitializeDatabase()
      requires Valid()
      modifies this
      ensures Valid()
      ensures State() == Initialize(old(State()))
    {
      var first := First();
      if first.None? {
        SampleDataFits();
        AddAll(SampleData);
      }
    }
  }
}
