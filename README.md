# Student listing service: seeding and rendering

This project models the logic of a small web service that keeps student
records (a name and a GPA) in one database table.

- **Seeding.** At start-up the service puts three sample rows into the table,
  but only when the table is empty.
- **Listing.** `GET /students` reads every row and returns a fixed-width
  text table inside a `<pre>` block.

The model is written in Dafny. The database is an in-memory table. The
listing handler takes the query result as a plain sequence of rows.

- `wrappers.dfy`: the `Option` type.
- `format.dfy` (`Format`): Python's `{:<w}` and `{:>w}` padding, and the
  `.2f` rendering of a GPA. A GPA is a `Numeric(3, 2)` column, which holds an
  exact decimal, so it is modelled as a whole number of hundredths (3.80 is
  380). The module also has a parser that reads `[-]digits.dd` back, as an
  independent check on the renderer.
- `lines.dfy` (`Lines`): joins a list of lines, each followed by a newline,
  and splits text back into lines.
- `student.dfy` (`StudentModel`): the `Student` row and its column
  constraints. `name` is non-null with at most 100 characters. `gpa` is
  non-null with at most three digits, two after the point. `id` is a primary
  key, issued by the table's id sequence.
- `seeding.dfy` (`Seeding`): the class `StudentTable` holds the rows and the
  next id as fields. Its method `InitializeDatabase` is specified by the
  function `Initialize` on table values.
- `listing.dfy` (`Listing`): the method `GetStudents` builds the body with
  the same loop as the handler. It is proved equal to the function `Page`,
  and the lemmas about `Page` state the layout.

The format strings at app.py:46 and app.py:48 put nine spaces between `Name`
and `GPA` in the header. A row for `A` at 1.00 gets eleven spaces before
`1.00`. `EmptyPage` and `TwoRowPage` state these exact strings.

## Model

| member | source | states |
|---|---|---|
| `Format.PadRight` | app.py:46-48 | `{:<w}` never truncates: the result's length is the larger of the string's length and the width |
| `Format.PadRightShape` | app.py:46-48 | left alignment keeps the whole string at the start and adds only spaces after it |
| `Format.PadLeft` | app.py:46-48 | `{:>w}` never truncates: the result's length is the larger of the string's length and the width |
| `Format.PadLeftShape` | app.py:46-48 | right alignment keeps the whole string at the end and adds only spaces before it |
| `Format.NatToString` | app.py:48 | the integer part is rendered as at least one decimal digit, with a leading zero only for the value zero, and one digit exactly when the value is below ten |
| `Format.NatToStringRoundTrip` | app.py:48 | the decimal digits read back as the same number |
| `Format.Fmt2` | app.py:48 | `.2f` output has a point three characters from the end, with two digits after it, and starts with `-` exactly when the value is negative |
| `Format.Fmt2Chars` | app.py:48 | `.2f` output holds only digits, the point and the minus sign |
| `Format.Fmt2RoundTrip` | app.py:17 | `.2f` of an exact scale-2 value loses nothing: parsing the text gives back the same number of hundredths |
| `Format.Fmt2Injective` | app.py:48 | two different GPA values never render to the same text |
| `Format.Fmt2Width` | app.py:17 | a value that fits `Numeric(3, 2)` renders in 4 characters, or 5 when negative, so it never overruns the width-5 column |
| `StudentModel.GpaColumnDigits` | app.py:17 | `FitsColumns`' GPA bound is exactly `Numeric(3, 2)`: a value fits exactly when its `.2f` text has one digit before the point, three digits in all |
| `StudentModel.PrimaryKey` | app.py:15 | in a table meeting `ValidTable`, `id` is a primary key: there are exactly as many distinct ids as rows. `ValidTable` also assumes that every id is below the id sequence; that is a modelling assumption the database does not enforce |
| `Lines.SplitJoin` | app.py:45-48 | text built as newline-terminated lines splits back into exactly those lines, when no line contains a newline itself |
| `Seeding.SampleDataFits` | app.py:15-17 | the three sample rows have non-empty names of at most 100 characters and GPAs within precision 3 and scale 2 |
| `Seeding.InsertPreservesValid` | app.py:32-33 | a committed batch of values that fit their columns keeps every row within its constraints and keeps `id` unique, since new ids come from the id sequence |
| `Seeding.SeedEmptyTable` | app.py:26-33 | seeding an empty table leaves exactly Rasika 3.80, Issa 3.70 and Rohit 3.90, in that order, with the next three ids |
| `Seeding.SeedNonEmptyTable` | app.py:26 | seeding a table that has a row changes nothing: the same rows, in the same order, with the same ids |
| `Seeding.SeedIdempotent` | app.py:20-34 | seeding twice gives the same table as seeding once, and the seeded table is never empty |
| `Seeding.SeedPreservesValid` | app.py:14-34 | seeding keeps the table invariant: column constraints and a unique primary key |
| `Seeding.StudentTable.constructor` | app.py:23 | a newly created table is empty, valid, and its id sequence starts at 1 |
| `Seeding.StudentTable.First` | app.py:26 | `query.first()` finds nothing exactly when the table is empty; otherwise it returns a stored row |
| `Seeding.StudentTable.AddAll` | app.py:32-33 | `add_all` plus `commit` appends the batch, in order, with consecutive new ids, and keeps the table invariant |
| `Seeding.StudentTable.InitializeDatabase` | app.py:20-34 | the new table is `Initialize` of the old one and stays valid; the lemmas `SeedEmptyTable`, `SeedNonEmptyTable` and `SeedIdempotent` describe `Initialize` |
| `Listing.GetStudents` | app.py:41-51 | the loop builds exactly `Page` of the query result, rows kept in the order given |
| `Listing.HeaderFormatted` | app.py:46 | the header line is `"{:<10} {:>5}".format("Name", "GPA")`, that is `Name`, nine spaces, `GPA` |
| `Listing.OutputLines` | app.py:45-48 | when no name contains a newline, the text inside the tags is exactly two more lines than there are rows: title, header, then row k's line as line 2 + k |
| `Listing.PageFrame` | app.py:45-51 | the body always starts with `<pre>Students:\n` and the header line, and always ends with `</pre>` |
| `Listing.EmptyPage` | app.py:45-51 | with no rows, the body is exactly `<pre>Students:\nName         GPA\n</pre>` |
| `Listing.TwoRowPage` | app.py:45-51 | rows A 1.00 and B 2.50 render exactly as the title, the header, `A           1.00` and `B           2.50`, in that order, inside the tags |
| `Listing.RowLayout` | app.py:48 | `RowText`, the line `"{:<10} {:>5.2f}"` prints for a row, is never truncated: its first Max(name length, 10) characters are the name padded with spaces, then one space, then the GPA field, which is only spaces before the whole `.2f` text; the line is Max(name length, 10) + 1 + Max(GPA text length, 5) long |
| `Listing.GpaColumnReadsBack` | app.py:48 | for a stored row, the last five characters of its line, with leading spaces dropped, parse back to the stored GPA |
| `Listing.RowAlignedWithHeader` | app.py:46-48 | a stored row whose name fits in 10 characters gives a line as long as the header line, 16 characters, so the columns line up |
| `Listing.NameWithoutNewline` | app.py:48 | a row line contains a newline exactly when the student's name does |

## Left out

- Flask application set-up, the route decorator and the `__main__` server start (app.py:7-8, app.py:40, app.py:53-56): these are HTTP and process plumbing. The handler takes no request input, so a query string or a body cannot change the response. The model gives `GetStudents` only the rows.
- `db.create_all()` (app.py:23): schema creation belongs to the storage layer. The model starts from a table that exists; `StudentTable`'s constructor is a newly created, empty table.
- The console notice printed after seeding (app.py:34): it is output only and changes no state.
- config.py: environment variables and the connection URI are configuration over foreign calls.
- Concurrent start-up of several instances: the check-then-insert seeding could then add the sample rows twice. Seeding is modelled as one sequential call.
- `ValidTable` assumes that every stored id is below the table's id sequence. The database does not check this: a row inserted from outside the service with an explicit id could break it. Only the service's own inserts are modelled, and they take their ids from the sequence.
- `Student.id` and the id sequence are unbounded integers. `db.Integer` (app.py:15) is a 32-bit column whose sequence fails after 2147483647, so `Insert` and `AddAll` model every insert as succeeding. The three seeded rows are far below that bound.
- A GPA is a finite number of hundredths. A `Numeric(3, 2)` column can also hold `NaN`, which `"{:>5.2f}"` (app.py:48) prints as `  NaN`. Such a row cannot be represented, so the renderer does not model it. The seeded rows are all finite.
- Database connection failures and the server errors they cause: these come only from I/O.
- Seeding.StudentTable.AddAll: requires every value in the batch to fit its columns. A batch the database would reject, rolling back the transaction, is not modelled, because the only batch in app.py is the sample data, which fits (`SampleDataFits`).
- Seeding.StudentTable.First: says only that some stored row is returned. `query.first()` asks for no order, so which row comes back is left open.
- Listing.OutputLines: requires that no name contains a newline. A name with a newline is printed as several lines, so the line count then no longer matches the row count. `NameWithoutNewline` states exactly when this happens.
- The conversion of the float literals 3.8, 3.7 and 3.9 to `Numeric(3, 2)` is modelled by its result, 380, 370 and 390 hundredths. Rounding of other float values on insert is not modelled.
- The order of `Student.query.all()` (app.py:42) is not specified by the query. The renderer takes the rows in whatever order it is given them and keeps that order.
- Padding counts characters (Unicode scalar values) as Python does. It does not count display width.
