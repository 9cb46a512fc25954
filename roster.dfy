/** The roster side of the student-list download: which users are students,
    which profiles become rows, and the column-oriented table built from them
    (one list of cells per column, one cell per row). */
module Roster {
  import opened Records

  /** The enrollment filter: a student enrollment that carries a student number. */
  predicate IsStudent(e: Enrollment)
  {
    e.role == STUDENT_ROLE && e.integrationId.Some?
  }

  /** The ids of the student enrollments, in enrollment order. */
  function StudentIds(enrollments: seq<Enrollment>): (ids: seq<int>)
    ensures |ids| <= |enrollments|
    ensures forall id :: id in ids <==> exists e :: e in enrollments && IsStudent(e) && e.userId == id
  {
    if enrollments == [] then []
    else
      var e := enrollments[0];
      var rest := StudentIds(enrollments[1..]);
      assert forall x :: x in enrollments <==> x == e || x in enrollments[1..];
      if IsStudent(e) then [e.userId] + rest else rest
  }

  /** Order: the ids of a concatenation are the ids of each part, one after the other. */
  lemma {:induction false} StudentIdsAppend(a: seq<Enrollment>, b: seq<Enrollment>)
    ensures StudentIds(a + b) == StudentIds(a) + StudentIds(b)
  {
    if a == [] {
      assert a + b == b;
    } else {
      assert (a + b)[0] == a[0];
      assert (a + b)[1..] == a[1..] + b;
      StudentIdsAppend(a[1..], b);
    }
  }

  /** The profiles whose id is one of `ids`, in profile order. */
  function FilterProfiles(profiles: seq<Profile>, ids: seq<int>): (rows: seq<Profile>)
    ensures |rows| <= |profiles|
    ensures forall p :: p in rows <==> p in profiles && p.id in ids
  {
    if profiles == [] then []
    else
      var p := profiles[0];
      var rest := FilterProfiles(profiles[1..], ids);
      assert forall x :: x in profiles <==> x == p || x in profiles[1..];
      if p.id in ids then [p] + rest else rest
  }

  /** Order: filtering a concatenation filters each part and keeps them in order. */
  lemma {:induction false} FilterProfilesAppend(a: seq<Profile>, b: seq<Profile>, ids: seq<int>)
    ensures FilterProfiles(a + b, ids) == FilterProfiles(a, ids) + FilterProfiles(b, ids)
  {
    if a == [] {
      assert a + b == b;
    } else {
      assert (a + b)[0] == a[0];
      assert (a + b)[1..] == a[1..] + b;
      FilterProfilesAppend(a[1..], b, ids);
    }
  }

  const IMG_PREFIX: string := "<img src=\""
  const IMG_SUFFIX: string := "\" width=100>"

  /** The HTML directive that shows an avatar at a display width of 100. */
  function AvatarDirective(url: string): string
  {
    IMG_PREFIX + url + IMG_SUFFIX
  }

  /** The URL an avatar directive shows, if `html` is one. */
  function AvatarUrlOf(html: string): (url: Option<string>)
    ensures url.Some? ==> AvatarDirective(url.value) == html
  {
    if |html| >= |IMG_PREFIX| + |IMG_SUFFIX|
       && html[..|IMG_PREFIX|] == IMG_PREFIX
       && html[|html| - |IMG_SUFFIX|..] == IMG_SUFFIX
    then
      var url := html[|IMG_PREFIX|..|html| - |IMG_SUFFIX|];
      assert html == html[..|IMG_PREFIX|] + url + html[|html| - |IMG_SUFFIX|..];
      Some(url)
    else None
  }

  /** The directive carries its URL unchanged: reading it back gives the URL. */
  lemma AvatarDirectiveRoundTrip(url: string)
    ensures AvatarUrlOf(AvatarDirective(url)) == Some(url)
  {
    var html := AvatarDirective(url);
    assert html[..|IMG_PREFIX|] == IMG_PREFIX;
    assert html[|html| - |IMG_SUFFIX|..] == IMG_SUFFIX;
    assert html[|IMG_PREFIX|..|html| - |IMG_SUFFIX|] == url;
  }

  /** The cell a profile contributes to the column of info field `f`. */
  function InfoCell(p: Profile, f: InfoField): (c: Cell)
    ensures f == Avatar ==> c.Text? && AvatarUrlOf(c.text) == Some(p.avatarUrl)
    ensures f == StudentNumber ==> (c.Text? <==> p.integrationId.Some?)
    ensures f == StudentNumber && c.Text? ==> c.text == p.integrationId.value
    ensures f == Email ==> (c.Text? <==> p.primaryEmail.Some?)
    ensures f == Email && c.Text? ==> c.text == p.primaryEmail.value
  {
    match f
    case Avatar =>
      AvatarDirectiveRoundTrip(p.avatarUrl);
      Text(AvatarDirective(p.avatarUrl))
    case StudentNumber => OptionalCell(p.integrationId)
    case Email => OptionalCell(p.primaryEmail)
  }

  /** The table's columns: `Name`, then the selected info fields in selection order. */
  function Header(infoColumns: seq<InfoField>): seq<string>
  {
    [NAME_COLUMN] + seq(|infoColumns|, i requires 0 <= i < |infoColumns| => ColumnName(infoColumns[i]))
  }

  /** The header names every selected field once and nothing else besides `Name`,
      so no two columns share a name. */
  lemma HeaderShape(infoColumns: seq<InfoField>)
    requires Distinct(infoColumns)
    ensures Distinct(Header(infoColumns))
    ensures forall c :: c in Header(infoColumns) <==> c == NAME_COLUMN || exists f :: f in infoColumns && ColumnName(f) == c
  {
    HeaderDistinct(infoColumns);
    HeaderMembers(infoColumns);
  }

  /** Distinct fields give distinct columns. */
  lemma HeaderDistinct(infoColumns: seq<InfoField>)
    requires Distinct(infoColumns)
    ensures Distinct(Header(infoColumns))
  {
    var h := Header(infoColumns);
    forall i, j | 0 <= i < j < |h| ensures h[i] != h[j] {
      assert h[j] == ColumnName(infoColumns[j - 1]);
      if i > 0 {
        assert h[i] == ColumnName(infoColumns[i - 1]);
        assert infoColumns[i - 1] != infoColumns[j - 1];
        ColumnNameInjective(infoColumns[i - 1], infoColumns[j - 1]);
      } else {
        ColumnNameIsNotName(infoColumns[j - 1]);
      }
    }
  }

  /** The columns are `Name` and the selected fields' names. */
  lemma HeaderMembers(infoColumns: seq<InfoField>)
    ensures forall c :: c in Header(infoColumns) <==> c == NAME_COLUMN || exists f :: f in infoColumns && ColumnName(f) == c
  {
    var h := Header(infoColumns);
    forall c | c in h ensures c == NAME_COLUMN || exists f :: f in infoColumns && ColumnName(f) == c {
      var i :| 0 <= i < |h| && h[i] == c;
      if i > 0 {
        assert ColumnName(infoColumns[i - 1]) == c;
      }
    }
    forall f | f in infoColumns ensures ColumnName(f) in h {
      var i :| 0 <= i < |infoColumns| && infoColumns[i] == f;
      assert h[i + 1] == ColumnName(f);
    }
  }

  /** One pass of the loop over the selected info fields: appends the cell of
      profile `p` to the column of every field in `infoColumns`, and leaves
      every other column as it was. */
  method AppendInfoCells(students: map<string, seq<Cell>>, p: Profile, infoColumns: seq<InfoField>)
    returns (result: map<string, seq<Cell>>)
    requires Distinct(infoColumns)
    requires forall f :: f in infoColumns ==> ColumnName(f) in students
    ensures result.Keys == students.Keys
    ensures forall f :: f in infoColumns ==> result[ColumnName(f)] == students[ColumnName(f)] + [InfoCell(p, f)]
    ensures forall c :: c in students && (forall f :: f in infoColumns ==> ColumnName(f) != c) ==> result[c] == students[c]
  {
    result := students;
    var j := 0;
    while j < |infoColumns|
      invariant 0 <= j <= |infoColumns|
      invariant result.Keys == students.Keys
      invariant forall f :: f in infoColumns[..j] ==> result[ColumnName(f)] == students[ColumnName(f)] + [InfoCell(p, f)]
      invariant forall c :: c in students && (forall f :: f in infoColumns[..j] ==> ColumnName(f) != c) ==> result[c] == students[c]
    {
      var f := infoColumns[j];
      assert f !in infoColumns[..j];
      result := result[ColumnName(f) := result[ColumnName(f)] + [InfoCell(p, f)]];
      assert infoColumns[..j + 1] == infoColumns[..j] + [f];
      j := j + 1;
    }
    assert infoColumns[..j] == infoColumns;
  }

  /** The `Name` column for the given rows: each row's name, in row order. */
  function NameColumn(rows: seq<Profile>): seq<Cell>
  {
    seq(|rows|, k requires 0 <= k < |rows| => Text(rows[k].name))
  }

  /** The column of info field `f` for the given rows, in row order. */
  function InfoColumn(rows: seq<Profile>, f: InfoField): seq<Cell>
  {
    seq(|rows|, k requires 0 <= k < |rows| => InfoCell(rows[k], f))
  }

  /** The row index for the given rows: each row's profile id, in row order. */
  function RowIds(rows: seq<Profile>): seq<int>
  {
    seq(|rows|, k requires 0 <= k < |rows| => rows[k].id)
  }

  /** Taking one more row extends every column by that row's cell. */
  lemma ColumnsGrowByRow(rows: seq<Profile>, k: nat)
    requires k < |rows|
    ensures RowIds(rows[..k + 1]) == RowIds(rows[..k]) + [rows[k].id]
    ensures NameColumn(rows[..k + 1]) == NameColumn(rows[..k]) + [Text(rows[k].name)]
    ensures forall f :: InfoColumn(rows[..k + 1], f) == InfoColumn(rows[..k], f) + [InfoCell(rows[k], f)]
  {
  }

  /** Builds the column-oriented table from the filtered profiles: the row
      index (profile ids) and, for each column, its cells in row order. */
  method BuildColumns(rows: seq<Profile>, infoColumns: seq<InfoField>)
    returns (columns: seq<string>, index: seq<int>, students: map<string, seq<Cell>>)
    requires Distinct(infoColumns)
    ensures columns == Header(infoColumns) && Distinct(columns)
    ensures forall c :: c in students <==> c in columns
    ensures index == RowIds(rows)
    ensures forall c :: c in students ==> |students[c]| == |rows|
    ensures NAME_COLUMN in students && students[NAME_COLUMN] == NameColumn(rows)
    ensures forall f :: f in infoColumns ==> ColumnName(f) in students && students[ColumnName(f)] == InfoColumn(rows, f)
  {
    columns := Header(infoColumns);
    HeaderShape(infoColumns);
    forall f: InfoField ensures ColumnName(f) != NAME_COLUMN {
      ColumnNameIsNotName(f);
    }
    students := map c | c in columns :: [];
    index := [];
    var k := 0;
    while k < |rows|
      invariant 0 <= k <= |rows|
      invariant forall c :: c in students <==> c in columns
      invariant index == RowIds(rows[..k])
      invariant students[NAME_COLUMN] == NameColumn(rows[..k])
      invariant forall f :: f in infoColumns ==> students[ColumnName(f)] == InfoColumn(rows[..k], f)
    {
      var p := rows[k];
      ColumnsGrowByRow(rows, k);
      index := index + [p.id];
      students := students[NAME_COLUMN := students[NAME_COLUMN] + [Text(p.name)]];
      students := AppendInfoCells(students, p, infoColumns);
      k := k + 1;
    }
    assert rows[..k] == rows;
    forall c | c in students ensures |students[c]| == |rows| {
      if c != NAME_COLUMN {
        var f :| f in infoColumns && ColumnName(f) == c;
      }
    }
  }
}
