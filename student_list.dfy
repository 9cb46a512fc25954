/** The "Download Student List" task of home.py, from the Canvas answers
    to the spreadsheet layout: the student filter, the profile filter, the
    table, the group join and the export, run in that order. */
module StudentList {
  import opened Records
  import opened Roster
  import opened Frame
  import opened Groups
  import opened Export

  /** The rows are exactly the users with a student enrollment that carries a
      student number, whichever columns are chosen. */
  lemma StudentRows(enrollments: seq<Enrollment>, users: seq<Profile>)
    ensures forall p :: p in FilterProfiles(users, StudentIds(enrollments)) <==>
      p in users && exists e :: e in enrollments && IsStudent(e) && e.userId == p.id
  {
  }

  /** The cells of the joined table, row `k` being `profiles[k]`: the profile
      columns hold what the profile gives, overwritten for the members of a
      category that reuses the column name; a new category column holds the
      name of the last group listing the student, or nothing. */
  predicate TableCells(data: map<string, seq<Cell>>, profiles: seq<Profile>, infoColumns: seq<InfoField>, cats: seq<Category>)
  {
    && (forall k :: 0 <= k < |profiles| && NAME_COLUMN !in Names(cats) ==>
          CellAt(data, NAME_COLUMN, k) == Text(profiles[k].name))
    && (forall f, k :: f in infoColumns && 0 <= k < |profiles| && ColumnName(f) !in Names(cats) ==>
          CellAt(data, ColumnName(f), k) == InfoCell(profiles[k], f))
    && (forall i, k :: 0 <= i < |cats| && 0 <= k < |profiles| && cats[i].name !in Header(infoColumns) ==>
          CellAt(data, cats[i].name, k) == GroupCell(cats[i].groups, profiles[k].id, Empty))
    && (forall i, k :: 0 <= i < |cats| && 0 <= k < |profiles| && cats[i].name == NAME_COLUMN ==>
          CellAt(data, NAME_COLUMN, k) == GroupCell(cats[i].groups, profiles[k].id, Text(profiles[k].name)))
    && (forall i, f, k :: 0 <= i < |cats| && f in infoColumns && 0 <= k < |profiles| && cats[i].name == ColumnName(f) ==>
          CellAt(data, ColumnName(f), k) == GroupCell(cats[i].groups, profiles[k].id, InfoCell(profiles[k], f)))
  }

  /** The worksheet gets an Avatar column when the field is selected or a
      category named `Avatar` has groups. */
  predicate AvatarShown(infoColumns: seq<InfoField>, cats: seq<Category>)
  {
    Avatar in infoColumns || exists c :: c in cats && c.name == AVATAR_COLUMN && |c.groups| > 0
  }

  /** The table's columns include `Avatar` exactly when `AvatarShown` holds. */
  lemma AvatarColumnShown(infoColumns: seq<InfoField>, cats: seq<Category>)
    requires Distinct(infoColumns)
    ensures AVATAR_COLUMN in Header(infoColumns) + AddedColumns(Header(infoColumns), cats) <==> AvatarShown(infoColumns, cats)
  {
    HeaderShape(infoColumns);
    ColumnNameIsNotName(Avatar);
    forall f | ColumnName(f) == AVATAR_COLUMN ensures f == Avatar {
      ColumnNameInjective(f, Avatar);
    }
    AddedColumnsMembers(Header(infoColumns), cats);
  }

  /** The table of the task (home.py, lines 76 to 111), built from the
      Canvas enrollments, user profiles and selected group categories with
      the selected info fields. Returns the joined table and the profiles its
      rows come from. */
  method StudentTable(
    enrollments: seq<Enrollment>, users: seq<Profile>, infoColumns: seq<InfoField>, cats: seq<Category>)
    returns (df: Table, profiles: seq<Profile>)
    requires Distinct(infoColumns)
    requires forall i, j :: 0 <= i < j < |cats| ==> cats[i].name != cats[j].name
    ensures fresh(df) && df.Valid()
    // rows: the student profiles, in profile order, keyed by profile id
    ensures profiles == FilterProfiles(users, StudentIds(enrollments))
    ensures df.index == RowIds(profiles)
    // columns: Name, the info fields, then the new category columns
    ensures df.columns == Header(infoColumns) + AddedColumns(Header(infoColumns), cats)
    // cells: built from the profiles, then overwritten by the group join
    ensures TableCells(df.data, profiles, infoColumns, cats)
  {
    var ids := StudentIds(enrollments);
    profiles := FilterProfiles(users, ids);
    var columns, index, students := BuildColumns(profiles, infoColumns);
    df := new Table(columns, index, students);
    JoinGroups(df, cats);

    JoinedColumnsOrder(columns, cats);
    JoinedFrame(index, students, cats);
    ghost var joined := df.data;
    assert joined == Joined(index, students, cats);
    forall k | 0 <= k < |profiles|
      ensures CellAt(students, NAME_COLUMN, k) == Text(profiles[k].name)
    {
    }
    forall f, k | f in infoColumns && 0 <= k < |profiles|
      ensures CellAt(students, ColumnName(f), k) == InfoCell(profiles[k], f)
    {
    }
    forall i, k | 0 <= i < |cats| && 0 <= k < |profiles|
      ensures CellAt(joined, cats[i].name, k) == GroupCell(cats[i].groups, profiles[k].id, CellAt(students, cats[i].name, k))
    {
      JoinedCell(index, students, cats, i, k);
    }
  }

  /** The whole task: the table, then its export with the same profiles.
      Worksheet row `i + 1` holds the cells of table row `i`, the student of
      `profiles[i]`. */
  method DownloadStudentList(
    enrollments: seq<Enrollment>, users: seq<Profile>, infoColumns: seq<InfoField>, cats: seq<Category>)
    returns (df: Table, profiles: seq<Profile>, sheet: Sheet)
    requires Distinct(infoColumns)
    requires forall i, j :: 0 <= i < j < |cats| ==> cats[i].name != cats[j].name
    ensures fresh(df) && df.Valid()
    ensures profiles == FilterProfiles(users, StudentIds(enrollments))
    ensures df.index == RowIds(profiles)
    ensures TableCells(df.data, profiles, infoColumns, cats)
    // the header: Name, the info fields, then the new category columns
    ensures sheet.header == df.columns == Header(infoColumns) + AddedColumns(Header(infoColumns), cats)
    ensures sheet.header[0] == NAME_COLUMN
    // the body: one row per profile, holding that row's cells in column order
    ensures |sheet.body| == |profiles| && forall i :: 0 <= i < |profiles| ==> |sheet.body[i]| == |sheet.header|
    ensures forall i, j :: 0 <= i < |profiles| && 0 <= j < |sheet.header| ==>
      sheet.body[i][j] == CellAt(df.data, sheet.header[j], i)
    ensures sheet.formats == [ColumnFormat(0, 0, FIRST_COLUMN_FORMAT)]
    ensures AvatarShown(infoColumns, cats) ==>
      && |sheet.images| == |profiles|
      && (forall i :: 0 <= i < |profiles| ==>
            && sheet.images[i].row == i + 1
            && sheet.images[i].url == profiles[i].avatarUrl
            && sheet.images[i].xScale == IMAGE_SCALE && sheet.images[i].yScale == IMAGE_SCALE
            && sheet.images[i].col < |sheet.header|
            && sheet.header[sheet.images[i].col] == AVATAR_COLUMN)
      && (forall r :: r in sheet.rowHeights <==> 1 <= r <= |profiles|)
      && (forall r :: r in sheet.rowHeights ==> sheet.rowHeights[r] == IMAGE_ROW_HEIGHT)
    ensures Avatar in infoColumns && AVATAR_COLUMN !in Names(cats) ==>
      forall i :: 0 <= i < |profiles| ==>
        sheet.body[i][sheet.images[i].col] == Text(AvatarDirective(sheet.images[i].url))
    ensures !AvatarShown(infoColumns, cats) ==> sheet.images == [] && sheet.rowHeights == map[]
  {
    df, profiles := StudentTable(enrollments, users, infoColumns, cats);
    sheet := ToExcel(df, profiles);
    ghost var data := df.data;
    AvatarColumnShown(infoColumns, cats);
    forall i, j | 0 <= i < |profiles| && 0 <= j < |sheet.header|
      ensures sheet.body[i][j] == CellAt(data, sheet.header[j], i)
    {
    }
    if Avatar in infoColumns && AVATAR_COLUMN !in Names(cats) {
      forall i | 0 <= i < |profiles|
        ensures sheet.body[i][sheet.images[i].col] == Text(AvatarDirective(sheet.images[i].url))
      {
        assert sheet.header[sheet.images[i].col] == ColumnName(Avatar);
        assert CellAt(data, ColumnName(Avatar), i) == InfoCell(profiles[i], Avatar);
      }
    }
  }
}
