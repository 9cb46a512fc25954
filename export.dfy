/** The spreadsheet export of home.py's `to_excel`, as a layout plan: the
    header and body the table writes, the number format of column A, and the
    avatar images and row heights set on the worksheet. Rows and columns are
    numbered from 0; row 0 holds the header. */
module Export {
  import opened Records
  import opened Frame

  /** Worksheet columns `firstCol` to `lastCol` display with `numFormat`. */
  datatype ColumnFormat = ColumnFormat(firstCol: nat, lastCol: nat, numFormat: string)

  /** An image fetched from `url`, anchored at worksheet cell (`row`, `col`)
      and scaled by `xScale` and `yScale`. */
  datatype Image = Image(row: nat, col: nat, url: string, xScale: real, yScale: real)

  /** The worksheet. `body[i]` is worksheet row `i + 1`; `rowHeights` maps a
      worksheet row to the height set on it (rows not in it keep the default). */
  datatype Sheet = Sheet(
    header: seq<string>,
    body: seq<seq<Cell>>,
    formats: seq<ColumnFormat>,
    images: seq<Image>,
    rowHeights: map<nat, nat>)

  const FIRST_COLUMN_FORMAT: string := "0.00"
  const IMAGE_SCALE: real := 0.2
  const IMAGE_ROW_HEIGHT: nat := 80

  /** The position of the first `Avatar` column, if there is one. */
  function AvatarIndex(columns: seq<string>): (r: Option<nat>)
    ensures r.None? <==> AVATAR_COLUMN !in columns
    ensures r.Some? ==> r.value < |columns| && columns[r.value] == AVATAR_COLUMN
    ensures r.Some? ==> forall j :: 0 <= j < r.value ==> columns[j] != AVATAR_COLUMN
  {
    if columns == [] then None
    else if columns[0] == AVATAR_COLUMN then Some(0)
    else
      match AvatarIndex(columns[1..])
      case None => None
      case Some(i) => Some(i + 1)
  }

  /** The data rows the table writes below its header, cells in column order. */
  function Body(columns: seq<string>, data: map<string, seq<Cell>>, rows: nat): seq<seq<Cell>>
  {
    seq(rows, i requires 0 <= i < rows =>
      seq(|columns|, j requires 0 <= j < |columns| => CellAt(data, columns[j], i)))
  }

  /** The export: the table is written under its header, column A gets the
      `0.00` format, and when the table has an Avatar column each profile's
      avatar is placed in that column on worksheet row `i + 1`, scaled by 0.2,
      with that row's height set to 80. */
  method ToExcel(df: Table, profiles: seq<Profile>) returns (sheet: Sheet)
    requires df.Valid()
    ensures sheet.header == df.columns
    ensures |sheet.body| == |df.index| && forall i :: 0 <= i < |df.index| ==> |sheet.body[i]| == |df.columns|
    ensures forall i, j :: 0 <= i < |df.index| && 0 <= j < |df.columns| ==> sheet.body[i][j] == df.data[df.columns[j]][i]
    ensures sheet.formats == [ColumnFormat(0, 0, FIRST_COLUMN_FORMAT)]
    ensures AVATAR_COLUMN !in df.columns ==> sheet.images == [] && sheet.rowHeights == map[]
    ensures AVATAR_COLUMN in df.columns ==>
      && |sheet.images| == |profiles|
      && (forall i :: 0 <= i < |profiles| ==>
            sheet.images[i] == Image(i + 1, AvatarIndex(df.columns).value, profiles[i].avatarUrl, IMAGE_SCALE, IMAGE_SCALE))
      && (forall r :: r in sheet.rowHeights <==> 1 <= r <= |profiles|)
      && (forall r :: r in sheet.rowHeights ==> sheet.rowHeights[r] == IMAGE_ROW_HEIGHT)
  {
    var index := AvatarIndex(df.columns);
    var body := Body(df.columns, df.data, |df.index|);
    var formats := [ColumnFormat(0, 0, FIRST_COLUMN_FORMAT)];
    var images: seq<Image> := [];
    var heights: map<nat, nat> := map[];
    if index.Some? {
      var i := 0;
      while i < |profiles|
        invariant 0 <= i <= |profiles|
        invariant |images| == i
        invariant forall r :: 0 <= r < i ==>
          images[r] == Image(r + 1, index.value, profiles[r].avatarUrl, IMAGE_SCALE, IMAGE_SCALE)
        invariant forall r :: r in heights <==> 1 <= r <= i
        invariant forall r :: r in heights ==> heights[r] == IMAGE_ROW_HEIGHT
      {
        images := images + [Image(i + 1, index.value, profiles[i].avatarUrl, IMAGE_SCALE, IMAGE_SCALE)];
        heights := heights[i + 1 := IMAGE_ROW_HEIGHT];
        i := i + 1;
      }
    }
    sheet := Sheet(df.columns, body, formats, images, heights);
  }
}
