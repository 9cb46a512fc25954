/** The student table as the page holds it: named columns in order, a row
    index of profile ids, and for each column its cells in row order. The
    group join updates it in place, one label-based assignment at a time. */
module Frame {
  import opened Records

  /** The cell of row `k` in column `c` of `data`, empty when there is no such
      column or row (a column the table does not have reads as empty). */
  function CellAt(data: map<string, seq<Cell>>, c: string, k: nat): Cell
  {
    if c in data && k < |data[c]| then data[c][k] else Empty
  }

  class Table {
    var columns: seq<string>
    var index: seq<int>
    var data: map<string, seq<Cell>>

    /** Every column is named once, has a list of cells, and that list has one
        cell per row. */
    ghost predicate Valid()
      reads this
    {
      && Distinct(columns)
      && (forall c :: c in data <==> c in columns)
      && (forall c :: c in data ==> |data[c]| == |index|)
    }

    /** The table of the given columns over the given row index. */
    constructor (columns: seq<string>, index: seq<int>, data: map<string, seq<Cell>>)
      requires Distinct(columns)
      requires forall c :: c in data <==> c in columns
      requires forall c :: c in data ==> |data[c]| == |index|
      ensures Valid()
      ensures this.columns == columns && this.index == index && this.data == data
    {
      this.columns := columns;
      this.index := index;
      this.data := data;
    }

    /** Label-based assignment `df.loc[ids, column] = value`, in place. */
    method Assign(ids: seq<int>, column: string, value: string)
      requires Valid()
      modifies this
      ensures Valid()
      ensures index == old(index)
      ensures columns == AssignedColumns(old(columns), column)
      ensures data == Assigned(old(index), old(data), ids, column, value)
    {
      if column !in columns {
        columns := columns + [column];
      }
      data := Assigned(index, data, ids, column, value);
    }
  }

  /** The columns after an assignment to `column`: a new column is appended last. */
  function AssignedColumns(columns: seq<string>, column: string): seq<string>
  {
    if column in columns then columns else columns + [column]
  }

  /** The cells after a label-based assignment of `value` to column `column`
      of every row whose label is one of `ids`. A column the table does not
      have yet starts out empty; labels that no row carries are ignored. */
  function Assigned(index: seq<int>, data: map<string, seq<Cell>>, ids: seq<int>, column: string, value: string)
    : map<string, seq<Cell>>
  {
    data[column := seq(|index|, k requires 0 <= k < |index| =>
                         if index[k] in ids then Text(value) else CellAt(data, column, k))]
  }

  /** What an assignment does to the cells: the rows it names get the value,
      every other row of that column keeps its cell, and every other column
      is as it was. */
  lemma AssignedCells(index: seq<int>, data: map<string, seq<Cell>>, ids: seq<int>, column: string, value: string)
    ensures forall k :: 0 <= k < |index| ==>
      CellAt(Assigned(index, data, ids, column, value), column, k) == if index[k] in ids then Text(value) else CellAt(data, column, k)
    ensures forall c :: c != column ==> (c in Assigned(index, data, ids, column, value) <==> c in data)
    ensures forall c :: c != column && c in data ==> Assigned(index, data, ids, column, value)[c] == data[c]
  {
  }
}
