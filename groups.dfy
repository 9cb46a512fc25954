/** The group-category join: for each selected category, each of its groups
    writes its name into the category's column for every member, so a later
    group of the same category overwrites an earlier one. */
module Groups {
  import opened Records
  import opened Frame

  /** The name of the last group, in listing order, that has `id` as a member. */
  function LastGroup(groups: seq<Group>, id: int): Option<string>
  {
    if groups == [] then None
    else
      var last := groups[|groups| - 1];
      if id in last.memberIds then Some(last.name) else LastGroup(groups[..|groups| - 1], id)
  }

  /** Last write wins: `LastGroup` finds nothing exactly when no group lists
      `id`, and otherwise names a group that lists `id` with no later group
      listing it. */
  lemma {:induction false} LastGroupIsLast(groups: seq<Group>, id: int)
    ensures LastGroup(groups, id).None? <==> forall i :: 0 <= i < |groups| ==> id !in groups[i].memberIds
    ensures LastGroup(groups, id).Some? ==>
      exists i :: 0 <= i < |groups| && id in groups[i].memberIds && groups[i].name == LastGroup(groups, id).value
                  && forall j :: i < j < |groups| ==> id !in groups[j].memberIds
  {
    if groups != [] {
      var n := |groups| - 1;
      var init := groups[..n];
      assert forall i :: 0 <= i < n ==> init[i] == groups[i];
      if id !in groups[n].memberIds {
        LastGroupIsLast(init, id);
        if LastGroup(init, id).Some? {
          var i :| 0 <= i < n && id in init[i].memberIds && init[i].name == LastGroup(init, id).value
                   && forall j :: i < j < n ==> id !in init[j].memberIds;
          assert groups[i].name == LastGroup(groups, id).value;
        }
      }
    }
  }

  /** When exactly one group of the category lists the student, the join gives
      that group's name whatever the order of the groups. */
  lemma LastGroupOfSoleGroup(groups: seq<Group>, id: int, i: nat)
    requires i < |groups| && id in groups[i].memberIds
    requires forall j :: 0 <= j < |groups| && j != i ==> id !in groups[j].memberIds
    ensures LastGroup(groups, id) == Some(groups[i].name)
  {
    LastGroupIsLast(groups, id);
  }

  /** A student's cell in a category column after the join: the last group
      listing them, or the cell as it was before when no group does. */
  function GroupCell(groups: seq<Group>, id: int, before: Cell): Cell
  {
    match LastGroup(groups, id)
    case Some(name) => Text(name)
    case None => before
  }

  /** The cells after the groups of one category, in order, have each assigned
      their name to their members in the column `name`. */
  function CategoryJoined(index: seq<int>, data: map<string, seq<Cell>>, groups: seq<Group>, name: string)
    : map<string, seq<Cell>>
  {
    if groups == [] then data
    else
      var n := |groups| - 1;
      Assigned(index, CategoryJoined(index, data, groups[..n], name), groups[n].memberIds, name, groups[n].name)
  }

  /** The columns after one category's join: its column is appended when it
      has groups and the table does not have the column yet. */
  function CategoryColumns(columns: seq<string>, cat: Category): seq<string>
  {
    if |cat.groups| > 0 then AssignedColumns(columns, cat.name) else columns
  }

  /** The cells after the join of every category, in order. */
  function Joined(index: seq<int>, data: map<string, seq<Cell>>, cats: seq<Category>): map<string, seq<Cell>>
  {
    if cats == [] then data
    else
      var n := |cats| - 1;
      CategoryJoined(index, Joined(index, data, cats[..n]), cats[n].groups, cats[n].name)
  }

  /** The columns after the join of every category, in order. */
  function JoinedColumns(columns: seq<string>, cats: seq<Category>): seq<string>
  {
    if cats == [] then columns
    else
      var n := |cats| - 1;
      CategoryColumns(JoinedColumns(columns, cats[..n]), cats[n])
  }

  /** One category's join: in its column every row gets the cell `GroupCell`
      gives (the last group listing the student wins, a student in no group
      keeps the cell they had); no other column changes; every column keeps
      one cell per row. */
  lemma {:induction false} CategoryJoinedCells(index: seq<int>, data: map<string, seq<Cell>>, groups: seq<Group>, name: string)
    ensures forall k :: 0 <= k < |index| ==>
      CellAt(CategoryJoined(index, data, groups, name), name, k) == GroupCell(groups, index[k], CellAt(data, name, k))
    ensures forall c :: c != name ==> (c in CategoryJoined(index, data, groups, name) <==> c in data)
    ensures forall c :: c != name && c in data ==> CategoryJoined(index, data, groups, name)[c] == data[c]
    ensures name in CategoryJoined(index, data, groups, name) <==> name in data || |groups| > 0
    ensures (forall c :: c in data ==> |data[c]| == |index|) ==>
      forall c :: c in CategoryJoined(index, data, groups, name) ==> |CategoryJoined(index, data, groups, name)[c]| == |index|
  {
    if groups != [] {
      var n := |groups| - 1;
      var before := CategoryJoined(index, data, groups[..n], name);
      CategoryJoinedCells(index, data, groups[..n], name);
      AssignedCells(index, before, groups[n].memberIds, name, groups[n].name);
      forall k | 0 <= k < |index|
        ensures CellAt(CategoryJoined(index, data, groups, name), name, k) == GroupCell(groups, index[k], CellAt(data, name, k))
      {
        assert groups[n] == groups[|groups| - 1];
      }
    }
  }

  /** The whole join leaves a column named after no category as it was. */
  lemma {:induction false} JoinedFrame(index: seq<int>, data: map<string, seq<Cell>>, cats: seq<Category>)
    ensures forall c :: c !in Names(cats) ==> (c in Joined(index, data, cats) <==> c in data)
    ensures forall c :: c !in Names(cats) && c in data ==> Joined(index, data, cats)[c] == data[c]
  {
    if cats != [] {
      var n := |cats| - 1;
      JoinedFrame(index, data, cats[..n]);
      CategoryJoinedCells(index, Joined(index, data, cats[..n]), cats[n].groups, cats[n].name);
      assert cats == cats[..n] + [cats[n]];
      assert Names(cats) == Names(cats[..n]) + {cats[n].name};
    }
  }

  /** One category's join leaves each cell of another column as it was. */
  lemma CategoryJoinedOther(index: seq<int>, data: map<string, seq<Cell>>, groups: seq<Group>, name: string, c: string, k: nat)
    requires c != name
    ensures CellAt(CategoryJoined(index, data, groups, name), c, k) == CellAt(data, c, k)
  {
    CategoryJoinedCells(index, data, groups, name);
  }

  /** The whole join leaves each cell of a column named after no category as it was. */
  lemma JoinedOther(index: seq<int>, data: map<string, seq<Cell>>, cats: seq<Category>, c: string, k: nat)
    requires c !in Names(cats)
    ensures CellAt(Joined(index, data, cats), c, k) == CellAt(data, c, k)
  {
    JoinedFrame(index, data, cats);
  }

  /** The whole join, for categories with distinct names: the column of
      category `i` holds, in row `k`, what that category's own groups give. */
  lemma {:induction false} JoinedCell(index: seq<int>, data: map<string, seq<Cell>>, cats: seq<Category>, i: nat, k: nat)
    requires forall i, j :: 0 <= i < j < |cats| ==> cats[i].name != cats[j].name
    requires i < |cats| && k < |index|
    ensures CellAt(Joined(index, data, cats), cats[i].name, k) == GroupCell(cats[i].groups, index[k], CellAt(data, cats[i].name, k))
  {
    var n := |cats| - 1;
    var init := cats[..n];
    var before := Joined(index, data, init);
    assert Joined(index, data, cats) == CategoryJoined(index, before, cats[n].groups, cats[n].name);
    if i < n {
      assert init[i] == cats[i];
      JoinedCell(index, data, init, i, k);
      assert cats[i].name != cats[n].name;
      CategoryJoinedOther(index, before, cats[n].groups, cats[n].name, cats[i].name, k);
    } else {
      NamesGrow(cats, n);
      JoinedOther(index, data, init, cats[n].name, k);
      CategoryJoinedCells(index, before, cats[n].groups, cats[n].name);
    }
  }

  /** For categories with distinct names the join appends exactly the new
      category columns, in category order, after the existing ones. */
  lemma {:induction false} JoinedColumnsOrder(columns: seq<string>, cats: seq<Category>)
    requires forall i, j :: 0 <= i < j < |cats| ==> cats[i].name != cats[j].name
    ensures JoinedColumns(columns, cats) == columns + AddedColumns(columns, cats)
  {
    if cats != [] {
      var n := |cats| - 1;
      JoinedColumnsOrder(columns, cats[..n]);
      NamesGrow(cats, n);
      AddedColumnsGrow(columns, cats, n);
      assert cats[..n + 1] == cats;
      var added := AddedColumns(columns, cats[..n]);
      assert cats[n].name !in added;
      assert cats[n].name in columns + added <==> cats[n].name in columns;
    }
  }

  /** The inner loop of the join: every group of `cat` assigns its name to its
      members in the column named after `cat`. */
  method JoinCategory(t: Table, cat: Category)
    requires t.Valid()
    modifies t
    ensures t.Valid()
    ensures t.index == old(t.index)
    ensures t.columns == CategoryColumns(old(t.columns), cat)
    ensures t.data == CategoryJoined(old(t.index), old(t.data), cat.groups, cat.name)
  {
    var g := 0;
    while g < |cat.groups|
      invariant 0 <= g <= |cat.groups|
      invariant t.Valid()
      invariant t.index == old(t.index)
      invariant t.columns == if g == 0 then old(t.columns) else AssignedColumns(old(t.columns), cat.name)
      invariant t.data == CategoryJoined(old(t.index), old(t.data), cat.groups[..g], cat.name)
    {
      var group := cat.groups[g];
      assert cat.groups[..g + 1][..g] == cat.groups[..g];
      t.Assign(group.memberIds, cat.name, group.name);
      g := g + 1;
    }
    assert cat.groups[..g] == cat.groups;
  }

  /** The group join of home.py: every selected category in turn. */
  method JoinGroups(t: Table, cats: seq<Category>)
    requires t.Valid()
    modifies t
    ensures t.Valid()
    ensures t.index == old(t.index)
    ensures t.columns == JoinedColumns(old(t.columns), cats)
    ensures t.data == Joined(old(t.index), old(t.data), cats)
  {
    var j := 0;
    while j < |cats|
      invariant 0 <= j <= |cats|
      invariant t.Valid()
      invariant t.index == old(t.index)
      invariant t.columns == JoinedColumns(old(t.columns), cats[..j])
      invariant t.data == Joined(old(t.index), old(t.data), cats[..j])
    {
      assert cats[..j + 1][..j] == cats[..j];
      JoinCategory(t, cats[j]);
      j := j + 1;
    }
    assert cats[..j] == cats;
  }

  /** The columns the join appends to `existing`: the names of the categories
      that have groups and are not columns yet, in category order. */
  function AddedColumns(existing: seq<string>, cats: seq<Category>): (added: seq<string>)
    ensures forall x :: x in added ==> x !in existing && x in Names(cats)
  {
    if cats == [] then []
    else
      var last := cats[|cats| - 1];
      var added := AddedColumns(existing, cats[..|cats| - 1]);
      assert forall c :: c in cats[..|cats| - 1] ==> c in cats;
      added + (if |last.groups| > 0 && last.name !in existing then [last.name] else [])
  }

  /** A column is added exactly when it is not a column yet and some category
      with groups carries its name. */
  lemma {:induction false} AddedColumnsMembers(existing: seq<string>, cats: seq<Category>)
    ensures forall x :: x in AddedColumns(existing, cats) <==>
      x !in existing && exists c :: c in cats && c.name == x && |c.groups| > 0
  {
    if cats != [] {
      var n := |cats| - 1;
      AddedColumnsMembers(existing, cats[..n]);
      assert cats == cats[..n] + [cats[n]];
    }
  }

  /** The names of the given categories. */
  function Names(cats: seq<Category>): set<string>
  {
    set c | c in cats :: c.name
  }

  /** Taking one more category appends its column when it is a new one with groups. */
  lemma AddedColumnsGrow(existing: seq<string>, cats: seq<Category>, j: nat)
    requires j < |cats|
    ensures AddedColumns(existing, cats[..j + 1]) == AddedColumns(existing, cats[..j])
      + (if |cats[j].groups| > 0 && cats[j].name !in existing then [cats[j].name] else [])
  {
    assert cats[..j + 1][..j] == cats[..j];
  }

  /** Taking one more category adds its name, which is new when names are distinct. */
  lemma NamesGrow(cats: seq<Category>, j: nat)
    requires j < |cats|
    requires forall i, j :: 0 <= i < j < |cats| ==> cats[i].name != cats[j].name
    ensures Names(cats[..j + 1]) == Names(cats[..j]) + {cats[j].name}
    ensures cats[j].name !in Names(cats[..j])
    ensures cats[..j + 1][..j] == cats[..j]
  {
    assert cats[..j + 1] == cats[..j] + [cats[j]];
  }
}
