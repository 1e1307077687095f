/** The five structural edits `process` applies to one table, each as a pure
    function of the table and its slice of the column configuration
    (sfs_processing.py:34-99). */
module Steps {
  import opened Tables
  import opened Outcomes

  /** The boolean column that marks grand-total rows. */
  const Indicator: Name := "[IsGrandTotalRowTotal]"

  /** Every placeholder column is inserted at this position. */
  const InsertLoc: nat := 1

  /** pandas' `cell == True`: holds for the boolean True and, because Python
      has `1 == True`, for the integer 1; a missing value compares false. */
  predicate IsTrue(c: Cell) {
    c == Bool(true) || c == Int(1)
  }

  /** The row's cell at position `k` is a true indicator. */
  predicate Flagged(row: Row, k: nat) {
    k < |row| && IsTrue(row[k])
  }

  // ---------------------------------------------------------------------------
  // delete_rows
  // ---------------------------------------------------------------------------

  /** The rows whose cell at `k` is not a true indicator, in their order. */
  function Unflagged(rows: seq<Row>, k: nat): (r: seq<Row>)
    ensures forall row :: row in r <==> row in rows && !Flagged(row, k)
    ensures |r| <= |rows|
  {
    if rows == [] then []
    else if Flagged(rows[0], k) then Unflagged(rows[1..], k)
    else [rows[0]] + Unflagged(rows[1..], k)
  }

  /** Removes the grand-total rows. Looking up the indicator column raises
      a KeyError when the table has no such column. */
  function DeleteRows(t: Table): (r: Result<Table>)
    requires Valid(t)
    ensures r.Err? <==> Indicator !in t.columns
    ensures r.Err? ==> r.error == KeyNotFound([Indicator])
    ensures r.Ok? ==> Valid(r.value) && r.value.columns == t.columns
    ensures r.Ok? ==> forall row :: row in r.value.rows <==>
                        row in t.rows && !Flagged(row, IndexOf(t.columns, Indicator))
    ensures r.Ok? ==> forall i :: 0 <= i < |r.value.rows| ==> !IsTrue(Column(r.value, Indicator)[i])
  {
    if Indicator !in t.columns then Err(KeyNotFound([Indicator]))
    else
      var k := IndexOf(t.columns, Indicator);
      var r := Table(t.columns, Unflagged(t.rows, k));
      assert Rectangular(r) && forall i :: 0 <= i < |r.rows| ==> !IsTrue(r.rows[i][k]) by {
        forall i | 0 <= i < |r.rows| ensures |r.rows[i]| == |r.columns| && !IsTrue(r.rows[i][k]) {
          assert r.rows[i] in t.rows;
        }
      }
      Ok(r)
  }

  /** Filtering distributes over concatenation: rows are kept in their
      original relative order. */
  lemma {:induction false} UnflaggedAppend(a: seq<Row>, b: seq<Row>, k: nat)
    ensures Unflagged(a + b, k) == Unflagged(a, k) + Unflagged(b, k)
  {
    if a == [] {
      assert a + b == b;
    } else {
      assert (a + b)[1..] == a[1..] + b;
      UnflaggedAppend(a[1..], b, k);
    }
  }

  /** Filtering keeps every row when no row is flagged. */
  lemma {:induction false} UnflaggedNoop(rows: seq<Row>, k: nat)
    requires forall i :: 0 <= i < |rows| ==> !Flagged(rows[i], k)
    ensures Unflagged(rows, k) == rows
  {
    if rows != [] {
      UnflaggedNoop(rows[1..], k);
    }
  }

  /** Marks the rows that the filter keeps. */
  function KeepMask(rows: seq<Row>, k: nat): (mask: seq<bool>)
    ensures |mask| == |rows|
    ensures forall i :: 0 <= i < |rows| ==> (mask[i] <==> !Flagged(rows[i], k))
  {
    seq(|rows|, i requires 0 <= i < |rows| => !Flagged(rows[i], k))
  }

  /** The filter agrees with selecting the unflagged positions in ascending
      order: the kept rows stay in their original relative order. */
  lemma {:induction false} UnflaggedSelect(rows: seq<Row>, k: nat)
    ensures Unflagged(rows, k) == Select(rows, KeptIndices(KeepMask(rows, k)))
    decreases |rows|
  {
    if rows != [] {
      var last := |rows| - 1;
      var pre := rows[..last];
      var idx := KeptIndices(KeepMask(pre, k));
      var tail: seq<nat> := if Flagged(rows[last], k) then [] else [last];
      UnflaggedSnoc(rows, k);
      KeepMaskSnoc(rows, k);
      UnflaggedSelect(pre, k);
      SelectPrefix(rows, last, idx);
      SelectAppend(rows, idx, tail);
    }
  }

  /** Filtering a non-empty list: the filtered front, then the last row if
      it is kept. */
  lemma UnflaggedSnoc(rows: seq<Row>, k: nat)
    requires rows != []
    ensures Unflagged(rows, k) ==
            Unflagged(rows[..|rows| - 1], k) + (if Flagged(rows[|rows| - 1], k) then [] else [rows[|rows| - 1]])
  {
    var last := |rows| - 1;
    assert rows == rows[..last] + [rows[last]];
    UnflaggedAppend(rows[..last], [rows[last]], k);
    assert [rows[last]][1..] == [];
  }

  /** The kept positions of a non-empty list: those of the front, then the
      last position if it is kept. */
  lemma KeepMaskSnoc(rows: seq<Row>, k: nat)
    requires rows != []
    ensures KeptIndices(KeepMask(rows, k)) ==
            KeptIndices(KeepMask(rows[..|rows| - 1], k)) + (if Flagged(rows[|rows| - 1], k) then [] else [|rows| - 1])
  {
    var last := |rows| - 1;
    assert KeepMask(rows, k)[..last] == KeepMask(rows[..last], k);
  }

  /** delete_rows keeps the unflagged rows in their original order. */
  lemma DeleteRowsKeepsOrder(t: Table)
    requires Valid(t) && Indicator in t.columns
    ensures DeleteRows(t).Ok?
    ensures DeleteRows(t).value.rows ==
            Select(t.rows, KeptIndices(KeepMask(t.rows, IndexOf(t.columns, Indicator))))
  {
    UnflaggedSelect(t.rows, IndexOf(t.columns, Indicator));
  }

  /** Removing the total rows a second time changes nothing. */
  lemma DeleteRowsIdempotent(t: Table)
    requires Valid(t) && DeleteRows(t).Ok?
    ensures DeleteRows(DeleteRows(t).value) == DeleteRows(t)
  {
    var u := DeleteRows(t).value;
    var k := IndexOf(t.columns, Indicator);
    forall i | 0 <= i < |u.rows| ensures !Flagged(u.rows[i], k) {
      assert u.rows[i] in u.rows;
    }
    UnflaggedNoop(u.rows, k);
  }

  // ---------------------------------------------------------------------------
  // drop_columns
  // ---------------------------------------------------------------------------

  /** The listed names that are not columns, in list order. */
  function Missing(cols: seq<Name>, names: seq<Name>): (m: seq<Name>)
    ensures forall n :: n in m <==> n in names && n !in cols
  {
    if names == [] then []
    else (if names[0] in cols then [] else [names[0]]) + Missing(cols, names[1..])
  }

  /** The columns of `t` at positions `idx`, cells included. */
  function Project(t: Table, idx: seq<nat>): (r: Table)
    requires Rectangular(t)
    requires forall j :: 0 <= j < |idx| ==> idx[j] < |t.columns|
    ensures Rectangular(r) && |r.rows| == |t.rows|
  {
    Table(Select(t.columns, idx),
          seq(|t.rows|, i requires 0 <= i < |t.rows| => Select(t.rows[i], idx)))
  }

  /** Projecting a valid table onto increasing positions keeps each kept
      column's cells and the columns' relative order. */
  lemma ProjectKeepsColumns(t: Table, idx: seq<nat>)
    requires Valid(t) && Increasing(idx)
    requires forall j :: 0 <= j < |idx| ==> idx[j] < |t.columns|
    ensures Valid(Project(t, idx))
    ensures forall c :: c in Project(t, idx).columns ==> c in t.columns
    ensures forall c :: c in Project(t, idx).columns ==> Column(Project(t, idx), c) == Column(t, c)
    ensures forall i, j :: 0 <= i < j < |idx| ==>
              IndexOf(t.columns, Project(t, idx).columns[i]) < IndexOf(t.columns, Project(t, idx).columns[j])
  {
    var r := Project(t, idx);
    SelectDistinct(t.columns, idx);
    forall j | 0 <= j < |idx| ensures IndexOf(t.columns, r.columns[j]) == idx[j] {
      IndexOfDistinct(t.columns, idx[j]);
    }
    forall c | c in r.columns ensures Column(r, c) == Column(t, c) {
      var j := IndexOf(r.columns, c);
      assert IndexOf(t.columns, c) == idx[j];
    }
  }

  /** Removes the listed columns. The drop is strict: when any listed name is
      not a column it raises a KeyError naming every such name. */
  function DropColumns(t: Table, names: seq<Name>): (r: Result<Table>)
    requires Valid(t)
    ensures r.Err? <==> exists n :: n in names && n !in t.columns
    ensures r.Err? ==> r.error.KeyNotFound? &&
                       forall n :: n in r.error.missing <==> n in names && n !in t.columns
    ensures r.Ok? ==> Valid(r.value) && |r.value.rows| == |t.rows|
    ensures r.Ok? ==> forall c :: c in r.value.columns <==> c in t.columns && c !in names
    ensures r.Ok? ==> forall i, j :: 0 <= i < j < |r.value.columns| ==>
                        IndexOf(t.columns, r.value.columns[i]) < IndexOf(t.columns, r.value.columns[j])
    ensures r.Ok? ==> forall c :: c in r.value.columns ==> Column(r.value, c) == Column(t, c)
  {
    var missing := Missing(t.columns, names);
    if missing != [] then
      assert missing[0] in missing;
      Err(KeyNotFound(missing))
    else
      var idx := KeptIndices(Keep(t.columns, names));
      ProjectKeepsColumns(t, idx);
      DropProjection(t, names);
      Ok(Project(t, idx))
  }

  /** Marks the columns that are not listed. */
  function Keep(cols: seq<Name>, names: seq<Name>): (mask: seq<bool>)
    ensures |mask| == |cols|
    ensures forall i :: 0 <= i < |cols| ==> (mask[i] <==> cols[i] !in names)
  {
    seq(|cols|, i requires 0 <= i < |cols| => cols[i] !in names)
  }

  /** Projecting onto the unlisted positions keeps exactly the unlisted
      columns. */
  lemma DropProjection(t: Table, names: seq<Name>)
    requires Rectangular(t)
    ensures forall c :: c in Project(t, KeptIndices(Keep(t.columns, names))).columns <==>
                        c in t.columns && c !in names
  {
    var idx := KeptIndices(Keep(t.columns, names));
    var r := Project(t, idx);
    forall c | c in t.columns && c !in names ensures c in r.columns {
      var i := IndexOf(t.columns, c);
      var j := IndexOf(idx, i);
      assert r.columns[j] == c;
    }
    forall c | c in r.columns ensures c in t.columns && c !in names {
      var j := IndexOf(r.columns, c);
      assert c == t.columns[idx[j]];
    }
  }

  /** With nothing marked for removal every position is kept. */
  lemma {:induction false} KeptAll(mask: seq<bool>)
    requires forall i :: 0 <= i < |mask| ==> mask[i]
    ensures KeptIndices(mask) == seq(|mask|, i => i)
    decreases |mask|
  {
    if mask != [] {
      var last := |mask| - 1;
      KeptAll(mask[..last]);
    }
  }

  /** Dropping an empty list returns the table unchanged. */
  lemma DropNothing(t: Table)
    requires Valid(t)
    ensures DropColumns(t, []) == Ok(t)
  {
    var idx := KeptIndices(Keep(t.columns, []));
    KeptAll(Keep(t.columns, []));
    var r := Project(t, idx);
    assert r.columns == t.columns;
    forall i | 0 <= i < |t.rows| ensures r.rows[i] == t.rows[i] {
      assert Select(t.rows[i], idx) == t.rows[i];
    }
    assert r == t;
  }

  // ---------------------------------------------------------------------------
  // rename_columns
  // ---------------------------------------------------------------------------

  /** A column's name after renaming: keys not present are ignored. */
  function Renamed(m: map<Name, Name>, c: Name): Name {
    if c in m then m[c] else c
  }

  /** Renames every column that is a key of `m`, all at once and in place;
      the rows are untouched. */
  function RenameColumns(t: Table, m: map<Name, Name>): (r: Table)
    ensures r.rows == t.rows && |r.columns| == |t.columns|
    ensures forall i :: 0 <= i < |t.columns| ==> r.columns[i] == Renamed(m, t.columns[i])
    ensures Rectangular(t) ==> Rectangular(r)
  {
    Table(seq(|t.columns|, i requires 0 <= i < |t.columns| => Renamed(m, t.columns[i])), t.rows)
  }

  /** No two distinct columns end up with the same name. */
  predicate InjectiveOn(m: map<Name, Name>, cols: seq<Name>) {
    forall a, b :: a in cols && b in cols && a != b ==> Renamed(m, a) != Renamed(m, b)
  }

  /** Renaming keeps the names unique exactly when it makes no two columns
      collide. */
  lemma RenameDistinct(t: Table, m: map<Name, Name>)
    requires Distinct(t.columns)
    ensures Distinct(RenameColumns(t, m).columns) <==> InjectiveOn(m, t.columns)
  {
    var r := RenameColumns(t, m);
    if Distinct(r.columns) {
      forall a, b | a in t.columns && b in t.columns && a != b
        ensures Renamed(m, a) != Renamed(m, b)
      {
        var i, j := IndexOf(t.columns, a), IndexOf(t.columns, b);
        assert r.columns[i] == Renamed(m, a) && r.columns[j] == Renamed(m, b);
      }
    }
  }

  /** A renamed column carries the cells of the column it was renamed from. */
  lemma RenameCarriesValues(t: Table, m: map<Name, Name>, c: Name)
    requires Valid(t) && InjectiveOn(m, t.columns) && c in t.columns
    ensures Renamed(m, c) in RenameColumns(t, m).columns
    ensures Column(RenameColumns(t, m), Renamed(m, c)) == Column(t, c)
  {
    var r := RenameColumns(t, m);
    RenameDistinct(t, m);
    var k := IndexOf(t.columns, c);
    assert r.columns[k] == Renamed(m, c);
    IndexOfDistinct(r.columns, k);
  }

  /** Renaming with an inverse map restores the original table, provided no
      column that was left alone is itself a key of the inverse. */
  lemma RenameRoundTrip(t: Table, m: map<Name, Name>, inv: map<Name, Name>)
    requires forall k :: k in m ==> m[k] in inv && inv[m[k]] == k
    requires forall c :: c in t.columns && c !in m ==> c !in inv
    ensures RenameColumns(RenameColumns(t, m), inv) == t
  {
    var r := RenameColumns(RenameColumns(t, m), inv);
    assert r.columns == t.columns;
  }

  // ---------------------------------------------------------------------------
  // insert_columns
  // ---------------------------------------------------------------------------

  /** DataFrame.insert(loc, c, None, allow_duplicates=False): the duplicate
      check comes first, then the position must not lie past the last column. */
  function InsertColumn(t: Table, loc: nat, c: Name): (r: Result<Table>)
    requires Rectangular(t)
    ensures r.Ok? ==> Rectangular(r.value) && |r.value.rows| == |t.rows|
  {
    if c in t.columns then Err(AlreadyExists(c))
    else if loc > |t.columns| then Err(LocOutOfBounds(loc, |t.columns|))
    else
      Ok(Table(t.columns[..loc] + [c] + t.columns[loc..],
               seq(|t.rows|, i requires 0 <= i < |t.rows| => t.rows[i][..loc] + [Null] + t.rows[i][loc..])))
  }

  /** The new names are pairwise distinct and none is already a column. */
  predicate Fresh(cols: seq<Name>, names: seq<Name>) {
    Distinct(names) && forall n :: n in names ==> n !in cols
  }

  /** Inserts each listed name, in list order, as an all-null column at
      position 1. Since every insertion lands at the same position, the new
      columns end up in reverse list order right after the first column. */
  function InsertColumns(t: Table, names: seq<Name>): (r: Result<Table>)
    requires Rectangular(t)
    ensures r.Ok? <==> Fresh(t.columns, names) && (names == [] || t.columns != [])
    ensures names != [] && t.columns == [] ==> r == Err(LocOutOfBounds(InsertLoc, 0))
    ensures r.Err? && t.columns != [] ==> r.error.AlreadyExists? && r.error.name in names
    ensures r.Ok? ==> Rectangular(r.value) && |r.value.rows| == |t.rows|
    ensures r.Ok? && Distinct(t.columns) ==> Distinct(r.value.columns)
    ensures r.Ok? && names == [] ==> r.value == t
    ensures r.Ok? && names != [] ==>
              r.value.columns == t.columns[..1] + Reverse(names) + t.columns[1..]
    ensures r.Ok? && names != [] ==> forall i :: 0 <= i < |t.rows| ==>
              r.value.rows[i] == t.rows[i][..1] + Nulls(|names|) + t.rows[i][1..]
    decreases |names|
  {
    if names == [] then Ok(t)
    else
      var u :- InsertColumn(t, InsertLoc, names[0]);
      FreshCons(t.columns, names);
      InsertOneDistinct(t.columns, names[0]);
      var r := InsertColumns(u, names[1..]);
      InsertColumnShape(t, names[0], u);
      if r.Err? then r
      else
        InsertHeaderStep(t.columns, names, u.columns, r.value.columns);
        InsertRowsStep(t.rows, u.rows, r.value.rows, |names|);
        r
  }

  /** Inserting `x` right after the head of `s`, then inserting `mid` right
      after the head again, puts `mid` in front of `x`. */
  lemma InsertAfterHeadTwice<T>(s: seq<T>, x: T, mid: seq<T>)
    requires |s| >= 1
    ensures var s' := s[..1] + [x] + s[1..];
            s'[..1] + mid + s'[1..] == s[..1] + (mid + [x]) + s[1..]
  {
    var s' := s[..1] + [x] + s[1..];
    assert s'[..1] == s[..1];
    assert s'[1..] == [x] + s[1..];
  }

  /** The whole list is fresh for the header exactly when its head is and
      its tail is fresh for the header with the head inserted. */
  lemma FreshCons(cols: seq<Name>, names: seq<Name>)
    requires cols != [] && names != [] && names[0] !in cols
    ensures Fresh(cols[..1] + [names[0]] + cols[1..], names[1..]) <==> Fresh(cols, names)
  {
    var n0, rest := names[0], names[1..];
    var cols' := cols[..1] + [n0] + cols[1..];
    assert forall n :: n in cols' <==> n == n0 || n in cols by {
      assert cols == cols[..1] + cols[1..];
    }
    if Fresh(cols', rest) {
      forall i, j | 0 <= i < j < |names| ensures names[i] != names[j] {
        assert names[j] == rest[j - 1];
        if i > 0 { assert names[i] == rest[i - 1]; }
      }
      forall n | n in names ensures n !in cols {
        if n != n0 {
          var j := IndexOf(names, n);
          assert rest[j - 1] == n;
        }
      }
    }
    if Fresh(cols, names) {
      forall i, j | 0 <= i < j < |rest| ensures rest[i] != rest[j] {
        assert rest[i] == names[i + 1] && rest[j] == names[j + 1];
      }
      forall n | n in rest ensures n !in cols' {
        var j := IndexOf(rest, n);
        assert names[j + 1] == n;
        assert names[0] != names[j + 1];
      }
    }
  }

  /** Inserting a fresh name keeps the header free of repeats. */
  lemma InsertOneDistinct(cols: seq<Name>, c: Name)
    requires cols != [] && c !in cols
    ensures Distinct(cols) ==> Distinct(cols[..1] + [c] + cols[1..])
  {
    var cols' := cols[..1] + [c] + cols[1..];
    if Distinct(cols) {
      forall i, j | 0 <= i < j < |cols'| ensures cols'[i] != cols'[j] {
        if i == 1 {
          assert cols'[j] == cols[j - 1];
        } else if j == 1 {
          assert cols'[i] == cols[0];
        } else if i == 0 {
          assert cols'[i] == cols[0] && cols'[j] == cols[j - 1];
        } else {
          assert cols'[i] == cols[i - 1] && cols'[j] == cols[j - 1];
        }
      }
    }
  }

  /** The shape of a successful single insertion after the first column. */
  lemma InsertColumnShape(t: Table, c: Name, u: Table)
    requires Rectangular(t) && InsertColumn(t, InsertLoc, c) == Ok(u)
    ensures |t.columns| >= 1 && u.columns == t.columns[..1] + [c] + t.columns[1..]
    ensures |u.rows| == |t.rows|
    ensures forall i :: 0 <= i < |t.rows| ==> u.rows[i] == t.rows[i][..1] + [Null] + t.rows[i][1..]
  {
  }

  /** One unfolding of InsertColumns on the header: the first name goes
      right after the head and the rest of the list in front of it. */
  lemma InsertHeaderStep(cols: seq<Name>, names: seq<Name>, mid: seq<Name>, res: seq<Name>)
    requires |cols| >= 1 && names != []
    requires mid == cols[..1] + [names[0]] + cols[1..]
    requires |names| == 1 ==> res == mid
    requires |names| > 1 ==> res == mid[..1] + Reverse(names[1..]) + mid[1..]
    ensures res == cols[..1] + Reverse(names) + cols[1..]
  {
    assert Reverse(names) == Reverse(names[1..]) + [names[0]];
    InsertAfterHeadTwice(cols, names[0], Reverse(names[1..]));
  }

  /** One unfolding of InsertColumns on the rows. */
  lemma InsertRowsStep(rows: seq<Row>, mids: seq<Row>, res: seq<Row>, n: nat)
    requires n >= 1 && |mids| == |rows|
    requires forall i :: 0 <= i < |rows| ==> |rows[i]| >= 1
    requires forall i :: 0 <= i < |rows| ==> mids[i] == rows[i][..1] + [Null] + rows[i][1..]
    requires n == 1 ==> res == mids
    requires n > 1 ==> |res| == |mids|
    requires n > 1 ==> forall i :: 0 <= i < |mids| ==> res[i] == mids[i][..1] + Nulls(n - 1) + mids[i][1..]
    ensures forall i :: 0 <= i < |rows| ==> res[i] == rows[i][..1] + Nulls(n) + rows[i][1..]
  {
    forall i | 0 <= i < |rows| ensures res[i] == rows[i][..1] + Nulls(n) + rows[i][1..] {
      InsertRowStep(rows[i], mids[i], res[i], n);
    }
  }

  /** One unfolding of InsertColumns on one row. */
  lemma InsertRowStep(row: Row, mid: Row, res: Row, n: nat)
    requires |row| >= 1 && n >= 1
    requires mid == row[..1] + [Null] + row[1..]
    requires n == 1 ==> res == mid
    requires n > 1 ==> res == mid[..1] + Nulls(n - 1) + mid[1..]
    ensures res == row[..1] + Nulls(n) + row[1..]
  {
    assert Nulls(n - 1) + [Null] == Nulls(n);
    InsertAfterHeadTwice(row, Null, Nulls(n - 1));
  }

  /** Indexing into `s` with `mid` spliced in after the head. */
  lemma SpliceAt<T>(s: seq<T>, mid: seq<T>, j: nat)
    requires |s| >= 1 && j < |s| + |mid|
    ensures (s[..1] + mid + s[1..])[j] ==
            (if j == 0 then s[0] else if j < 1 + |mid| then mid[j - 1] else s[j - |mid|])
  {
  }

  /** Where an old element lands when `mid` is spliced in after the head. */
  lemma SpliceKeepsOld<T>(s: seq<T>, mid: seq<T>, x: T)
    requires x in s && x !in mid
    ensures x in s[..1] + mid + s[1..]
    ensures IndexOf(s[..1] + mid + s[1..], x) ==
            (if IndexOf(s, x) == 0 then 0 else IndexOf(s, x) + |mid|)
  {
    SpliceKeepsAt(s, mid, IndexOf(s, x));
  }

  /** SpliceKeepsOld, stated for the position of the element's first
      occurrence. */
  lemma SpliceKeepsAt<T>(s: seq<T>, mid: seq<T>, p: nat)
    requires p < |s| && s[p] !in mid
    requires forall j :: 0 <= j < p ==> s[j] != s[p]
    ensures s[p] in s[..1] + mid + s[1..]
    ensures IndexOf(s[..1] + mid + s[1..], s[p]) == (if p == 0 then 0 else p + |mid|)
  {
    var w := s[..1] + mid + s[1..];
    var q := if p == 0 then 0 else p + |mid|;
    SpliceAt(s, mid, q);
    forall j | 0 <= j < q ensures w[j] != s[p] {
      SpliceAt(s, mid, j);
      if 1 <= j < 1 + |mid| {
        assert mid[j - 1] in mid;
      }
    }
    IndexOfIs(w, s[p], q);
  }

  /** Where a spliced-in element lands when it is not the head. */
  lemma SpliceFindsNew<T>(s: seq<T>, mid: seq<T>, x: T)
    requires |s| >= 1 && x in mid && x != s[0]
    ensures x in s[..1] + mid + s[1..]
    ensures IndexOf(s[..1] + mid + s[1..], x) == 1 + IndexOf(mid, x)
  {
    var w := s[..1] + mid + s[1..];
    var q := 1 + IndexOf(mid, x);
    SpliceAt(s, mid, q);
    forall j | 0 <= j < q ensures w[j] != x {
      SpliceAt(s, mid, j);
    }
    IndexOfIs(w, x, q);
  }

  /** Inserting placeholders leaves every existing column's cells alone and
      makes every new column entirely null. */
  lemma InsertKeepsCells(t: Table, names: seq<Name>)
    requires Rectangular(t) && InsertColumns(t, names).Ok?
    ensures forall c :: c in InsertColumns(t, names).value.columns <==> c in t.columns || c in names
    ensures forall c :: c in t.columns ==>
              c in InsertColumns(t, names).value.columns &&
              Column(InsertColumns(t, names).value, c) == Column(t, c)
    ensures forall n :: n in names ==>
              n in InsertColumns(t, names).value.columns &&
              Column(InsertColumns(t, names).value, n) == Nulls(|t.rows|)
  {
    var r := InsertColumns(t, names).value;
    if names != [] {
      var rev := Reverse(names);
      ReverseMembers(names);
      assert t.columns == t.columns[..1] + t.columns[1..];
      forall c | c in t.columns
        ensures c in r.columns && Column(r, c) == Column(t, c)
      {
        SplicedKeepsColumn(t, rev, r, c);
      }
      forall n | n in names
        ensures n in r.columns && Column(r, n) == Nulls(|t.rows|)
      {
        SplicedNullColumn(t, rev, r, n);
      }
    }
  }

  /** An old column keeps its cells when null columns are spliced in after
      the first one. */
  lemma SplicedKeepsColumn(t: Table, mid: seq<Name>, r: Table, c: Name)
    requires Rectangular(t) && |t.columns| >= 1 && c in t.columns && c !in mid
    requires r.columns == t.columns[..1] + mid + t.columns[1..] && |r.rows| == |t.rows|
    requires forall i :: 0 <= i < |t.rows| ==> r.rows[i] == t.rows[i][..1] + Nulls(|mid|) + t.rows[i][1..]
    ensures Rectangular(r) && c in r.columns && Column(r, c) == Column(t, c)
  {
    SpliceKeepsOld(t.columns, mid, c);
    var p := IndexOf(t.columns, c);
    var q := IndexOf(r.columns, c);
    forall i | 0 <= i < |t.rows| ensures r.rows[i][q] == t.rows[i][p] {
      SpliceAt(t.rows[i], Nulls(|mid|), q);
    }
  }

  /** A spliced-in column other than the first is entirely null. */
  lemma SplicedNullColumn(t: Table, mid: seq<Name>, r: Table, n: Name)
    requires Rectangular(t) && |t.columns| >= 1 && n in mid && n != t.columns[0]
    requires r.columns == t.columns[..1] + mid + t.columns[1..] && |r.rows| == |t.rows|
    requires forall i :: 0 <= i < |t.rows| ==> r.rows[i] == t.rows[i][..1] + Nulls(|mid|) + t.rows[i][1..]
    ensures Rectangular(r) && n in r.columns && Column(r, n) == Nulls(|t.rows|)
  {
    SpliceFindsNew(t.columns, mid, n);
    var q := IndexOf(r.columns, n);
    forall i | 0 <= i < |t.rows| ensures r.rows[i][q] == Null {
      SpliceAt(t.rows[i], Nulls(|mid|), q);
    }
  }

  /** Whether inserting fails, and the resulting header, depend only on the
      header of the table. */
  lemma {:induction false} InsertHeaderOnly(t1: Table, t2: Table, names: seq<Name>)
    requires Rectangular(t1) && Rectangular(t2) && t1.columns == t2.columns
    ensures InsertColumns(t1, names).Ok? == InsertColumns(t2, names).Ok?
    ensures InsertColumns(t1, names).Err? ==> InsertColumns(t1, names) == InsertColumns(t2, names)
    ensures InsertColumns(t1, names).Ok? ==>
              InsertColumns(t1, names).value.columns == InsertColumns(t2, names).value.columns
    decreases |names|
  {
    if names != [] {
      var u1, u2 := InsertColumn(t1, InsertLoc, names[0]), InsertColumn(t2, InsertLoc, names[0]);
      if u1.Ok? {
        InsertHeaderOnly(u1.value, u2.value, names[1..]);
      }
    }
  }

  // ---------------------------------------------------------------------------
  // reorder_columns
  // ---------------------------------------------------------------------------

  /** The table with header `target`: a listed column that exists takes its
      cells from `t`, any other listed column is all-null. */
  function Reindexed(t: Table, target: seq<Name>): (r: Table)
    requires Rectangular(t)
    ensures r.columns == target && |r.rows| == |t.rows| && Rectangular(r)
  {
    Table(target,
          seq(|t.rows|, i requires 0 <= i < |t.rows| =>
            seq(|target|, j requires 0 <= j < |target| =>
              if target[j] in t.columns then t.rows[i][IndexOf(t.columns, target[j])] else Null)))
  }

  /** reindex(columns=target). A header equal to the target is kept as is;
      otherwise the current labels must be unique. */
  function ReorderColumns(t: Table, target: seq<Name>): (r: Result<Table>)
    requires Rectangular(t)
    ensures r.Err? <==> t.columns != target && !Distinct(t.columns)
    ensures r.Err? ==> r.error == DuplicateAxis
    ensures r.Ok? ==> r.value.columns == target && |r.value.rows| == |t.rows| && Rectangular(r.value)
    ensures r.Ok? ==> forall c :: c in target ==>
              Column(r.value, c) == (if c in t.columns then Column(t, c) else Nulls(|t.rows|))
    ensures t.columns == target ==> r == Ok(t)
    ensures r.Ok? && t.columns != target ==>
              forall i, j :: 0 <= i < |t.rows| && 0 <= j < |target| ==>
                r.value.rows[i][j] == (if target[j] in t.columns then Column(t, target[j])[i] else Null)
  {
    if t.columns == target then Ok(t)
    else if !Distinct(t.columns) then Err(DuplicateAxis)
    else
      var r := Reindexed(t, target);
      assert forall c :: c in target ==>
               Column(r, c) == (if c in t.columns then Column(t, c) else Nulls(|t.rows|));
      Ok(r)
  }

  /** On a header without repeats, reindexing to the header itself is the
      identity. */
  lemma ReindexedSelf(t: Table)
    requires Valid(t)
    ensures Reindexed(t, t.columns) == t
  {
    var r := Reindexed(t, t.columns);
    forall i | 0 <= i < |t.rows| ensures r.rows[i] == t.rows[i] {
      forall j | 0 <= j < |t.columns| ensures r.rows[i][j] == t.rows[i][j] {
        IndexOfDistinct(t.columns, j);
      }
    }
  }

  /** Reordering twice is reordering once to the second list, as long as
      the first list keeps every existing column the second list asks for. */
  lemma ReorderCompose(t: Table, a: seq<Name>, b: seq<Name>)
    requires Valid(t) && Distinct(a)
    requires forall c :: c in b && c in t.columns ==> c in a
    ensures ReorderColumns(t, a).Ok?
    ensures ReorderColumns(ReorderColumns(t, a).value, b) == ReorderColumns(t, b)
  {
    ReindexedSelf(t);
    var u := ReorderColumns(t, a).value;
    assert u == Reindexed(t, a);
    var v := Reindexed(u, b);
    var w := Reindexed(t, b);
    forall i | 0 <= i < |t.rows| ensures v.rows[i] == w.rows[i] {
      forall j | 0 <= j < |b| ensures v.rows[i][j] == w.rows[i][j] {
        var c := b[j];
        if c in a {
          var k := IndexOf(a, c);
          assert v.rows[i][j] == u.rows[i][k];
        }
      }
    }
    assert v == w;
    if a == b {
      ReindexedSelf(u);
    }
  }

  /** Reordering is idempotent. */
  lemma ReorderIdempotent(t: Table, target: seq<Name>)
    requires Rectangular(t) && ReorderColumns(t, target).Ok?
    ensures ReorderColumns(ReorderColumns(t, target).value, target) == ReorderColumns(t, target)
  {
  }

  /** Reordering to a permutation of the header and back restores the table. */
  lemma ReorderRoundTrip(t: Table, p: seq<Name>)
    requires Valid(t) && Distinct(p)
    requires forall c :: c in t.columns ==> c in p
    ensures ReorderColumns(t, p).Ok?
    ensures ReorderColumns(ReorderColumns(t, p).value, t.columns) == Ok(t)
  {
    ReorderCompose(t, p, t.columns);
  }
}
