/** The per-file transformation of SFSHistoDataProcessor.process: the five
    edits applied to a freshly read table in the order the method calls them
    (sfs_processing.py:121-127), with the column configuration that
    setup_columns stores (sfs_processing.py:17-27). */
module Pipeline {
  import opened Tables
  import opened Outcomes
  import opened Steps

  /** The four column lists handed to setup_columns. */
  datatype ColumnSpec = ColumnSpec(
    dropColumns: seq<Name>,
    renames: map<Name, Name>,
    newColumns: seq<Name>,
    reorderedColumns: seq<Name>)

  /** Filter rows, drop, rename, insert, reorder. `config` is None when
      setup_columns was never called: the first access to the lists, in the
      drop step, then fails. */
  function Process(config: Option<ColumnSpec>, t: Table): (r: Result<Table>)
    requires Valid(t)
    ensures Indicator !in t.columns ==> r == Err(KeyNotFound([Indicator]))
    ensures Indicator in t.columns && config.None? ==> r == Err(NotConfigured)
    ensures r.Ok? ==> config.Some? && r.value.columns == config.value.reorderedColumns
    ensures r.Ok? ==> Rectangular(r.value) && |r.value.rows| == |DeleteRows(t).value.rows|
    ensures r.Ok? ==> forall n :: n in config.value.dropColumns ==> n in t.columns
    ensures r.Ok? ==> Distinct(config.value.newColumns)
  {
    var filtered :- DeleteRows(t);
    if config.None? then Err(NotConfigured)
    else
      var spec := config.value;
      var dropped :- DropColumns(filtered, spec.dropColumns);
      var renamed := RenameColumns(dropped, spec.renames);
      var widened :- InsertColumns(renamed, spec.newColumns);
      ReorderColumns(widened, spec.reorderedColumns)
  }

  /** A source column that the drop list leaves in place. */
  predicate Survives(spec: ColumnSpec, cols: seq<Name>, o: Name) {
    o in cols && o !in spec.dropColumns
  }

  /** No two surviving columns are renamed to the same name. */
  ghost predicate RenameInjective(spec: ColumnSpec, cols: seq<Name>) {
    forall a, b :: Survives(spec, cols, a) && Survives(spec, cols, b) && a != b ==>
      Renamed(spec.renames, a) != Renamed(spec.renames, b)
  }

  /** The intermediate tables of one successful run up to the insert step. */
  lemma Stages(spec: ColumnSpec, t: Table)
    returns (filtered: Table, dropped: Table, renamed: Table, widened: Table)
    requires Valid(t) && Process(Some(spec), t).Ok?
    ensures DeleteRows(t) == Ok(filtered) && Valid(filtered) && filtered.columns == t.columns
    ensures DropColumns(filtered, spec.dropColumns) == Ok(dropped) && Valid(dropped)
    ensures forall c :: c in dropped.columns <==> Survives(spec, t.columns, c)
    ensures renamed == RenameColumns(dropped, spec.renames)
    ensures InsertColumns(renamed, spec.newColumns) == Ok(widened) && Rectangular(widened)
    ensures Process(Some(spec), t) == ReorderColumns(widened, spec.reorderedColumns)
  {
    filtered := DeleteRows(t).value;
    dropped := DropColumns(filtered, spec.dropColumns).value;
    renamed := RenameColumns(dropped, spec.renames);
    widened := InsertColumns(renamed, spec.newColumns).value;
  }

  /** The converse of Stages: a run whose every step succeeds exports the
      table the reorder step produces. */
  lemma StagesCompose(spec: ColumnSpec, t: Table, filtered: Table, dropped: Table, widened: Table)
    requires Valid(t) && DeleteRows(t) == Ok(filtered)
    requires DropColumns(filtered, spec.dropColumns) == Ok(dropped)
    requires InsertColumns(RenameColumns(dropped, spec.renames), spec.newColumns) == Ok(widened)
    requires ReorderColumns(widened, spec.reorderedColumns).Ok?
    ensures Process(Some(spec), t) == ReorderColumns(widened, spec.reorderedColumns)
  {
  }

  /** The drop step keeps exactly the surviving columns of the filtered
      table when every listed column exists. */
  lemma DroppedSurvivors(spec: ColumnSpec, t: Table) returns (filtered: Table, dropped: Table)
    requires Valid(t) && Indicator in t.columns
    requires forall n :: n in spec.dropColumns ==> n in t.columns
    ensures DeleteRows(t) == Ok(filtered) && Valid(filtered) && filtered.columns == t.columns
    ensures DropColumns(filtered, spec.dropColumns) == Ok(dropped) && Valid(dropped)
    ensures forall c :: c in dropped.columns <==> Survives(spec, t.columns, c)
  {
    filtered := DeleteRows(t).value;
    dropped := DropColumns(filtered, spec.dropColumns).value;
  }

  /** Under the conditions of ProcessSucceeds, renaming the surviving
      columns leaves a header the insert step accepts. */
  lemma RenamedHeaderFits(spec: ColumnSpec, t: Table, dropped: Table) returns (renamed: Table)
    requires Valid(dropped)
    requires forall c :: c in dropped.columns <==> Survives(spec, t.columns, c)
    requires RenameInjective(spec, t.columns)
    requires forall o :: Survives(spec, t.columns, o) ==> Renamed(spec.renames, o) !in spec.newColumns
    requires spec.newColumns == [] || exists o :: Survives(spec, t.columns, o)
    ensures renamed == RenameColumns(dropped, spec.renames)
    ensures Rectangular(renamed) && Distinct(renamed.columns)
    ensures forall c :: c in renamed.columns ==> c !in spec.newColumns
    ensures spec.newColumns == [] || renamed.columns != []
  {
    renamed := RenameColumns(dropped, spec.renames);
    RenameDistinct(dropped, spec.renames);
    forall i | 0 <= i < |renamed.columns| ensures renamed.columns[i] !in spec.newColumns {
      assert Survives(spec, t.columns, dropped.columns[i]);
    }
    if spec.newColumns != [] {
      var o :| Survives(spec, t.columns, o);
      assert o in dropped.columns;
    }
  }

  /** Sufficient conditions for a file to go through: the indicator and
      every dropped column exist, surviving columns do not collide when
      renamed, and the placeholders are new, pairwise distinct and have a
      first column to follow. */
  lemma ProcessSucceeds(spec: ColumnSpec, t: Table)
    requires Valid(t) && Indicator in t.columns
    requires forall n :: n in spec.dropColumns ==> n in t.columns
    requires RenameInjective(spec, t.columns)
    requires Distinct(spec.newColumns)
    requires forall o :: Survives(spec, t.columns, o) ==> Renamed(spec.renames, o) !in spec.newColumns
    requires spec.newColumns == [] || exists o :: Survives(spec, t.columns, o)
    ensures Process(Some(spec), t).Ok?
    ensures Process(Some(spec), t).value.columns == spec.reorderedColumns
  {
    var filtered, dropped := DroppedSurvivors(spec, t);
    var renamed := RenamedHeaderFits(spec, t, dropped);
    assert Fresh(renamed.columns, spec.newColumns);
    var widened := InsertColumns(renamed, spec.newColumns).value;
    assert ReorderColumns(widened, spec.reorderedColumns).Ok?;
    StagesCompose(spec, t, filtered, dropped, widened);
  }

  /** Every exported column that stems from a source column carries that
      column's cells, minus the removed total rows. */
  lemma ProcessCarriesValues(spec: ColumnSpec, t: Table, o: Name)
    requires Valid(t) && Process(Some(spec), t).Ok?
    requires RenameInjective(spec, t.columns)
    requires Survives(spec, t.columns, o) && Renamed(spec.renames, o) in spec.reorderedColumns
    ensures Column(Process(Some(spec), t).value, Renamed(spec.renames, o)) ==
            Column(DeleteRows(t).value, o)
  {
    var filtered, dropped, renamed, widened := Stages(spec, t);
    var c := Renamed(spec.renames, o);
    assert Column(dropped, o) == Column(filtered, o);
    RenameCarriesValues(dropped, spec.renames, o);
    assert Column(renamed, c) == Column(filtered, o);
    InsertKeepsCells(renamed, spec.newColumns);
  }

  /** Every exported column that no source column was renamed into -- a
      placeholder or a listed name absent from the file -- is entirely null. */
  lemma ProcessNullFill(spec: ColumnSpec, t: Table, c: Name)
    requires Valid(t) && Process(Some(spec), t).Ok?
    requires c in spec.reorderedColumns
    requires forall o :: Survives(spec, t.columns, o) ==> Renamed(spec.renames, o) != c
    ensures Column(Process(Some(spec), t).value, c) == Nulls(|Process(Some(spec), t).value.rows|)
  {
    var filtered, dropped, renamed, widened := Stages(spec, t);
    InsertKeepsCells(renamed, spec.newColumns);
    forall i | 0 <= i < |renamed.columns| ensures renamed.columns[i] != c {
      assert Survives(spec, t.columns, dropped.columns[i]);
    }
  }

  /** No exported cell of the indicator's column is a true total flag. */
  lemma NoTotalsExported(spec: ColumnSpec, t: Table)
    requires Valid(t) && Process(Some(spec), t).Ok?
    requires RenameInjective(spec, t.columns)
    requires Survives(spec, t.columns, Indicator)
    requires Renamed(spec.renames, Indicator) in spec.reorderedColumns
    ensures forall i :: 0 <= i < |Process(Some(spec), t).value.rows| ==>
              !IsTrue(Column(Process(Some(spec), t).value, Renamed(spec.renames, Indicator))[i])
  {
    ProcessCarriesValues(spec, t, Indicator);
  }

  /** Whether a file fails, and with which error, depends on its header
      only, never on its cells. */
  lemma ProcessDependsOnlyOnHeader(config: Option<ColumnSpec>, t1: Table, t2: Table)
    requires Valid(t1) && Valid(t2) && t1.columns == t2.columns
    ensures Process(config, t1).Ok? == Process(config, t2).Ok?
    ensures Process(config, t1).Err? ==> Process(config, t1).error == Process(config, t2).error
  {
    if Indicator in t1.columns && config.Some? {
      var spec := config.value;
      var f1, f2 := DeleteRows(t1).value, DeleteRows(t2).value;
      if DropColumns(f1, spec.dropColumns).Ok? {
        var d1, d2 := DropColumns(f1, spec.dropColumns).value, DropColumns(f2, spec.dropColumns).value;
        assert d1.columns == d2.columns;
        var n1, n2 := RenameColumns(d1, spec.renames), RenameColumns(d2, spec.renames);
        assert n1.columns == n2.columns;
        InsertHeaderOnly(n1, n2, spec.newColumns);
      }
    }
  }
}
