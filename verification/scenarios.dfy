/** Small concrete shapes of the pipeline's behaviour. */
module Scenarios {
  import opened Tables
  import opened Outcomes
  import opened Steps
  import opened Pipeline

  /** Inserting [a, b] into a two-column table puts b before a, right after
      the first column. */
  lemma InsertTwoReversed(h: Name, tl: Name, a: Name, b: Name, x: Cell, y: Cell)
    requires a != b && a != h && a != tl && b != h && b != tl
    ensures InsertColumns(Table([h, tl], [[x, y]]), [a, b]) ==
            Ok(Table([h, b, a, tl], [[x, Null, Null, y]]))
  {
    var t := Table([h, tl], [[x, y]]);
    var names := [a, b];
    assert Fresh(t.columns, names);
    var r := InsertColumns(t, names).value;
    assert Reverse(names) == [b, a] by {
      assert Reverse(names[1..]) == [b];
    }
    assert r.columns == [h, b, a, tl] by {
      assert t.columns[..1] == [h] && t.columns[1..] == [tl];
    }
    assert r.rows[0] == [x, Null, Null, y] by {
      assert Nulls(2) == [Null, Null];
      assert t.rows[0][..1] == [x] && t.rows[0][1..] == [y];
    }
    assert r.rows == [r.rows[0]];
  }

  /** A zone export: one grand-total row and one zone row. */
  function ZoneInput(shop: Name, zone: Name, s1: Cell, z1: Cell, s2: Cell, z2: Cell): (t: Table)
    requires Indicator !in [shop, zone] && shop != zone
    ensures Valid(t)
  {
    var cols := [Indicator, shop, zone];
    assert Distinct(cols) by {
      forall i, j | 0 <= i < j < 3 ensures cols[i] != cols[j] {}
    }
    Table(cols, [[Bool(true), s1, z1], [Bool(false), s2, z2]])
  }

  /** Only the zone row survives the row filter. */
  lemma ZoneFiltered(shop: Name, zone: Name, s1: Cell, z1: Cell, s2: Cell, z2: Cell)
    requires Indicator !in [shop, zone] && shop != zone
    ensures DeleteRows(ZoneInput(shop, zone, s1, z1, s2, z2)) ==
            Ok(Table([Indicator, shop, zone], [[Bool(false), s2, z2]]))
  {
    var input := ZoneInput(shop, zone, s1, z1, s2, z2);
    var rows := input.rows;
    assert IndexOf(input.columns, Indicator) == 0;
    assert Unflagged(rows[1..][1..], 0) == [];
    assert Unflagged(rows[1..], 0) == [rows[1]];
    assert Unflagged(rows, 0) == Unflagged(rows[1..], 0);
  }

  /** The spec used on the zone export. */
  function ZoneSpec(shop: Name, nber: Name, zone: Name, placeholder: Name, absent: Name): ColumnSpec {
    ColumnSpec([], map[shop := nber], [placeholder], [Indicator, nber, placeholder, zone, absent])
  }

  /** The placeholder lands right after the indicator, as a null cell. */
  lemma ZoneWidened(nber: Name, zone: Name, placeholder: Name, s2: Cell, z2: Cell)
    requires placeholder !in [Indicator, nber, zone]
    ensures InsertColumns(Table([Indicator, nber, zone], [[Bool(false), s2, z2]]), [placeholder]) ==
            Ok(Table([Indicator, placeholder, nber, zone], [[Bool(false), Null, s2, z2]]))
  {
    var t := Table([Indicator, nber, zone], [[Bool(false), s2, z2]]);
    assert Fresh(t.columns, [placeholder]);
    var w := InsertColumns(t, [placeholder]).value;
    assert Reverse([placeholder]) == [placeholder];
    assert w.columns == [Indicator, placeholder, nber, zone] by {
      assert t.columns[..1] == [Indicator] && t.columns[1..] == [nber, zone];
    }
    assert w.rows[0] == [Bool(false), Null, s2, z2] by {
      assert Nulls(1) == [Null];
      assert t.rows[0][..1] == [Bool(false)] && t.rows[0][1..] == [s2, z2];
    }
    assert w.rows == [w.rows[0]];
  }

  /** Reindexing picks each listed column's cell and fills the absent one
      with null. */
  lemma ZoneReordered(nber: Name, zone: Name, placeholder: Name, absent: Name, s2: Cell, z2: Cell)
    requires Indicator !in [nber, zone, placeholder, absent]
    requires nber !in [zone, placeholder, absent]
    requires placeholder !in [zone, absent] && zone != absent
    ensures ReorderColumns(Table([Indicator, placeholder, nber, zone], [[Bool(false), Null, s2, z2]]),
                           [Indicator, nber, placeholder, zone, absent]) ==
            Ok(Table([Indicator, nber, placeholder, zone, absent], [[Bool(false), s2, Null, z2, Null]]))
  {
    var w := Table([Indicator, placeholder, nber, zone], [[Bool(false), Null, s2, z2]]);
    var target := [Indicator, nber, placeholder, zone, absent];
    assert Distinct(w.columns) by {
      forall i, j | 0 <= i < j < 4 ensures w.columns[i] != w.columns[j] {}
    }
    assert w.columns != target by {
      assert |w.columns| != |target|;
    }
    var r := Reindexed(w, target);
    assert ReorderColumns(w, target) == Ok(r);
    IndexOfDistinct(w.columns, 0);
    IndexOfDistinct(w.columns, 1);
    IndexOfDistinct(w.columns, 2);
    IndexOfDistinct(w.columns, 3);
    assert absent !in w.columns;
    assert r.rows[0] == [Bool(false), s2, Null, z2, Null];
    assert r.rows == [r.rows[0]];
  }

  /** Processing the zone export: the total row disappears, the shop count
      is renamed, the placeholder and a listed-but-absent column come out
      empty, and the header is exactly the reorder list. */
  lemma ZoneExport(shop: Name, nber: Name, zone: Name, placeholder: Name, absent: Name,
                   s1: Cell, z1: Cell, s2: Cell, z2: Cell)
    requires Indicator !in [shop, zone] && shop != zone
    requires nber !in [Indicator, shop, zone, placeholder, absent]
    requires placeholder !in [Indicator, shop, zone, absent]
    requires absent !in [Indicator, shop, zone]
    ensures Process(Some(ZoneSpec(shop, nber, zone, placeholder, absent)),
                    ZoneInput(shop, zone, s1, z1, s2, z2)) ==
            Ok(Table([Indicator, nber, placeholder, zone, absent],
                     [[Bool(false), s2, Null, z2, Null]]))
  {
    var input := ZoneInput(shop, zone, s1, z1, s2, z2);
    var spec := ZoneSpec(shop, nber, zone, placeholder, absent);
    ZoneFiltered(shop, zone, s1, z1, s2, z2);
    var filtered := Table([Indicator, shop, zone], [[Bool(false), s2, z2]]);
    DropNothing(filtered);
    var renamed := RenameColumns(filtered, spec.renames);
    assert renamed == Table([Indicator, nber, zone], [[Bool(false), s2, z2]]) by {
      assert Renamed(spec.renames, Indicator) == Indicator;
      assert Renamed(spec.renames, shop) == nber;
      assert Renamed(spec.renames, zone) == zone;
    }
    ZoneWidened(nber, zone, placeholder, s2, z2);
    var widened := Table([Indicator, placeholder, nber, zone], [[Bool(false), Null, s2, z2]]);
    ZoneReordered(nber, zone, placeholder, absent, s2, z2);
    StagesCompose(spec, input, filtered, filtered, widened);
  }
}
