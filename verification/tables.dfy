/** The in-memory table a CSV file is parsed into: an ordered header of column
    names and an ordered sequence of rows, one cell per column. */
module Tables {

  type Name = string

  /** A cell is pandas' missing value or one parsed value. */
  datatype Cell = Null | Bool(b: bool) | Int(i: int) | Text(s: string)

  type Row = seq<Cell>

  datatype Table = Table(columns: seq<Name>, rows: seq<Row>)

  /** Every row has exactly one cell per column. */
  predicate Rectangular(t: Table) {
    forall i :: 0 <= i < |t.rows| ==> |t.rows[i]| == |t.columns|
  }

  predicate Distinct<T(==)>(s: seq<T>) {
    forall i, j :: 0 <= i < j < |s| ==> s[i] != s[j]
  }

  /** What a CSV reader produces: a rectangular table with unique column names. */
  predicate Valid(t: Table) {
    Rectangular(t) && Distinct(t.columns)
  }

  /** Position of the first occurrence of `x` in `s`. */
  function IndexOf<T(==)>(s: seq<T>, x: T): (i: nat)
    requires x in s
    ensures i < |s| && s[i] == x
    ensures forall j :: 0 <= j < i ==> s[j] != x
  {
    if s[0] == x then 0 else 1 + IndexOf(s[1..], x)
  }

  lemma IndexOfDistinct<T>(s: seq<T>, i: nat)
    requires Distinct(s) && i < |s|
    ensures IndexOf(s, s[i]) == i
  {
  }

  /** Characterises the first occurrence from the other side. */
  lemma IndexOfIs<T>(s: seq<T>, x: T, q: nat)
    requires q < |s| && s[q] == x
    requires forall j :: 0 <= j < q ==> s[j] != x
    ensures x in s && IndexOf(s, x) == q
  {
    var i := IndexOf(s, x);
    assert i >= q;
    assert i <= q;
  }

  /** The cells of the (first) column named `c`, top to bottom. */
  function Column(t: Table, c: Name): (cells: seq<Cell>)
    requires Rectangular(t) && c in t.columns
    ensures |cells| == |t.rows|
  {
    var k := IndexOf(t.columns, c);
    seq(|t.rows|, i requires 0 <= i < |t.rows| => t.rows[i][k])
  }

  /** An all-null column of height `n`. */
  function Nulls(n: nat): (cells: seq<Cell>)
    ensures |cells| == n
    ensures forall i :: 0 <= i < n ==> cells[i] == Null
  {
    seq(n, _ => Null)
  }

  /** The elements of `s` at positions `idx`, in the order of `idx`. */
  function Select<T>(s: seq<T>, idx: seq<nat>): (r: seq<T>)
    requires forall j :: 0 <= j < |idx| ==> idx[j] < |s|
    ensures |r| == |idx|
    ensures forall j :: 0 <= j < |idx| ==> r[j] == s[idx[j]]
  {
    seq(|idx|, j requires 0 <= j < |idx| => s[idx[j]])
  }

  lemma SelectAppend<T>(s: seq<T>, a: seq<nat>, b: seq<nat>)
    requires forall j :: 0 <= j < |a| ==> a[j] < |s|
    requires forall j :: 0 <= j < |b| ==> b[j] < |s|
    ensures Select(s, a + b) == Select(s, a) + Select(s, b)
  {
  }

  /** Selecting positions below `n` only looks at the first `n` elements. */
  lemma SelectPrefix<T>(s: seq<T>, n: nat, idx: seq<nat>)
    requires n <= |s| && forall j :: 0 <= j < |idx| ==> idx[j] < n
    ensures Select(s, idx) == Select(s[..n], idx)
  {
  }

  predicate Increasing(idx: seq<nat>) {
    forall i, j :: 0 <= i < j < |idx| ==> idx[i] < idx[j]
  }

  /** The positions where `mask` holds, ascending: selecting them keeps
      exactly the marked elements in their original relative order. */
  function KeptIndices(mask: seq<bool>): (idx: seq<nat>)
    ensures Increasing(idx)
    ensures forall j :: 0 <= j < |idx| ==> idx[j] < |mask| && mask[idx[j]]
    ensures forall i :: 0 <= i < |mask| && mask[i] ==> i in idx
  {
    if mask == [] then []
    else
      var last := |mask| - 1;
      KeptIndices(mask[..last]) + (if mask[last] then [last] else [])
  }

  /** Selecting increasing positions of a list without repeats gives a list
      without repeats. */
  lemma SelectDistinct<T>(s: seq<T>, idx: seq<nat>)
    requires Distinct(s) && Increasing(idx)
    requires forall j :: 0 <= j < |idx| ==> idx[j] < |s|
    ensures Distinct(Select(s, idx))
  {
  }

  function Reverse<T>(s: seq<T>): (r: seq<T>)
    ensures |r| == |s|
    ensures forall i :: 0 <= i < |s| ==> r[i] == s[|s| - 1 - i]
  {
    if s == [] then [] else Reverse(s[1..]) + [s[0]]
  }

  lemma ReverseMembers<T>(s: seq<T>)
    ensures forall x :: x in Reverse(s) <==> x in s
  {
    forall x | x in s ensures x in Reverse(s) {
      var i :| 0 <= i < |s| && s[i] == x;
      assert Reverse(s)[|s| - 1 - i] == x;
    }
  }
}
