/**
  Grid construction shared by both front ends: six categories drawn from the
  registry (three rows, then three columns) and, per cell, the catalog names
  that satisfy both the row and the column category.
 */
module Grid {

  import opened Wrappers
  import opened Seqs
  import opened Dict
  import opened Catalog

  /**
    The outcome of `random.sample(all_categories, 6)`: six distinct positions
    in a registry of `n` categories, in draw order.
   */
  predicate IsDraw(draw: seq<nat>, n: nat)
  {
    |draw| == 6 && Distinct(draw) && forall i :: 0 <= i < |draw| ==> draw[i] < n
  }

  datatype GridError = InsufficientCategories

  /** The three row categories and the three column categories. */
  datatype Selection = Selection(rows: seq<Category>, cols: seq<Category>)

  /**
    The first three drawn categories become the rows and the next three the
    columns. Sampling six from fewer than six categories is an error.
   */
  function SelectCategories(registry: seq<Category>, draw: seq<nat>): (r: Result<Selection, GridError>)
    requires |registry| >= 6 ==> IsDraw(draw, |registry|)
    ensures r.Failure? <==> |registry| < 6
    ensures r.Success? ==> |r.value.rows| == 3 && |r.value.cols| == 3
    ensures r.Success? ==> forall i :: 0 <= i < 3 ==> r.value.rows[i] == registry[draw[i]]
    ensures r.Success? ==> forall i :: 0 <= i < 3 ==> r.value.cols[i] == registry[draw[3 + i]]
    ensures r.Success? && Distinct(registry) ==> Distinct(r.value.rows + r.value.cols)
  {
    if |registry| < 6 then Failure(InsufficientCategories)
    else
      var chosen := seq(6, i requires 0 <= i < 6 => registry[draw[i]]);
      assert Distinct(registry) ==> Distinct(chosen) by {
        if Distinct(registry) {
          forall i, j | 0 <= i < j < 6 ensures chosen[i] != chosen[j] {
            assert draw[i] != draw[j];
          }
        }
      }
      assert chosen == chosen[..3] + chosen[3..];
      Success(Selection(chosen[..3], chosen[3..]))
  }

  /** `name` is the key of some catalog entry that satisfies both criteria. */
  ghost predicate Qualifies(catalog: Catalog, row: Criterion, col: Criterion, name: string)
  {
    exists i :: 0 <= i < |catalog| && catalog[i].0 == name && Holds(row, catalog[i].1) && Holds(col, catalog[i].1)
  }

  /** In a catalog with distinct names, qualifying is a property of the entry the name looks up. */
  lemma QualifiesByLookup(catalog: Catalog, row: Criterion, col: Criterion, name: string)
    requires DistinctKeys(catalog)
    ensures Qualifies(catalog, row, col, name)
        <==> name in ToMap(catalog) && Holds(row, ToMap(catalog)[name]) && Holds(col, ToMap(catalog)[name])
  {
    if name in ToMap(catalog) {
      var i := IndexOf(catalog, name);
      assert ToMap(catalog)[name] == catalog[i].1;
    }
  }

  /**
    The names a cell accepts: the catalog's entries that satisfy both
    criteria, in catalog order.
   */
  function MatchingNames(catalog: Catalog, row: Criterion, col: Criterion): (names: seq<string>)
    ensures forall n :: n in names <==> Qualifies(catalog, row, col, n)
    ensures forall n :: n in names ==> n in KeySet(catalog)
    ensures DistinctKeys(catalog) ==> Distinct(names)
    ensures DistinctKeys(catalog) ==>
      forall i, j :: 0 <= i < j < |names| ==> IndexOf(catalog, names[i]) < IndexOf(catalog, names[j])
  {
    if catalog == [] then []
    else
      var rest := MatchingNames(catalog[1..], row, col);
      var (name, pokemon) := catalog[0];
      var names := if Holds(row, pokemon) && Holds(col, pokemon) then [name] + rest else rest;
      MatchingNamesStep(catalog, row, col, rest, names);
      names
  }

  /** A name qualifies in a non-empty catalog through its first entry or through the rest. */
  lemma QualifiesCons(catalog: Catalog, row: Criterion, col: Criterion, n: string)
    requires catalog != []
    ensures Qualifies(catalog, row, col, n)
        <==> (n == catalog[0].0 && Holds(row, catalog[0].1) && Holds(col, catalog[0].1))
             || Qualifies(catalog[1..], row, col, n)
  {
    if Qualifies(catalog, row, col, n) {
      var i :| 0 <= i < |catalog| && catalog[i].0 == n && Holds(row, catalog[i].1) && Holds(col, catalog[i].1);
      if i > 0 { assert catalog[1..][i - 1] == catalog[i]; }
    }
    if Qualifies(catalog[1..], row, col, n) {
      var i :| 0 <= i < |catalog[1..]| && catalog[1..][i].0 == n && Holds(row, catalog[1..][i].1) && Holds(col, catalog[1..][i].1);
      assert catalog[i + 1] == catalog[1..][i];
    }
  }

  /** One step of the filter: the head entry is kept or dropped, the rest is already filtered. */
  lemma MatchingNamesStep(catalog: Catalog, row: Criterion, col: Criterion, rest: seq<string>, names: seq<string>)
    requires catalog != []
    requires forall n :: n in rest <==> Qualifies(catalog[1..], row, col, n)
    requires forall n :: n in rest ==> n in KeySet(catalog[1..])
    requires DistinctKeys(catalog[1..]) ==> Distinct(rest)
    requires DistinctKeys(catalog[1..]) ==>
      forall i, j :: 0 <= i < j < |rest| ==> IndexOf(catalog[1..], rest[i]) < IndexOf(catalog[1..], rest[j])
    requires names == if Holds(row, catalog[0].1) && Holds(col, catalog[0].1) then [catalog[0].0] + rest else rest
    ensures forall n :: n in names <==> Qualifies(catalog, row, col, n)
    ensures forall n :: n in names ==> n in KeySet(catalog)
    ensures DistinctKeys(catalog) ==> Distinct(names)
    ensures DistinctKeys(catalog) ==>
      forall i, j :: 0 <= i < j < |names| ==> IndexOf(catalog, names[i]) < IndexOf(catalog, names[j])
  {
    KeySetCons(catalog);
    StepQualifies(catalog, row, col, rest, names);
    if DistinctKeys(catalog) {
      TailNamesOrdered(catalog, rest);
      if names != rest {
        HeadAndTailNamesOrdered(catalog, rest);
      }
      OrderedNamesDistinct(catalog, names);
    }
  }

  lemma StepQualifies(catalog: Catalog, row: Criterion, col: Criterion, rest: seq<string>, names: seq<string>)
    requires catalog != []
    requires forall n :: n in rest <==> Qualifies(catalog[1..], row, col, n)
    requires names == if Holds(row, catalog[0].1) && Holds(col, catalog[0].1) then [catalog[0].0] + rest else rest
    ensures forall n :: n in names <==> Qualifies(catalog, row, col, n)
  {
    forall n ensures n in names <==> Qualifies(catalog, row, col, n) {
      QualifiesCons(catalog, row, col, n);
    }
  }

  /** Names in strictly increasing catalog position are all different. */
  lemma OrderedNamesDistinct(catalog: Catalog, names: seq<string>)
    requires forall n :: n in names ==> n in KeySet(catalog)
    requires forall i, j :: 0 <= i < j < |names| ==> IndexOf(catalog, names[i]) < IndexOf(catalog, names[j])
    ensures Distinct(names)
  {
    forall i, j | 0 <= i < j < |names| ensures names[i] != names[j] {
      assert IndexOf(catalog, names[i]) < IndexOf(catalog, names[j]);
    }
  }

  /** Every key of the tail sits one position later in the whole catalog. */
  lemma IndexOfTail(catalog: Catalog, n: string)
    requires catalog != [] && DistinctKeys(catalog) && n in KeySet(catalog[1..])
    ensures n in KeySet(catalog)
    ensures IndexOf(catalog, n) == 1 + IndexOf(catalog[1..], n)
  {
    var k := IndexOf(catalog[1..], n);
    assert catalog[1 + k] == catalog[1..][k];
    assert catalog[0].0 != catalog[1 + k].0;
    IndexOfIsFirst(catalog, n, 1 + k);
  }

  /** Names of the tail, in tail order, are in order in the whole catalog. */
  lemma TailNamesOrdered(catalog: Catalog, rest: seq<string>)
    requires catalog != [] && DistinctKeys(catalog)
    requires KeySet(catalog) == {catalog[0].0} + KeySet(catalog[1..])
    requires forall n :: n in rest ==> n in KeySet(catalog[1..])
    requires forall i, j :: 0 <= i < j < |rest| ==> IndexOf(catalog[1..], rest[i]) < IndexOf(catalog[1..], rest[j])
    ensures forall i, j :: 0 <= i < j < |rest| ==> IndexOf(catalog, rest[i]) < IndexOf(catalog, rest[j])
  {
    forall i, j | 0 <= i < j < |rest| ensures IndexOf(catalog, rest[i]) < IndexOf(catalog, rest[j]) {
      TailOrder(catalog, rest[i], rest[j]);
    }
  }

  /** The head's name followed by names of the tail in order are in order in the whole catalog. */
  lemma HeadAndTailNamesOrdered(catalog: Catalog, rest: seq<string>)
    requires catalog != [] && DistinctKeys(catalog)
    requires KeySet(catalog) == {catalog[0].0} + KeySet(catalog[1..])
    requires forall n :: n in rest ==> n in KeySet(catalog[1..])
    requires forall i, j :: 0 <= i < j < |rest| ==> IndexOf(catalog, rest[i]) < IndexOf(catalog, rest[j])
    ensures var names := [catalog[0].0] + rest;
      forall i, j :: 0 <= i < j < |names| ==> IndexOf(catalog, names[i]) < IndexOf(catalog, names[j])
  {
    var names := [catalog[0].0] + rest;
    forall i, j | 0 <= i < j < |names| ensures IndexOf(catalog, names[i]) < IndexOf(catalog, names[j]) {
      assert names[j] == rest[j - 1];
      if i == 0 {
        HeadFirst(catalog, rest[j - 1]);
      } else {
        assert names[i] == rest[i - 1];
      }
    }
  }

  /** Two keys of the tail keep their order in the whole catalog. */
  lemma TailOrder(catalog: Catalog, a: string, b: string)
    requires catalog != [] && DistinctKeys(catalog) && a in KeySet(catalog[1..]) && b in KeySet(catalog[1..])
    requires IndexOf(catalog[1..], a) < IndexOf(catalog[1..], b)
    ensures IndexOf(catalog, a) < IndexOf(catalog, b)
  {
    IndexOfTail(catalog, a);
    IndexOfTail(catalog, b);
  }

  /** The head's key comes before every key of the tail. */
  lemma HeadFirst(catalog: Catalog, b: string)
    requires catalog != [] && DistinctKeys(catalog) && b in KeySet(catalog[1..])
    ensures IndexOf(catalog, catalog[0].0) < IndexOf(catalog, b)
  {
    IndexOfIsFirst(catalog, catalog[0].0, 0);
    IndexOfTail(catalog, b);
  }

  /** Filtering a catalog with one more entry at the end: the old names, then possibly the new one. */
  lemma {:induction false} MatchingNamesSnoc(catalog: Catalog, entry: (string, Pokemon), row: Criterion, col: Criterion)
    ensures MatchingNames(catalog + [entry], row, col)
         == MatchingNames(catalog, row, col) + (if Holds(row, entry.1) && Holds(col, entry.1) then [entry.0] else [])
  {
    if catalog != [] {
      assert (catalog + [entry])[1..] == catalog[1..] + [entry];
      MatchingNamesSnoc(catalog[1..], entry, row, col);
    }
  }

  /** The names a cell accepts, as a set. */
  function AnswerSet(catalog: Catalog, row: Criterion, col: Criterion): (names: set<string>)
    ensures forall n :: n in names <==> Qualifies(catalog, row, col, n)
  {
    set n | n in MatchingNames(catalog, row, col)
  }

  /** The nine `(row, col)` cells. */
  function AllCells(): (cells: set<(int, int)>)
    ensures forall cell :: cell in cells <==> 0 <= cell.0 < 3 && 0 <= cell.1 < 3
    ensures |cells| == 9
  {
    {(0, 0), (0, 1), (0, 2), (1, 0), (1, 1), (1, 2), (2, 0), (2, 1), (2, 2)}
  }
}
