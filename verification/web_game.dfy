/**
  The web game: the same grid, with each cell's answers kept as a list in
  catalog order under the key `"row,col"`, and the two request handlers that
  change or read a player's session, lifted out of their HTTP plumbing. A
  session is the grid's answer lists, the player's picks keyed by cell key,
  and the pick counts.
 */
module Web {

  import opened Wrappers
  import opened Seqs
  import opened Dict
  import opened Catalog
  import opened Grid
  import opened Scoring
  import Text

  /** `f"{row},{col}"` for integer coordinates. */
  function CellKey(row: int, col: int): (key: string)
    ensures ',' in key
  {
    Text.IntToString(row) + "," + Text.IntToString(col)
  }

  /** Different cells have different keys. */
  lemma CellKeyInjective(r1: int, c1: int, r2: int, c2: int)
    requires CellKey(r1, c1) == CellKey(r2, c2)
    ensures r1 == r2 && c1 == c2
  {
    Text.CommaJoinInjective(Text.IntToString(r1), Text.IntToString(c1), Text.IntToString(r2), Text.IntToString(c2));
    Text.IntToStringInjective(r1, r2);
    Text.IntToStringInjective(c1, c2);
  }

  /** The keys of a set of cells. */
  function KeysOf(cells: set<(int, int)>): set<string>
  {
    set cell | cell in cells :: CellKey(cell.0, cell.1)
  }

  /** Since no two cells share a key, there are as many keys as cells. */
  lemma KeysOfCount(cells: set<(int, int)>)
    ensures |KeysOf(cells)| == |cells|
    decreases cells
  {
    if cells != {} {
      var x :| x in cells;
      var rest := cells - {x};
      KeysOfCount(rest);
      assert KeysOf(cells) == KeysOf(rest) + {CellKey(x.0, x.1)};
      if CellKey(x.0, x.1) in KeysOf(rest) {
        var y :| y in rest && CellKey(y.0, y.1) == CellKey(x.0, x.1);
        CellKeyInjective(y.0, y.1, x.0, x.1);
      }
    }
  }

  /** The keys of the nine grid cells. */
  function GridKeys(): (keys: set<string>)
    ensures forall r, c :: 0 <= r < 3 && 0 <= c < 3 ==> CellKey(r, c) in keys
  {
    set r, c | 0 <= r < 3 && 0 <= c < 3 :: CellKey(r, c)
  }

  /** There are nine grid keys. */
  lemma GridKeysCount()
    ensures |GridKeys()| == 9
  {
    var cells := AllCells();
    assert GridKeys() == KeysOf(cells) by {
      forall k | k in KeysOf(cells) ensures k in GridKeys() {
        var cell :| cell in cells && k == CellKey(cell.0, cell.1);
        assert 0 <= cell.0 < 3 && 0 <= cell.1 < 3;
      }
      forall k | k in GridKeys() ensures k in KeysOf(cells) {
        var r, c :| 0 <= r < 3 && 0 <= c < 3 && k == CellKey(r, c);
        var cell := (r, c);
        assert cell in cells;
      }
    }
    KeysOfCount(AllCells());
  }

  /** The nine keys, each as `CellKey` prints it. */
  lemma GridKeysPrinted()
    ensures CellKey(0, 0) == "0,0" && CellKey(0, 1) == "0,1" && CellKey(0, 2) == "0,2"
    ensures CellKey(1, 0) == "1,0" && CellKey(1, 1) == "1,1" && CellKey(1, 2) == "1,2"
    ensures CellKey(2, 0) == "2,0" && CellKey(2, 1) == "2,1" && CellKey(2, 2) == "2,2"
  {
    assert Text.IntToString(0) == "0" by { assert Text.DigitChar(0) == '0'; }
    assert Text.IntToString(1) == "1" by { assert Text.DigitChar(1) == '1'; }
    assert Text.IntToString(2) == "2" by { assert Text.DigitChar(2) == '2'; }
  }

  /** A key belongs to the grid exactly when its coordinates lie in 0..2. */
  lemma CellKeyInGrid(row: int, col: int)
    ensures CellKey(row, col) in GridKeys() <==> 0 <= row < 3 && 0 <= col < 3
  {
    if CellKey(row, col) in GridKeys() {
      var r, c :| 0 <= r < 3 && 0 <= c < 3 && CellKey(row, col) == CellKey(r, c);
      CellKeyInjective(row, col, r, c);
    }
  }

  /** What `generate_daily_grid` returns: the six labels and the answer list of every cell. */
  datatype GridData = GridData(rowCategories: seq<string>, colCategories: seq<string>, gridAnswers: map<string, seq<string>>)

  /** The `valid_pokemon` loop: the names of the entries satisfying both criteria, appended in catalog order. */
  method ValidPokemon(catalog: Catalog, row: Criterion, col: Criterion) returns (valid: seq<string>)
    ensures valid == MatchingNames(catalog, row, col)
  {
    valid := [];
    var i := 0;
    while i < |catalog|
      invariant 0 <= i <= |catalog|
      invariant valid == MatchingNames(catalog[..i], row, col)
    {
      var (name, pokemon) := catalog[i];
      assert catalog[..i + 1] == catalog[..i] + [catalog[i]];
      MatchingNamesSnoc(catalog[..i], catalog[i], row, col);
      if Holds(row, pokemon) && Holds(col, pokemon) {
        valid := valid + [name];
      }
      i := i + 1;
    }
    assert catalog[..i] == catalog;
  }

  /** The keys of the cells filled before `(row, col)` in row-major order. */
  function KeysBefore(row: int, col: int): set<string>
  {
    set r, c | 0 <= r < 3 && 0 <= c < 3 && (r < row || (r == row && c < col)) :: CellKey(r, c)
  }

  /**
    `generate_daily_grid`: the labels of the first three drawn categories
    become the row headers and the next three the column headers, and every
    key `"r,c"` of the grid maps to the names qualifying for row `r` and
    column `c`, in catalog order.
   */
  method GenerateDailyGrid(catalog: Catalog, draw: seq<nat>) returns (grid: GridData)
    requires IsDraw(draw, |WebRegistry()|)
    ensures |grid.rowCategories| == 3 && |grid.colCategories| == 3
    ensures forall i :: 0 <= i < 3 ==> grid.rowCategories[i] == WebRegistry()[draw[i]].name
    ensures forall i :: 0 <= i < 3 ==> grid.colCategories[i] == WebRegistry()[draw[3 + i]].name
    ensures Distinct(grid.rowCategories + grid.colCategories)
    ensures grid.gridAnswers.Keys == GridKeys()
    ensures forall r, c :: 0 <= r < 3 && 0 <= c < 3 ==>
      grid.gridAnswers[CellKey(r, c)]
        == MatchingNames(catalog, WebRegistry()[draw[r]].criterion, WebRegistry()[draw[3 + c]].criterion)
  {
    var selection := SelectCategories(WebRegistry(), draw).value;
    var rows, cols := selection.rows, selection.cols;
    ghost var want := (r: int, c: int) =>
      if 0 <= r < 3 && 0 <= c < 3 then MatchingNames(catalog, rows[r].criterion, cols[c].criterion) else [];
    var answers: map<string, seq<string>> := map[];
    var row := 0;
    while row < 3
      invariant 0 <= row <= 3
      invariant Filled(answers, want, row, 0)
    {
      var col := 0;
      while col < 3
        invariant 0 <= col <= 3
        invariant Filled(answers, want, row, col)
      {
        var valid := ValidPokemon(catalog, rows[row].criterion, cols[col].criterion);
        FilledStep(answers, want, row, col);
        answers := answers[CellKey(row, col) := valid];
        col := col + 1;
      }
      FilledRow(answers, want, row);
      row := row + 1;
    }
    KeysBeforeAll();
    var labels := DrawnLabels(WebRegistry(), draw, selection);
    grid := GridData(labels[..3], labels[3..], answers);
  }

  /** The labels of a draw from a labelled registry without repeats are six different strings. */
  function DrawnLabels(registry: seq<Category>, draw: seq<nat>, selection: Selection): (labels: seq<string>)
    requires IsDraw(draw, |registry|) && Distinct(registry) && Labelled(registry)
    requires SelectCategories(registry, draw) == Success(selection)
    ensures |labels| == 6 && Distinct(labels)
    ensures forall i :: 0 <= i < 6 ==> labels[i] == registry[draw[i]].name
    ensures labels[..3] + labels[3..] == labels
  {
    var drawn := selection.rows + selection.cols;
    assert forall i :: 0 <= i < 6 ==> drawn[i] == registry[draw[i]];
    Names(drawn)
  }

  /**
    The cells before `(row, col)` in row-major order hold the value `want`
    gives them, and no other key is present yet.
   */
  ghost predicate Filled<V>(answers: map<string, V>, want: (int, int) -> V, row: int, col: int)
  {
    && answers.Keys == KeysBefore(row, col)
    && forall r, c :: 0 <= r < 3 && 0 <= c < 3 && (r < row || (r == row && c < col)) ==>
         CellKey(r, c) in answers && answers[CellKey(r, c)] == want(r, c)
  }

  /** Filling cell `(row, col)` leaves the earlier cells as they were, since their keys differ. */
  lemma FilledStep<V>(answers: map<string, V>, want: (int, int) -> V, row: int, col: int)
    requires 0 <= row < 3 && 0 <= col < 3
    requires Filled(answers, want, row, col)
    ensures Filled(answers[CellKey(row, col) := want(row, col)], want, row, col + 1)
  {
    var answers' := answers[CellKey(row, col) := want(row, col)];
    KeysBeforeStep(row, col);
    assert answers'.Keys == KeysBefore(row, col + 1);
    forall r, c | 0 <= r < 3 && 0 <= c < 3 && (r < row || (r == row && c < col + 1))
      ensures CellKey(r, c) in answers' && answers'[CellKey(r, c)] == want(r, c)
    {
      if (r, c) != (row, col) {
        if CellKey(r, c) == CellKey(row, col) { CellKeyInjective(r, c, row, col); }
        assert answers'[CellKey(r, c)] == answers[CellKey(r, c)];
      }
    }
  }

  /** A completed row is the start of the next. */
  lemma FilledRow<V>(answers: map<string, V>, want: (int, int) -> V, row: int)
    requires 0 <= row < 3
    requires Filled(answers, want, row, 3)
    ensures Filled(answers, want, row + 1, 0)
  {
    KeysBeforeRow(row);
  }

  lemma KeysBeforeStep(row: int, col: int)
    requires 0 <= row < 3 && 0 <= col < 3
    ensures KeysBefore(row, col + 1) == KeysBefore(row, col) + {CellKey(row, col)}
  {
    forall k | k in KeysBefore(row, col + 1) ensures k in KeysBefore(row, col) + {CellKey(row, col)} {
      var r, c :| 0 <= r < 3 && 0 <= c < 3 && (r < row || (r == row && c < col + 1)) && k == CellKey(r, c);
      if !(r == row && c == col) {
        assert k in KeysBefore(row, col);
      }
    }
  }

  lemma KeysBeforeAll()
    ensures KeysBefore(3, 0) == GridKeys()
  {
    GridKeysPrinted();
    forall k | k in KeysBefore(3, 0) ensures k in GridKeys() {
      var r, c :| 0 <= r < 3 && 0 <= c < 3 && k == CellKey(r, c);
      CellKeyInGrid(r, c);
    }
  }

  lemma KeysBeforeRow(row: int)
    requires 0 <= row < 3
    ensures KeysBefore(row, 3) == KeysBefore(row + 1, 0)
  {
    forall k | k in KeysBefore(row + 1, 0) ensures k in KeysBefore(row, 3) {
      var r, c :| 0 <= r < 3 && 0 <= c < 3 && r < row + 1 && k == CellKey(r, c);
    }
  }

  /**
    A player's session: the grid's answer lists (empty when no grid was
    generated), the player's picks keyed by cell key, and the pick counts.
   */
  datatype Session = Session(gridAnswers: map<string, seq<string>>, userPicks: Dict<string, string>, pickCounts: Counts)

  /** The JSON body `submit_answer` answers with. */
  datatype Response =
    | Accepted(pokemon: string, score: nat, pickCount: nat)
    | Rejected(message: string, validOptions: seq<string>)

  datatype Submission = Submission(session: Session, response: Response)

  /** The answer list stored under `key`, or the empty list when the grid has no such key. */
  function ValidOptions(s: Session, key: string): seq<string>
  {
    if key in s.gridAnswers then s.gridAnswers[key] else []
  }

  /** The session the index page starts: a fresh grid, no picks, no counts. */
  function NewSession(grid: GridData): (s: Session)
    ensures s.gridAnswers == grid.gridAnswers && s.userPicks == [] && s.pickCounts == map[]
    ensures grid.gridAnswers.Keys <= GridKeys() ==> SessionOk(s)
  {
    Session(grid.gridAnswers, [], map[])
  }

  /** The message of a rejected answer. */
  function MismatchMessage(name: string): string
  {
    name + " does not match both categories"
  }

  /**
    The session update of an accepted answer: `user_picks[cell_key] = pokemon`
    and one more count for the name; every other pick and count stays.
   */
  function Record(s: Session, key: string, name: string): (s': Session)
    ensures ToMap(s'.userPicks) == ToMap(s.userPicks)[key := name]
    ensures KeySet(s'.userPicks) == KeySet(s.userPicks) + {key}
    ensures DistinctKeys(s.userPicks) ==> DistinctKeys(s'.userPicks)
    ensures s'.pickCounts == Bump(s.pickCounts, name)
    ensures s'.gridAnswers == s.gridAnswers
  {
    s.(userPicks := Put(s.userPicks, key, name), pickCounts := Bump(s.pickCounts, name))
  }

  /**
    The decision `submit_answer` makes for an already stripped name and an
    already formatted key: a name in the key's list is recorded and reported
    with its new count and the score of that count; any other name changes
    nothing and is answered with the key's list.
   */
  function Answer(s: Session, key: string, name: string): (r: Submission)
    ensures r.response.Accepted? <==> name in ValidOptions(s, key)
    ensures r.response.Accepted? ==>
      && r.session == Record(s, key, name)
      && r.response.pokemon == name
      && r.response.pickCount == CountOf(s.pickCounts, name) + 1
      && r.response.score == Rarity(r.response.pickCount) >= 5
    ensures r.response.Rejected? ==>
      && r.session == s
      && r.response.validOptions == ValidOptions(s, key)
      && r.response.message == MismatchMessage(name)
  {
    var valid := ValidOptions(s, key);
    if name in valid then
      var s' := Record(s, key, name);
      var count := CountOf(s'.pickCounts, name);
      Submission(s', Accepted(name, RarityOf(s'.pickCounts, name), count))
    else
      Submission(s, Rejected(MismatchMessage(name), valid))
  }

  /**
    `submit_answer`: the submitted name is stripped of surrounding whitespace
    and checked against the list of the key `"row,col"`.
   */
  function Submit(s: Session, row: int, col: int, rawName: string): (r: Submission)
    ensures var name, key := Text.Strip(rawName), CellKey(row, col);
      && (r.response.Accepted? <==> name in ValidOptions(s, key))
      && (r.response.Accepted? ==>
          && r.session == Record(s, key, name)
          && r.response.pokemon == name
          && r.response.pickCount == CountOf(s.pickCounts, name) + 1
          && r.response.score == Rarity(r.response.pickCount) >= 5)
      && (r.response.Rejected? ==>
          && r.session == s
          && r.response.validOptions == ValidOptions(s, key)
          && r.response.message == MismatchMessage(name))
  {
    Answer(s, CellKey(row, col), Text.Strip(rawName))
  }

  /** Whitespace around the submitted name makes no difference. */
  lemma SubmitIgnoresSurroundingSpace(s: Session, row: int, col: int, rawName: string)
    ensures Submit(s, row, col, rawName) == Submit(s, row, col, Text.Strip(rawName))
  {
    Text.StripIdempotent(rawName);
  }

  /** A cell outside the grid has no list, so nothing submitted to it is accepted. */
  lemma SubmitOutsideGridFails(s: Session, row: int, col: int, rawName: string)
    requires s.gridAnswers.Keys <= GridKeys()
    requires !(0 <= row < 3 && 0 <= col < 3)
    ensures Submit(s, row, col, rawName).response.Rejected?
    ensures Submit(s, row, col, rawName).response.validOptions == []
  {
    CellKeyInGrid(row, col);
  }

  /**
    Coordinates sent as JSON strings holding one digit from 0 to 2 format to
    the same key as the integers they spell, so such a submission is
    answered exactly like the integer one.
   */
  lemma StringCoordinatesReachGrid(s: Session, r: int, c: int, rawName: string)
    requires 0 <= r < 3 && 0 <= c < 3
    ensures [Text.DigitChar(r)] + "," + [Text.DigitChar(c)] == CellKey(r, c)
    ensures [Text.DigitChar(r)] + "," + [Text.DigitChar(c)] in GridKeys()
    ensures Answer(s, [Text.DigitChar(r)] + "," + [Text.DigitChar(c)], Text.Strip(rawName)) == Submit(s, r, c, rawName)
  {
  }

  /** On a generated grid, a submission succeeds exactly when the stripped name qualifies for the cell. */
  lemma SubmitAcceptsExactlyQualifying(s: Session, catalog: Catalog, draw: seq<nat>, grid: GridData, row: int, col: int, rawName: string)
    requires IsDraw(draw, |WebRegistry()|)
    requires grid.gridAnswers.Keys == GridKeys()
    requires forall r, c :: 0 <= r < 3 && 0 <= c < 3 ==>
      grid.gridAnswers[CellKey(r, c)]
        == MatchingNames(catalog, WebRegistry()[draw[r]].criterion, WebRegistry()[draw[3 + c]].criterion)
    requires s.gridAnswers == grid.gridAnswers
    ensures Submit(s, row, col, rawName).response.Accepted?
        <==> 0 <= row < 3 && 0 <= col < 3
             && Qualifies(catalog, WebRegistry()[draw[row]].criterion, WebRegistry()[draw[3 + col]].criterion, Text.Strip(rawName))
  {
    CellKeyInGrid(row, col);
  }

  /**
    What every session reachable from the index page satisfies: picks are
    keyed by distinct grid keys, answers exist only for grid keys, and every
    picked name has been counted at least once.
   */
  ghost predicate SessionOk(s: Session)
  {
    && DistinctKeys(s.userPicks)
    && KeySet(s.userPicks) <= GridKeys()
    && s.gridAnswers.Keys <= GridKeys()
    && forall key :: key in ToMap(s.userPicks) ==> CountOf(s.pickCounts, ToMap(s.userPicks)[key]) >= 1
  }

  lemma SubmitPreservesSessionOk(s: Session, row: int, col: int, rawName: string)
    requires SessionOk(s)
    ensures SessionOk(Submit(s, row, col, rawName).session)
  {
    var name, key := Text.Strip(rawName), CellKey(row, col);
    if name in ValidOptions(s, key) {
      RecordPreservesSessionOk(s, key, name);
    }
  }

  /** Recording an answer for a key the grid has keeps a reachable session reachable. */
  lemma RecordPreservesSessionOk(s: Session, key: string, name: string)
    requires SessionOk(s) && key in s.gridAnswers
    ensures SessionOk(Record(s, key, name))
  {
    RecordKeepsCounted(s, key, name);
  }

  /** After recording, the new pick has just been counted and the others were counted before. */
  lemma RecordKeepsCounted(s: Session, key: string, name: string)
    requires forall k :: k in ToMap(s.userPicks) ==> CountOf(s.pickCounts, ToMap(s.userPicks)[k]) >= 1
    ensures var s' := Record(s, key, name);
      forall k :: k in ToMap(s'.userPicks) ==> CountOf(s'.pickCounts, ToMap(s'.userPicks)[k]) >= 1
  {
    PicksStayCounted(ToMap(s.userPicks), s.pickCounts, key, name);
  }

  /** What `get_score` answers with. */
  datatype ScoreReport = ScoreReport(totalScore: nat, cellsFilled: nat, totalCells: nat)

  /**
    `get_score`: the rarity scores of the picks, each read from the current
    counts, the number of filled cells, and the grid's nine cells.
   */
  method GetScore(s: Session) returns (report: ScoreReport)
    ensures report.totalScore == TotalOf(Values(s.userPicks), s.pickCounts)
    ensures report.cellsFilled == |s.userPicks| && report.totalCells == 9
    ensures SessionOk(s) ==>
      && report.cellsFilled <= report.totalCells
      && 5 * report.cellsFilled <= report.totalScore <= 100 * report.cellsFilled
  {
    var names := Values(s.userPicks);
    var total := 0;
    var i := 0;
    while i < |names|
      invariant 0 <= i <= |names|
      invariant total == TotalOf(names[..i], s.pickCounts)
    {
      assert names[..i + 1][..i] == names[..i];
      total := total + RarityOf(s.pickCounts, names[i]);
      i := i + 1;
    }
    assert names[..i] == names;
    if SessionOk(s) {
      SessionPicksBounded(s);
    }
    report := ScoreReport(total, |s.userPicks|, 9);
  }

  /** In a reachable session at most nine cells are filled, each worth 5 to 100 points. */
  lemma SessionPicksBounded(s: Session)
    requires SessionOk(s)
    ensures |s.userPicks| <= 9
    ensures 5 * |s.userPicks| <= TotalOf(Values(s.userPicks), s.pickCounts) <= 100 * |s.userPicks|
  {
    KeyCount(s.userPicks);
    GridKeysCount();
    SubsetCardinality(KeySet(s.userPicks), GridKeys());
    var names := Values(s.userPicks);
    forall i | 0 <= i < |names| ensures CountOf(s.pickCounts, names[i]) >= 1 {
      assert names[i] == ToMap(s.userPicks)[s.userPicks[i].0];
    }
    TotalOfCountedBounds(names, s.pickCounts);
  }

  /**
    The first accepted "Pikachu" reports a pick count of 1 and a score of 5:
    the count goes up before the score is read, so a fresh name is never
    reported as worth 1.
   */
  lemma FirstPikachuScoresFive(s: Session)
    requires "Pikachu" in ValidOptions(s, "0,0") && "Pikachu" !in s.pickCounts
    ensures Submit(s, 0, 0, " Pikachu\n").response == Accepted("Pikachu", 5, 1)
  {
    GridKeysPrinted();
    assert " Pikachu\n" == " " + "Pikachu" + "\n";
    Text.StripPadded(" ", "Pikachu", "\n");
  }
}
