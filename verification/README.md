# Poke-Grid in Dafny

Poke-Grid is a 3×3 "immaculate grid" puzzle. The program draws six categories
from a fixed registry: a type, a region, legendary status, a generation, or
being fully evolved. The first three become the rows and the last three the
columns. A cell accepts any Pokémon that satisfies both its row and its column
category. A player's picks are scored by rarity: a name that the game's
counts show as picked often is worth more points, and the lower total wins.

The repository has two front ends that share this logic:

- `pokemon_grid_game.py` is a terminal game. It keeps a single
  `PokemonGridGame` object, with answer *sets* keyed by `(row, col)`.
- `app.py` is a Flask web game. Its `generate_daily_grid` returns answer
  *lists* keyed by the string `"row,col"`. Its `/api/submit` and `/api/score`
  handlers update and read a per-session store.

In both front ends the pick counts are the counts the game itself holds.
The terminal game keeps them on its one game object
(`pokemon_grid_game.py:19`, `pokemon_grid_game.py:169`). The web game keeps
them in the player's own session (`app.py:129`, `app.py:164-166`). So they
count only that player's accepted picks. No other player's picks ever change
them.

This project models both front ends as pure functions and loop methods over
immutable data:

| module | file | content |
|---|---|---|
| `Wrappers`, `Seqs`, `Dict` | `collections.dfy` | `Result`, distinctness, and Python's insertion-ordered dict as an association list |
| `Text` | `text.dfy` | `str.strip()` over Python's whitespace set; integer formatting for `f"{row},{col}"` |
| `Catalog` | `catalog.dfy` | the two catalogs and the category registries |
| `Grid` | `grid.dfy` | drawing the six categories; the names that qualify for a cell |
| `Scoring` | `scoring.dfy` | pick counts, the rarity step function, totals |
| `Cli` | `cli_game.dfy` | the terminal game's state and operations |
| `Web` | `web_game.dfy` | the web game's grid data, session, submission and score |

Randomness enters as a parameter. `random.sample(all_categories, 6)` becomes
`draw`: six distinct positions in the registry, in draw order.

## A score of 1 is never reported for a pick

The comment on the score-1 branch (`pokemon_grid_game.py:187`) calls a count
of 0 the "first picker". Neither game ever scores an accepted pick with
count 0, because both increment the count when the answer is accepted
(`pokemon_grid_game.py:169`, `app.py:165`). The web handler reads the score
only after the increment (`app.py:170`). So the first-ever "Pikachu" is
answered with count 1 and score 5.

The model follows the code. `Web.FirstPikachuScoresFive` proves the 5, and
`Web.Answer` proves that an accepted answer never reports a score below 5.
The terminal game's total likewise never counts a pick below 5
(`Cli.CalculateTotalScore`).

## Pick counts are not shared between players

The source comments promise counts "across all players"
(`pokemon_grid_game.py:19`) and say they would live in a database
(`pokemon_grid_game.py:168`). Neither front end does this. In the web game,
every player's first accepted pick of any name therefore scores 5, whatever
other players chose. The model follows the code: `Web.Session` carries its
own `pickCounts`, and `Cli.Game` carries the game object's.

## Model

| member | source | states |
|---|---|---|
| `Catalog.CliCatalog` | pokemon_grid_game.py:21-109 | the terminal catalog has twelve entries with pairwise distinct names |
| `Catalog.WebCatalog` | app.py:19-42 | the web catalog has twenty entries with distinct names, and its first twelve are the terminal catalog |
| `Catalog.TypeCategories` | pokemon_grid_game.py:117-124 | one category per type name, in the given order, each labelled `"Type: T"` and testing membership of T in the types; distinct names give distinct categories |
| `Catalog.RegionCategories` | pokemon_grid_game.py:126-130 | three distinct, correctly labelled region tests |
| `Catalog.OtherCategories` | pokemon_grid_game.py:132-137 | four distinct, correctly labelled categories, none a type or region test |
| `Catalog.LabelOfInjective` | pokemon_grid_game.py:117-137 | no two different category tests carry the same label |
| `Catalog.Names` | app.py:94-95 | the labels of a list of categories, in order; when the list is labelled and has no repeated category, no label repeats |
| `Catalog.Registry` | pokemon_grid_game.py:140 | the concatenation has seven more entries than there are types, starts with the type categories, keeps every label matching its test, and has no duplicates when the type names have none |
| `Catalog.CliTypesDistinct` | pokemon_grid_game.py:117-124 | the terminal game's six type names are pairwise distinct |
| `Catalog.WebTypesDistinct` | app.py:49-58 | the web game's eight type names are pairwise distinct |
| `Catalog.CliRegistry` | pokemon_grid_game.py:116-140 | the terminal registry has 13 distinct categories, each labelled as its test |
| `Catalog.WebRegistry` | app.py:49-73 | the web registry has 15 distinct categories, each labelled as its test |
| `Grid.SelectCategories` | pokemon_grid_game.py:140-144 | sampling fails exactly when the registry has fewer than six categories; otherwise the rows are the first three drawn and the columns the next three, and the six are pairwise distinct when the registry is |
| `Grid.QualifiesByLookup` | pokemon_grid_game.py:154-156 | with distinct names, a name qualifies for a cell exactly when the catalog maps it to an entry satisfying both predicates |
| `Grid.MatchingNames` | app.py:86-89 | a cell's list holds a name exactly when some catalog entry with that name satisfies both predicates (sound and complete); every listed name is in the catalog; with distinct catalog names the list has no duplicates and is in catalog order |
| `Grid.AnswerSet` | pokemon_grid_game.py:153-156 | a cell's set contains exactly the names that qualify for its row and column |
| `Grid.AllCells` | pokemon_grid_game.py:148-149 | the grid cells are exactly the pairs (r, c) with 0 ≤ r, c < 3, nine of them |
| `Scoring.Bump` | app.py:164-165 | incrementing a pick count adds the name to the counted names, raises its count by one, and leaves every other count unchanged |
| `Scoring.BumpTwice` | pokemon_grid_game.py:169 | after two accepted picks, each name has gained one count, or two when both picks were the same name |
| `Scoring.PicksStayCounted` | app.py:159-165 | if every recorded pick had a count of at least 1, that still holds after a new pick is recorded and counted |
| `Scoring.Rarity` | pokemon_grid_game.py:186-195 | a score is one of 1, 5, 25, 50 and 100, and it is 1 exactly when the count is 0 |
| `Scoring.RarityMatchesTiers` | pokemon_grid_game.py:186-195 | the branch chain equals the tier table (0→1, 1→5, 10→25, 50→50, 100→100) read as "last threshold reached" at every count |
| `Scoring.RarityMonotonic` | pokemon_grid_game.py:186-195 | a higher pick count never scores fewer points |
| `Scoring.RarityOf` | app.py:99-112 | a name missing from the counts scores 1; otherwise the score is the step function of its count |
| `Scoring.TotalOf` | app.py:192-194 | a sum of n rarity scores lies between n and 100·n |
| `Scoring.TotalOfAppend` | app.py:192-194 | the total of two pick lists joined is the sum of their totals |
| `Scoring.TotalOfPermutation` | pokemon_grid_game.py:199-201 | the total does not depend on the order in which the picks are visited |
| `Scoring.TotalOfCountedBounds` | app.py:192-194 | when every pick has a count of at least 1, a total over n picks lies between 5·n and 100·n |
| `Scoring.TotalOfMonotonic` | pokemon_grid_game.py:197-202 | if no count goes down, no total goes down |
| `Text.Strip` | app.py:150 | the result is the input with leading and trailing whitespace removed: a contiguous slice with only whitespace outside it and no whitespace at either end |
| `Text.StripUnique` | app.py:150 | only one string is the stripped form of a given input |
| `Text.StripIdempotent` | app.py:150 | stripping twice is the same as stripping once |
| `Text.StripPadded` | app.py:150 | whitespace added around a trimmed name is removed again |
| `Text.NatToStringRoundTrip` | app.py:91 | parsing the decimal digits of a natural number gives back that number |
| `Text.IntToStringInjective` | app.py:91 | different integers format to different strings |
| `Text.CommaJoinInjective` | app.py:152 | two comma-joined pairs of comma-free strings are equal only when their parts are equal |
| `Cli.NewGame` | pokemon_grid_game.py:13-19 | a new game has the catalog loaded, no picks and no counts, accepts no answer anywhere, and satisfies the state invariant |
| `Cli.ValidPokemon` | pokemon_grid_game.py:153-156 | the loop over the catalog collects exactly the cell's answer set |
| `Cli.CellAnswers` | pokemon_grid_game.py:147-158 | the nested loops produce exactly the nine cells (r, c) with 0 ≤ r, c < 3, each holding exactly the names qualifying for row r and column c |
| `Cli.GenerateDailyGrid` | pokemon_grid_game.py:111-158 | the rows are drawn categories 0-2 and the columns 3-5, all six distinct; the grid is complete and correct; catalog, picks and counts are unchanged; the state invariant is kept |
| `Cli.IsValidAnswerExactly` | pokemon_grid_game.py:160-162 | on a generated grid, an answer is valid exactly when the cell is in range and the name qualifies for its row and column |
| `Cli.IsValidAnswerOutsideGrid` | pokemon_grid_game.py:160-162 | in any reachable state, generated or not, an out-of-range cell accepts no name, and a submission there is refused and changes nothing |
| `Cli.SubmitAnswer` | pokemon_grid_game.py:164-171 | a submission is accepted exactly when the answer is valid. On acceptance the pick for the cell becomes the name, its count goes up by one, and nothing else changes. On rejection the game is unchanged |
| `Cli.SubmitPreservesConsistent` | pokemon_grid_game.py:164-171 | picks stay keyed by distinct grid cells, and every picked name keeps a count of at least 1 |
| `Cli.ResubmissionOverwrites` | pokemon_grid_game.py:166-169 | a second valid answer for a filled cell replaces the first pick there, and the name is counted once more |
| `Cli.CalculateRarityScore` | pokemon_grid_game.py:173-195 | the score is the step function of the name's current count, and 1 for a name never picked |
| `Cli.CalculateTotalScore` | pokemon_grid_game.py:197-202 | the loop sums the rarity of every pick in pick order; in a reachable state at most nine cells are filled and the total lies between 5 and 100 per pick |
| `Cli.PicksBounded` | pokemon_grid_game.py:197-202 | in a reachable state at most nine picks exist and their total lies between 5 and 100 per pick |
| `Web.CellKey` | app.py:91 | a cell key always contains the comma that separates row from column |
| `Web.CellKeyInjective` | app.py:91 | two cells with the same key are the same cell |
| `Web.GridKeys` | app.py:80-91 | every in-range cell's key is a grid key |
| `Web.GridKeysCount` | app.py:80-91 | the grid has exactly nine distinct keys |
| `Web.GridKeysPrinted` | app.py:91 | the nine keys are `"0,0"` through `"2,2"` |
| `Web.CellKeyInGrid` | app.py:152-154 | a key `"row,col"` belongs to the grid exactly when 0 ≤ row, col < 3 |
| `Web.ValidPokemon` | app.py:86-89 | the loop appends exactly the cell's qualifying names, in catalog order |
| `Web.GenerateDailyGrid` | app.py:44-97 | the returned row and column labels are those of drawn categories 0-2 and 3-5, and the six labels are pairwise distinct; the answer keys are exactly the nine grid keys; key `"r,c"` holds the names qualifying for row r and column c, in catalog order |
| `Web.DrawnLabels` | app.py:74-95 | the labels of six categories drawn without repetition from a labelled registry with no duplicates are six different strings, each the label of its drawn position |
| `Web.NewSession` | app.py:123-129 | a fresh session holds the grid's answers with no picks and no counts, and satisfies the session invariant |
| `Web.Record` | app.py:159-166 | recording an answer sets the pick for the key, adds the key to the picked keys, keeps keys distinct, counts the name once more, and leaves the grid alone |
| `Web.Answer` | app.py:152-183 | an answer is accepted exactly when the name is in the key's list (an empty list for an unknown key). On acceptance the response reports the new count and the rarity score of that count, which is at least 5. On rejection the session is unchanged and the response carries the key's list and the mismatch message |
| `Web.Submit` | app.py:145-183 | the same as `Web.Answer`, after stripping surrounding whitespace from the name and forming the key from row and column |
| `Web.SubmitIgnoresSurroundingSpace` | app.py:150 | submitting a name and submitting its stripped form give the same result |
| `Web.SubmitOutsideGridFails` | app.py:152-154 | a submission to an out-of-range cell is rejected with an empty list of valid options |
| `Web.StringCoordinatesReachGrid` | app.py:148-154 | for every in-range cell (r, c), coordinates arriving as one-digit strings `"r"` and `"c"` form the grid key `"r,c"`, and the submission is answered exactly as for the integers r and c |
| `Web.SubmitAcceptsExactlyQualifying` | app.py:154-157 | on a generated grid, a submission is accepted exactly when the cell is in range and the stripped name qualifies for its row and column |
| `Web.SubmitPreservesSessionOk` | app.py:157-166 | picks stay keyed by distinct grid keys, and every picked name keeps a count of at least 1 |
| `Web.RecordPreservesSessionOk` | app.py:159-166 | recording an answer for a key the grid has keeps the session invariant |
| `Web.RecordKeepsCounted` | app.py:159-165 | after recording, every pick in the session has a count of at least 1 |
| `Web.GetScore` | app.py:187-200 | the total sums the rarity of every pick in pick order; the report counts the filled cells against nine. In a reachable session at most nine cells are filled and the total lies between 5 and 100 per filled cell |
| `Web.SessionPicksBounded` | app.py:189-199 | in a reachable session at most nine picks exist and their total lies between 5 and 100 per pick |
| `Web.FirstPikachuScoresFive` | app.py:164-176 | the first accepted `" Pikachu\n"` for cell (0, 0) is answered with name `"Pikachu"`, score 5 and pick count 1 |

## Left out

- Seeding: `random.seed`, the date-based seed, and the quirk that `if seed:` skips seeding for seed 0 are not modelled. The six drawn positions are an input instead.
- `random.sample` is not modelled as a uniform choice. Its result is any six distinct positions, and the sampling error for a short population is the `Failure` of `Grid.SelectCategories`.
- Printing is left out: `display_grid` and `get_grid_stats` only format and print state that the model already holds.
- The console loop (`main`) is left out because it is interactive I/O.
- The Flask plumbing is left out: routes, `request.json`, `jsonify`, `render_template`, the secret key, and the cookie-backed `session` object. A session is an explicit value passed in and returned.
- `/api/grid` and `/api/reset` are left out. The first only reads the session and the second only clears it.
- Web.Submit: the submitted name is modelled as a string only. When the JSON `pokemon` is `null`, a number or a list, `.strip()` at `app.py:150` raises `AttributeError` and the request fails before any session write, so nothing changes; the model has no such input. A missing `pokemon` defaults to the empty string, which `rawName == ""` covers.
- Row and column of a web submission are modelled as integers only in `Web.Submit`. JSON may carry other values, and `f"{row},{col}"` formats whatever arrives. Strings whose text is a digit from 0 to 2 (such as `"1"` and `"2"`) give a grid key (`"1,2"`) and are answered like integers (`Web.StringCoordinatesReachGrid`). Other values (`null`, `"x"`, `1.0`) give keys outside the grid, such as `"None,None"`. `Web.Answer` takes the formatted key as a plain string, so it covers all of these.
- Web.CellKeyInGrid: speaks only about integer coordinates; the non-integer JSON values of the line above are covered by `Web.Answer` on the key string.
- Web.SubmitOutsideGridFails: speaks only about integer coordinates; a non-integer key outside the grid is rejected by `Web.Answer`, whose contract makes the empty list the answer for any key the grid lacks.
- Only `Web.GenerateDailyGrid` takes the catalog as a parameter instead of reading the field of the module-level `game` object (`app.py:116`). `Catalog.WebCatalog` is the value that object's `load_pokemon_data` returns. `Cli.GenerateDailyGrid` reads the catalog from the game state (`g.catalog`, the model of `self.pokemon_data`), which `Cli.NewGame` sets to `Catalog.CliCatalog`.
- Python's set and dict internals (hashing, iteration order of a `set`) are not modelled. Answer sets are Dafny sets; dicts whose order is observable are association lists.
- Catalog.CliCatalog: the contract states the size and the distinctness of the names, not every attribute; the body is the literal table.
- Catalog.WebCatalog: the contract states the size, distinctness and the shared prefix, not every attribute; the body is the literal table.
