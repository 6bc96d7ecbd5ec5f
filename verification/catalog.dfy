/**
  The entity catalog and the category registry: what `load_pokemon_data`
  returns, and the `(label, predicate)` pairs `generate_daily_grid` draws from.
 */
module Catalog {

  import opened Seqs
  import opened Dict
  import Text

  /** The attributes the categories test. */
  datatype Pokemon = Pokemon(
    types: seq<string>,
    generation: int,
    evolutionStage: int,
    legendary: bool,
    region: string)

  /** Name to attributes, in the order the literal lists them. */
  type Catalog = Dict<string, Pokemon>

  /** What a category tests; each constructor stands for one family of lambdas. */
  datatype Criterion =
    | HasType(typeName: string)
    | InRegion(regionName: string)
    | IsLegendary
    | InGeneration(number: int)
    | FullyEvolved

  /** A `(label, predicate)` pair of the registry. */
  datatype Category = Category(name: string, criterion: Criterion)

  predicate Holds(c: Criterion, p: Pokemon)
  {
    match c
    case HasType(t) => t in p.types
    case InRegion(r) => p.region == r
    case IsLegendary => p.legendary
    case InGeneration(n) => p.generation == n
    case FullyEvolved => p.evolutionStage == 3
  }

  /** The label the registry gives to a category with this criterion. */
  function LabelOf(c: Criterion): string
  {
    match c
    case HasType(t) => "Type: " + t
    case InRegion(r) => "Region: " + r
    case IsLegendary => "Legendary"
    case InGeneration(n) => "Generation " + Text.IntToString(n)
    case FullyEvolved => "Fully Evolved"
  }

  /** The first letter of a label, which tells the families apart. */
  function Initial(c: Criterion): char
  {
    match c
    case HasType(_) => 'T'
    case InRegion(_) => 'R'
    case IsLegendary => 'L'
    case InGeneration(_) => 'G'
    case FullyEvolved => 'F'
  }

  lemma LabelInitial(c: Criterion)
    ensures |LabelOf(c)| > 0 && LabelOf(c)[0] == Initial(c)
  {
  }

  /** No two criteria share a label, so a label names exactly one test. */
  lemma LabelOfInjective(c1: Criterion, c2: Criterion)
    requires LabelOf(c1) == LabelOf(c2)
    ensures c1 == c2
  {
    var l := LabelOf(c1);
    LabelInitial(c1);
    LabelInitial(c2);
    match c1
    case HasType(t) =>
      assert c2.HasType? && l[6..] == t && l[6..] == c2.typeName;
    case InRegion(r) =>
      assert c2.InRegion? && l[8..] == r && l[8..] == c2.regionName;
    case InGeneration(n) =>
      assert c2.InGeneration? && l[11..] == Text.IntToString(n) && l[11..] == Text.IntToString(c2.number);
      Text.IntToStringInjective(n, c2.number);
    case IsLegendary =>
    case FullyEvolved =>
  }

  /** The labels of a list of categories, in order. */
  function Names(cats: seq<Category>): (names: seq<string>)
    ensures |names| == |cats|
    ensures forall i :: 0 <= i < |cats| ==> names[i] == cats[i].name
    ensures Labelled(cats) && Distinct(cats) ==> Distinct(names)
  {
    var names := seq(|cats|, i requires 0 <= i < |cats| => cats[i].name);
    assert Labelled(cats) && Distinct(cats) ==> Distinct(names) by {
      if Labelled(cats) && Distinct(cats) {
        forall i, j | 0 <= i < j < |cats| ensures names[i] != names[j] {
          if names[i] == names[j] {
            LabelOfInjective(cats[i].criterion, cats[j].criterion);
          }
        }
      }
    }
    names
  }

  /** The registry entry for a criterion, labelled as the registry labels it. */
  function Cat(c: Criterion): Category
  {
    Category(LabelOf(c), c)
  }

  /** Every label names the test it stands for. */
  predicate Labelled(registry: seq<Category>)
  {
    forall i :: 0 <= i < |registry| ==> registry[i].name == LabelOf(registry[i].criterion)
  }

  /** One type category per type name, in the order given. */
  function TypeCategories(types: seq<string>): (r: seq<Category>)
    ensures |r| == |types| && Labelled(r)
    ensures forall i :: 0 <= i < |r| ==> r[i].criterion == HasType(types[i])
    ensures Distinct(types) ==> Distinct(r)
  {
    seq(|types|, i requires 0 <= i < |types| => Cat(HasType(types[i])))
  }

  /** The region categories. */
  function RegionCategories(): (r: seq<Category>)
    ensures |r| == 3 && Distinct(r) && Labelled(r)
    ensures forall i :: 0 <= i < |r| ==> r[i].criterion.InRegion?
  {
    [ Cat(InRegion("Kanto")),
      Cat(InRegion("Hoenn")),
      Cat(InRegion("Sinnoh")) ]
  }

  /** The legendary, generation and fully evolved categories. */
  function OtherCategories(): (r: seq<Category>)
    ensures |r| == 4 && Distinct(r) && Labelled(r)
    ensures forall i :: 0 <= i < |r| ==> !r[i].criterion.HasType? && !r[i].criterion.InRegion?
  {
    [ Cat(IsLegendary),
      Cat(InGeneration(1)),
      Cat(InGeneration(3)),
      Cat(FullyEvolved) ]
  }

  /** The full registry: the type categories, then the region categories, then the other four. */
  function Registry(types: seq<string>): (r: seq<Category>)
    ensures |r| == |types| + 7 && Labelled(r)
    ensures r[..|types|] == TypeCategories(types)
    ensures Distinct(types) ==> Distinct(r)
  {
    var t, g, o := TypeCategories(types), RegionCategories(), OtherCategories();
    assert Distinct(types) ==> Distinct(t + g + o) by {
      if Distinct(types) {
        DistinctConcat(t, g);
        DistinctConcat(t + g, o);
      }
    }
    t + g + o
  }

  /** The type names of the terminal game. */
  const CliTypes: seq<string> := ["Fire", "Water", "Dragon", "Flying", "Steel", "Psychic"]

  /** The web game has two more. */
  const WebTypes: seq<string> := CliTypes + ["Electric", "Ice"]

  lemma CliTypesDistinct()
    ensures Distinct(CliTypes)
  {
    var t := CliTypes;
    assert t[0] == "Fire" && t[1] == "Water" && t[2] == "Dragon" && t[3] == "Flying" && t[4] == "Steel" && t[5] == "Psychic";
  }

  lemma WebTypesDistinct()
    ensures Distinct(WebTypes)
  {
    CliTypesDistinct();
    var extra: seq<string> := ["Electric", "Ice"];
    forall i, j | 0 <= i < |CliTypes| && 0 <= j < |extra| ensures CliTypes[i] != extra[j] {
      assert |CliTypes[i]| <= 7 && |extra[0]| == 8;
      assert CliTypes[i][0] != 'I';
    }
    DistinctConcat(CliTypes, extra);
  }

  /** The thirteen categories of the terminal game. */
  function CliRegistry(): (r: seq<Category>)
    ensures |r| == 13
    ensures Distinct(r) && Labelled(r)
  {
    CliTypesDistinct();
    Registry(CliTypes)
  }

  /** The fifteen categories of the web game. */
  function WebRegistry(): (r: seq<Category>)
    ensures |r| == 15
    ensures Distinct(r) && Labelled(r)
  {
    WebTypesDistinct();
    Registry(WebTypes)
  }

  /** The terminal game's catalog. */
  function CliCatalog(): (c: Catalog)
    ensures |c| == 12 && DistinctKeys(c)
  {
    [ ("Charizard", Pokemon(["Fire", "Flying"], 1, 3, false, "Kanto")),
      ("Pikachu", Pokemon(["Electric"], 1, 1, false, "Kanto")),
      ("Mewtwo", Pokemon(["Psychic"], 1, 1, true, "Kanto")),
      ("Greninja", Pokemon(["Water", "Dark"], 6, 3, false, "Kalos")),
      ("Lucario", Pokemon(["Fighting", "Steel"], 4, 2, false, "Sinnoh")),
      ("Garchomp", Pokemon(["Dragon", "Ground"], 4, 3, false, "Sinnoh")),
      ("Rayquaza", Pokemon(["Dragon", "Flying"], 3, 1, true, "Hoenn")),
      ("Blaziken", Pokemon(["Fire", "Fighting"], 3, 3, false, "Hoenn")),
      ("Gyarados", Pokemon(["Water", "Flying"], 1, 2, false, "Kanto")),
      ("Dragonite", Pokemon(["Dragon", "Flying"], 1, 3, false, "Kanto")),
      ("Salamence", Pokemon(["Dragon", "Flying"], 3, 3, false, "Hoenn")),
      ("Metagross", Pokemon(["Steel", "Psychic"], 3, 3, false, "Hoenn")) ]
  }

  /** The web game's catalog: the terminal game's twelve entries, then eight more. */
  function WebCatalog(): (c: Catalog)
    ensures |c| == 20 && DistinctKeys(c)
    ensures c[..12] == CliCatalog()
  {
    CliCatalog()
    + [ ("Tyranitar", Pokemon(["Rock", "Dark"], 2, 3, false, "Johto")),
        ("Alakazam", Pokemon(["Psychic"], 1, 3, false, "Kanto")),
        ("Gengar", Pokemon(["Ghost", "Poison"], 1, 3, false, "Kanto")),
        ("Snorlax", Pokemon(["Normal"], 1, 2, false, "Kanto")),
        ("Lapras", Pokemon(["Water", "Ice"], 1, 1, false, "Kanto")),
        ("Articuno", Pokemon(["Ice", "Flying"], 1, 1, true, "Kanto")),
        ("Zapdos", Pokemon(["Electric", "Flying"], 1, 1, true, "Kanto")),
        ("Moltres", Pokemon(["Fire", "Flying"], 1, 1, true, "Kanto")) ]
  }
}
