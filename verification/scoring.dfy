/**
  Rarity scoring: how often an entity has been picked decides its points (lower is
  better), and a player's total is the sum over their picks, always read from
  the current counts.
 */
module Scoring {

  /** Pick counts as the game holds them: entity name to how often it was accepted. */
  type Counts = map<string, nat>

  /** How often `name` has been picked; a name absent from the counts has been picked 0 times. */
  function CountOf(counts: Counts, name: string): nat
  {
    if name in counts then counts[name] else 0
  }

  /** `pick_counts[name] = pick_counts.get(name, 0) + 1`: one more pick of `name`, no other count moves. */
  function Bump(counts: Counts, name: string): (c: Counts)
    ensures c.Keys == counts.Keys + {name}
    ensures CountOf(c, name) == CountOf(counts, name) + 1
    ensures forall n :: n != name ==> CountOf(c, n) == CountOf(counts, n)
  {
    counts[name := CountOf(counts, name) + 1]
  }

  /** Two picks in a row: each name gains one, or two when both picks are the same name. */
  lemma BumpTwice(counts: Counts, first: string, second: string)
    ensures CountOf(Bump(Bump(counts, first), second), first) == CountOf(counts, first) + (if first == second then 2 else 1)
    ensures CountOf(Bump(Bump(counts, first), second), second) == CountOf(counts, second) + (if first == second then 2 else 1)
  {
  }

  /**
    Picking `name` for `key` keeps every pick counted: the new pick has just
    been counted and the others were counted before and lost nothing.
   */
  lemma PicksStayCounted<K>(picks: map<K, string>, counts: Counts, key: K, name: string)
    requires forall k :: k in picks ==> CountOf(counts, picks[k]) >= 1
    ensures var picks', counts' := picks[key := name], Bump(counts, name);
      forall k :: k in picks' ==> CountOf(counts', picks'[k]) >= 1
  {
  }

  /** Points for an entity picked `count` times so far. */
  function Rarity(count: nat): (score: nat)
    ensures score in {1, 5, 25, 50, 100}
    ensures score == 1 <==> count == 0
  {
    if count == 0 then 1
    else if count < 10 then 5
    else if count < 50 then 25
    else if count < 100 then 50
    else 100
  }

  /**
    The scoring table as data: each tier is a threshold and its score, and a
    count earns the score of the last tier whose threshold it reaches.
   */
  const Tiers: seq<(nat, nat)> := [(0, 1), (1, 5), (10, 25), (50, 50), (100, 100)]

  function TierScore(tiers: seq<(nat, nat)>, count: nat, reached: nat): nat
  {
    if tiers == [] then reached
    else TierScore(tiers[1..], count, if tiers[0].0 <= count then tiers[0].1 else reached)
  }

  /** The step function agrees with the tier table at every count. */
  lemma RarityMatchesTiers(count: nat)
    ensures Rarity(count) == TierScore(Tiers, count, 0)
  {
    var t1: seq<(nat, nat)> := [(1, 5), (10, 25), (50, 50), (100, 100)];
    var t2: seq<(nat, nat)> := [(10, 25), (50, 50), (100, 100)];
    var t3: seq<(nat, nat)> := [(50, 50), (100, 100)];
    var t4: seq<(nat, nat)> := [(100, 100)];
    assert Tiers[1..] == t1 && t1[1..] == t2 && t2[1..] == t3 && t3[1..] == t4 && t4[1..] == [];
    // The score reached after reading each tier in turn.
    var s1 := 1;
    var s2 := if 1 <= count then 5 else s1;
    var s3 := if 10 <= count then 25 else s2;
    var s4 := if 50 <= count then 50 else s3;
    var s5 := if 100 <= count then 100 else s4;
    assert TierScore(Tiers, count, 0) == TierScore(t1, count, s1);
    assert TierScore(t1, count, s1) == TierScore(t2, count, s2);
    assert TierScore(t2, count, s2) == TierScore(t3, count, s3);
    assert TierScore(t3, count, s3) == TierScore(t4, count, s4);
    assert TierScore(t4, count, s4) == s5;
  }

  /** A more often picked entity never scores fewer points. */
  lemma RarityMonotonic(a: nat, b: nat)
    requires a <= b
    ensures Rarity(a) <= Rarity(b)
  {
  }

  /** `calculate_rarity_score(name, pick_counts)`: a name never picked counts as 0. */
  function RarityOf(counts: Counts, name: string): (score: nat)
    ensures name !in counts ==> score == 1
    ensures score == Rarity(CountOf(counts, name))
  {
    Rarity(if name in counts then counts[name] else 0)
  }

  /** Sum of the rarity scores of `names`, accumulated left to right. */
  function TotalOf(names: seq<string>, counts: Counts): (total: nat)
    ensures |names| <= total <= 100 * |names|
  {
    if names == [] then 0
    else TotalOf(names[..|names| - 1], counts) + RarityOf(counts, names[|names| - 1])
  }

  lemma {:induction false} TotalOfAppend(a: seq<string>, b: seq<string>, counts: Counts)
    ensures TotalOf(a + b, counts) == TotalOf(a, counts) + TotalOf(b, counts)
  {
    if b != [] {
      assert (a + b)[..|a + b| - 1] == a + b[..|b| - 1];
      TotalOfAppend(a, b[..|b| - 1], counts);
    } else {
      assert a + b == a;
    }
  }

  /** The total does not depend on the order of the picks. */
  lemma {:induction false} TotalOfPermutation(a: seq<string>, b: seq<string>, counts: Counts)
    requires multiset(a) == multiset(b)
    ensures TotalOf(a, counts) == TotalOf(b, counts)
  {
    if a != [] {
      var x := a[|a| - 1];
      var a' := a[..|a| - 1];
      assert a == a' + [x];
      assert x in multiset(b);
      var j :| 0 <= j < |b| && b[j] == x;
      var b' := b[..j] + b[j + 1..];
      assert b == b[..j] + [x] + b[j + 1..];
      assert multiset(b') == multiset(b) - multiset{x};
      TotalOfPermutation(a', b', counts);
      TotalOfAppend(b[..j], [x], counts);
      TotalOfAppend(b[..j] + [x], b[j + 1..], counts);
      TotalOfAppend(b[..j], b[j + 1..], counts);
    }
  }

  /** When every pick has been counted at least once, each is worth at least 5. */
  lemma {:induction false} TotalOfCountedBounds(names: seq<string>, counts: Counts)
    requires forall i :: 0 <= i < |names| ==> CountOf(counts, names[i]) >= 1
    ensures 5 * |names| <= TotalOf(names, counts) <= 100 * |names|
  {
    if names != [] {
      TotalOfCountedBounds(names[..|names| - 1], counts);
    }
  }

  /**
    Counts only ever grow, and a total read later is never lower: a pick
    never becomes cheaper when the same name is accepted again.
   */
  lemma {:induction false} TotalOfMonotonic(names: seq<string>, before: Counts, after: Counts)
    requires forall n :: CountOf(before, n) <= CountOf(after, n)
    ensures TotalOf(names, before) <= TotalOf(names, after)
  {
    if names != [] {
      var n := names[|names| - 1];
      RarityMonotonic(CountOf(before, n), CountOf(after, n));
      TotalOfMonotonic(names[..|names| - 1], before, after);
    }
  }
}
