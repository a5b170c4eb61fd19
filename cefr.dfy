/** The six common reference levels of the CEFR global scale, from A1 (lowest) to C2 (highest). */
module Cefr {
  const Levels: seq<string> := ["A1", "A2", "B1", "B2", "C1", "C2"]

  predicate IsLevel(s: string) {
    s in Levels
  }

  /** The position of a level on the scale. */
  function Rank(s: string): (r: nat)
    requires IsLevel(s)
    ensures r < |Levels| && Levels[r] == s
  {
    if s == "A1" then 0
    else if s == "A2" then 1
    else if s == "B1" then 2
    else if s == "B2" then 3
    else if s == "C1" then 4
    else 5
  }

  /** Ranks follow the order of the scale, so a level's rank identifies it. */
  lemma RankOfLevel(i: nat)
    requires i < |Levels|
    ensures IsLevel(Levels[i]) && Rank(Levels[i]) == i
  {
  }
}
