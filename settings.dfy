/** Difficulty levels and their board presets (main.go). */
module Settings {

  /** Difficulty is a plain int: Easy is 1, Medium 2, Hard 3. */
  type Difficulty = int

  const Easy: Difficulty := 1
  const Medium: Difficulty := 2
  const Hard: Difficulty := 3

  datatype Config = Config(width: int, height: int, mineCount: int)

  /** The BoardConfig table. */
  const BoardConfigs: map<Difficulty, Config> :=
    map[Easy := Config(9, 9, 10), Medium := Config(16, 16, 40), Hard := Config(30, 16, 99)]

  /** The difficulty prompt's check: anything outside 1..3 is asked for again.  What passes is
      exactly one of the three named difficulties. */
  predicate Accepted(d: Difficulty)
    ensures Accepted(d) <==> d == Easy || d == Medium || d == Hard
  {
    !(d <= 0 || d > 3)
  }

  /** Looking a difficulty up in BoardConfig; a missing key yields the zero Config, as a Go map does.
      Every accepted difficulty has a preset, and every preset leaves room for its mines with at
      least one safe square, so mine placement can finish. */
  function BoardConfig(d: Difficulty): (r: Config)
    ensures Accepted(d) <==> d in BoardConfigs
    ensures Accepted(d) ==> r.width > 0 && r.height > 0 && 1 <= r.mineCount < r.width * r.height
    ensures !Accepted(d) ==> r == Config(0, 0, 0)
  {
    if d in BoardConfigs then BoardConfigs[d] else Config(0, 0, 0)
  }

  /** Difficulty.String: the name of a difficulty, empty for an unknown one.  Names are non-empty
      exactly for the accepted difficulties and differ from each other. */
  function DifficultyName(d: Difficulty): (r: string)
    ensures r != "" <==> Accepted(d)
  {
    match d
    case 1 => "Easy"
    case 2 => "Medium"
    case 3 => "Hard"
    case _ => ""
  }

  lemma DifficultyNamesDistinct(d: Difficulty, e: Difficulty)
    requires Accepted(d) && Accepted(e) && d != e
    ensures DifficultyName(d) != DifficultyName(e)
  {
  }
}
