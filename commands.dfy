/** The turn input `x,y,action` and its pattern `^(\d{1,2}),(\d{1,2}),([mcs])` (main.go). */
module Commands {
  import opened Decimal

  datatype Option<+T> = None | Some(value: T)

  /** `c` reveals (cleans), `m` marks a mine, `s` marks a square as suspicious. */
  datatype Action = Reveal | Mark | Suspect

  datatype Command = Command(x: nat, y: nat, action: Action)

  predicate IsActionChar(ch: char) {
    ch == 'm' || ch == 'c' || ch == 's'
  }

  /** The turn step tests for `c`, then for `m`, and treats anything else as `s`. */
  function ActionOf(ch: char): Action {
    if ch == 'c' then Reveal else if ch == 'm' then Mark else Suspect
  }

  function ActionChar(a: Action): (ch: char)
    ensures IsActionChar(ch) && ActionOf(ch) == a
  {
    match a
    case Reveal => 'c'
    case Mark => 'm'
    case Suspect => 's'
  }

  /** Length of a `\d{1,2}` group at position `i` that a comma follows, or 0 when there is none.
      The group is greedy: two digits are tried before one, so a two-digit group followed by a
      comma is always found whole. */
  function GroupLength(s: string, i: nat): (n: nat)
    ensures n <= 2
    ensures n > 0 ==> i + n < |s| && AllDigits(s[i..i + n]) && s[i + n] == ','
    ensures i + 2 < |s| && AllDigits(s[i..i + 2]) && s[i + 2] == ',' ==> n == 2
    ensures i + 1 < |s| && AllDigits(s[i..i + 1]) && s[i + 1] == ',' ==> n >= 1
  {
    assert i + 2 < |s| ==> s[i..i + 2][0] == s[i] && s[i..i + 2][1] == s[i + 1];
    assert i + 1 < |s| ==> s[i..i + 1][0] == s[i];
    if i + 2 < |s| && IsDigit(s[i]) && IsDigit(s[i + 1]) && s[i + 2] == ',' then 2
    else if i + 1 < |s| && IsDigit(s[i]) && s[i + 1] == ',' then 1
    else 0
  }

  /** The regular expression read as a relation: digit groups of length `i` and `j`, each
      followed by a comma, then an action letter; anything may follow (no end anchor). */
  ghost predicate MatchesAt(s: string, i: int, j: int) {
    && 1 <= i <= 2 && 1 <= j <= 2 && i + j + 2 < |s|
    && AllDigits(s[..i]) && s[i] == ','
    && AllDigits(s[i + 1..i + 1 + j]) && s[i + 1 + j] == ','
    && IsActionChar(s[i + j + 2])
  }

  ghost predicate MatchesPattern(s: string) {
    exists i, j :: MatchesAt(s, i, j)
  }

  /** reg.MatchString followed by FindStringSubmatch and strconv.Atoi on the two digit groups.
      Both coordinates parsed this way are below 100. */
  function ParseInput(s: string): (r: Option<Command>)
    ensures r.Some? ==> r.value.x < 100 && r.value.y < 100
  {
    var a := GroupLength(s, 0);
    if a == 0 then None
    else
      var b := GroupLength(s, a + 1);
      if b == 0 then None
      else
        var k := a + b + 2;
        if k < |s| && IsActionChar(s[k]) then
          assert Pow10(2) == 100;
          Some(Command(Value(s[..a]), Value(s[a + 1..a + 1 + b]), ActionOf(s[k])))
        else None
  }

  /** Whenever the pattern matches, the parser accepts, and its fields are the pattern's groups. */
  lemma ParseFollowsPattern(s: string, i: int, j: int)
    requires MatchesAt(s, i, j)
    ensures ParseInput(s) == Some(Command(Value(s[..i]), Value(s[i + 1..i + 1 + j]), ActionOf(s[i + j + 2])))
  {
    assert s[0..i] == s[..i];
    assert IsDigit(s[0]);
    if i == 1 {
      assert !IsDigit(s[1]);
    } else {
      assert IsDigit(s[1]);
    }
    assert GroupLength(s, 0) == i;
    assert IsDigit(s[i + 1]);
    if j == 1 {
      assert !IsDigit(s[i + 2]);
    } else {
      assert IsDigit(s[i + 2]);
    }
    assert GroupLength(s, i + 1) == j;
  }

  /** The parser accepts exactly the inputs the pattern matches. */
  lemma ParseAcceptsExactlyPattern(s: string)
    ensures ParseInput(s).Some? <==> MatchesPattern(s)
  {
    if ParseInput(s).Some? {
      var a := GroupLength(s, 0);
      var b := GroupLength(s, a + 1);
      assert s[0..a] == s[..a];
      assert MatchesAt(s, a, b);
    }
    if MatchesPattern(s) {
      var i, j :| MatchesAt(s, i, j);
      ParseFollowsPattern(s, i, j);
    }
  }

  /** The input a player types for a command. */
  function Render(c: Command): string
    requires c.x < 100 && c.y < 100
  {
    NatToDecimal(c.x) + "," + NatToDecimal(c.y) + "," + [ActionChar(c.action)]
  }

  /** Every command with coordinates below 100 can be typed, and trailing text is ignored. */
  lemma ParseRender(c: Command, rest: string)
    requires c.x < 100 && c.y < 100
    ensures ParseInput(Render(c) + rest) == Some(c)
  {
    var dx, dy := NatToDecimal(c.x), NatToDecimal(c.y);
    var s := Render(c) + rest;
    var i, j := |dx|, |dy|;
    assert s == dx + [','] + dy + [','] + [ActionChar(c.action)] + rest;
    assert s[..i] == dx;
    assert s[i + 1..i + 1 + j] == dy;
    assert MatchesAt(s, i, j);
    ParseFollowsPattern(s, i, j);
    ValueOfDecimal(c.x);
    ValueOfDecimal(c.y);
  }
}
