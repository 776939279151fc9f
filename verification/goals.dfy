/** Personal and common goals: named, described records worth some points,
    and their display text `"<name>: <description> (<points> points)"`. */
module Goals {
  import opened Wrappers

  datatype PersonalGoal = PersonalGoal(name: string, description: string, points: int)

  datatype CommonGoal = CommonGoal(name: string, description: string, points: int)

  predicate IsDigit(c: char)
  {
    '0' <= c <= '9'
  }

  function DigitChar(d: nat): (c: char)
    requires d < 10
    ensures IsDigit(c)
  {
    ('0' as int + d) as char
  }

  function DigitValue(c: char): (d: nat)
    requires IsDigit(c)
    ensures d < 10
  {
    c as int - '0' as int
  }

  predicate AllDigits(s: string)
  {
    forall i :: 0 <= i < |s| ==> IsDigit(s[i])
  }

  /** `str(n)` for a non-negative integer: its decimal digits, most
      significant first, with no leading zero. */
  function NatText(n: nat): (r: string)
    ensures |r| >= 1 && AllDigits(r)
    ensures |r| > 1 ==> r[0] != '0'
  {
    if n < 10 then [DigitChar(n)] else NatText(n / 10) + [DigitChar(n % 10)]
  }

  /** The value of a string of decimal digits. */
  function ParseNat(s: string): (n: nat)
    requires AllDigits(s)
  {
    if |s| == 0 then 0 else 10 * ParseNat(s[..|s| - 1]) + DigitValue(s[|s| - 1])
  }

  /** `str(i)` for any integer: a minus sign before the digits of a negative. */
  function IntText(i: int): (r: string)
    ensures |r| >= 1
    ensures IsIntText(r) && ParseInt(r) == i
  {
    if i < 0 then
      NatTextRoundTrip(-i);
      assert ("-" + NatText(-i))[1..] == NatText(-i);
      "-" + NatText(-i)
    else
      NatTextRoundTrip(i);
      NatText(i)
  }

  /** The text `IntText` produces: optionally a minus sign, then digits. */
  predicate IsIntText(s: string)
  {
    if |s| > 0 && s[0] == '-' then AllDigits(s[1..]) else AllDigits(s)
  }

  /** The value of an integer's text. */
  function ParseInt(s: string): (i: int)
    requires IsIntText(s)
  {
    if |s| > 0 && s[0] == '-' then -(ParseNat(s[1..]) as int) else ParseNat(s)
  }

  /** Reading the digits back gives the number they were written from. */
  lemma {:induction false} NatTextRoundTrip(n: nat)
    ensures ParseNat(NatText(n)) == n
    decreases n
  {
    var r := NatText(n);
    if n >= 10 {
      NatTextRoundTrip(n / 10);
      assert r[..|r| - 1] == NatText(n / 10);
      assert DigitValue(r[|r| - 1]) == n % 10;
    } else {
      assert r[..|r| - 1] == [];
    }
  }

  /** `IntText` loses nothing: its text reads back to the same integer. */
  lemma IntTextRoundTrip(i: int)
    ensures IsIntText(IntText(i))
    ensures ParseInt(IntText(i)) == i
  {
    if i < 0 {
      NatTextRoundTrip(-i);
      assert IntText(i)[1..] == NatText(-i);
    } else {
      NatTextRoundTrip(i);
    }
  }

  /** The f-string both goal kinds display themselves with. */
  function GoalText(name: string, description: string, points: int): (r: string)
  {
    name + ": " + description + " (" + IntText(points) + " points)"
  }

  /** `str(goal)` of a personal goal. */
  function PersonalGoalText(g: PersonalGoal): (r: string)
    ensures |r| >= |g.name| && r[..|g.name|] == g.name
    ensures PointsOf(r, g.name, g.description) == Some(g.points)
  {
    GoalTextRoundTrip(g.name, g.description, g.points);
    GoalText(g.name, g.description, g.points)
  }

  /** `str(goal)` of a common goal. */
  function CommonGoalText(g: CommonGoal): (r: string)
    ensures |r| >= |g.name| && r[..|g.name|] == g.name
    ensures PointsOf(r, g.name, g.description) == Some(g.points)
  {
    GoalTextRoundTrip(g.name, g.description, g.points);
    GoalText(g.name, g.description, g.points)
  }

  /** The points of a goal's text, given its name and description: strip
      the known prefix and the ` points)` suffix and read the number. */
  function PointsOf(text: string, name: string, description: string): (r: Option<int>)
  {
    var prefix := name + ": " + description + " (";
    var suffix := " points)";
    if |text| >= |prefix| + |suffix| && text[..|prefix|] == prefix
       && text[|text| - |suffix|..] == suffix
       && IsIntText(text[|prefix|..|text| - |suffix|])
    then Some(ParseInt(text[|prefix|..|text| - |suffix|]))
    else None
  }

  /** A goal's text starts with its name and records its points: they can
      be read back from it. */
  lemma GoalTextRoundTrip(name: string, description: string, points: int)
    ensures GoalText(name, description, points)[..|name|] == name
    ensures PointsOf(GoalText(name, description, points), name, description) == Some(points)
  {
    var prefix := name + ": " + description + " (";
    var digits := IntText(points);
    var text := GoalText(name, description, points);
    assert text == prefix + digits + " points)";
    assert text[..|prefix|] == prefix;
    assert text[|prefix|..|text| - 8] == digits;
    IntTextRoundTrip(points);
  }

  /** The display of the goals the tests build. */
  lemma GoalTextExamples()
    ensures PersonalGoalText(PersonalGoal("test", "test", 1)) == "test: test (1 points)"
    ensures CommonGoalText(CommonGoal("test", "test", 1)) == "test: test (1 points)"
    ensures PersonalGoalText(PersonalGoal("G", "D", 3)) == "G: D (3 points)"
  {
    assert NatText(1) == "1" && IntText(1) == "1";
    assert NatText(3) == "3" && IntText(3) == "3";
    assert GoalText("test", "test", 1) == "test: test (1 points)";
    assert GoalText("G", "D", 3) == "G: D (3 points)";
  }
}
