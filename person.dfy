/** `Person`: a name that never changes and a number of turns that can be set; zero or fewer
    turns means the person has infinite turns. */
module People {
  import opened Text

  class Person {
    const Name: string
    var Turns: int

    constructor (name: string, turns: int)
      ensures Name == name && Turns == turns
    {
      Name := name;
      Turns := turns;
    }

    /** "(Name:Forever)" when the turns are infinite, "(Name:N)" otherwise. */
    function ToString(): string
      reads this
    {
      if Turns <= 0 then "(" + Name + ":Forever)" else "(" + Name + ":" + IntToString(Turns) + ")"
    }
  }

  /** The text between "(Name:" and the closing parenthesis of a person's text. */
  function TurnsField(text: string, name: string): string
    requires |text| >= |name| + 3
  {
    text[|name| + 2..|text| - 1]
  }

  /** A person's text starts with "(", the name and ":", ends with ")", and what lies between
      reads back as the turns: "Forever" exactly when they are infinite, the number otherwise. */
  lemma ToStringDecodes(p: Person)
    ensures |p.ToString()| >= |p.Name| + 3
    ensures p.ToString()[..|p.Name| + 2] == "(" + p.Name + ":"
    ensures p.ToString()[|p.ToString()| - 1] == ')'
    ensures TurnsField(p.ToString(), p.Name) == "Forever" <==> p.Turns <= 0
    ensures p.Turns > 0 ==> ParseInt(TurnsField(p.ToString(), p.Name)) == p.Turns
  {
    var s := p.ToString();
    var head := "(" + p.Name + ":";
    if p.Turns <= 0 {
      assert s == head + "Forever" + ")";
      assert TurnsField(s, p.Name) == "Forever";
    } else {
      var n := IntToString(p.Turns);
      assert s == head + n + ")";
      assert TurnsField(s, p.Name) == n;
      assert IsDigit(n[0]) && !IsDigit("Forever"[0]);
      IntToStringRoundTrip(p.Turns);
    }
  }
}
