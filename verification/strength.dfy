/**
 * The strength scorer (`scoring` in simple_pass/passwordgen.py): a password
 * earns a one-time bonus per character class it contains (ASCII lower case,
 * ASCII upper case, digit), a bonus per occurrence of a special character
 * and a bonus per character; it passes when it is strictly longer than the
 * minimum length and its score is strictly above the minimum score.
 */
module Strength {
  import opened Text

  /** The keyword options of `scoring`; Python integers, so any of them may be negative. */
  datatype Options = Options(
    minimumLength: int,
    minimumScore: int,
    pointsForLower: int,
    pointsForUpper: int,
    pointsForNumbers: int,
    pointsPerSpecial: int,
    specialCharacters: string,
    pointsPerCharacter: int)

  /** The default special set; it begins with a space and holds one backslash. */
  const DefaultSpecials: string := " !@#$%^&*()-=_+.,<>[]{}/?\\|"

  const Defaults: Options := Options(8, 20, 2, 2, 2, 2, DefaultSpecials, 1)

  datatype ScoreResult = ScoreResult(passing: bool, score: int)

  function Bonus(present: bool, points: int): (b: int)
  {
    if present then points else 0
  }

  /**
   * Reference definition of the result: the five score terms summed at once,
   * and the two strict gates.
   */
  function Score(password: string, o: Options): (r: ScoreResult)
  {
    var score :=
      Bonus(HasLower(password), o.pointsForLower)
      + Bonus(HasUpper(password), o.pointsForUpper)
      + Bonus(HasDigit(password), o.pointsForNumbers)
      + o.pointsPerSpecial * CountIn(password, o.specialCharacters)
      + o.pointsPerCharacter * |password|;
    ScoreResult(|password| > o.minimumLength && score > o.minimumScore, score)
  }

  /**
   * `scoring`: the same result and the same order of additions as the
   * source, with its separate passes for the three class flags and the
   * special count computed in one pass. The length gate comes first, the
   * bonuses are added one by one, and the score gate applies only when the
   * length gate passed.
   */
  method Scoring(password: string, o: Options) returns (passing: bool, score: int)
    ensures ScoreResult(passing, score) == Score(password, o)
    ensures passing <==> |password| > o.minimumLength && score > o.minimumScore
    ensures |password| <= o.minimumLength ==> !passing
    ensures |password| == 0 ==> score == 0
  {
    score := 0;
    passing := |password| > o.minimumLength;
    var lower, upper, digit := false, false, false;
    var specials := 0;
    for i := 0 to |password|
      invariant lower <==> HasLower(password[..i])
      invariant upper <==> HasUpper(password[..i])
      invariant digit <==> HasDigit(password[..i])
      invariant specials == CountIn(password[..i], o.specialCharacters)
    {
      var c := password[i];
      assert password[..i + 1] == password[..i] + [c];
      lower := lower || IsAsciiLower(c);
      upper := upper || IsAsciiUpper(c);
      digit := digit || IsDigit(c);
      CountInConcat(password[..i], [c], o.specialCharacters);
      if c in o.specialCharacters {
        specials := specials + 1;
      }
    }
    assert password[..|password|] == password;
    if lower {
      score := score + o.pointsForLower;
    }
    if upper {
      score := score + o.pointsForUpper;
    }
    if digit {
      score := score + o.pointsForNumbers;
    }
    score := score + specials * o.pointsPerSpecial;
    score := score + |password| * o.pointsPerCharacter;
    if passing {
      passing := score > o.minimumScore;
    }
  }

  /** Appending one character adds a class bonus only if that class was absent. */
  lemma ClassesAfterAppend(p: string, c: char)
    ensures HasLower(p + [c]) <==> HasLower(p) || IsAsciiLower(c)
    ensures HasUpper(p + [c]) <==> HasUpper(p) || IsAsciiUpper(c)
    ensures HasDigit(p + [c]) <==> HasDigit(p) || IsDigit(c)
  {
    var q := p + [c];
    assert q[|p|] == c;
    assert forall i :: 0 <= i < |p| ==> q[i] == p[i];
  }

  /**
   * A character whose class the password already has (or that is in no
   * class) raises the score by the per-character points, plus the
   * per-special points when it is special: class bonuses are one-time,
   * special points are per occurrence.
   */
  lemma AppendWithoutNewClass(p: string, c: char, o: Options)
    requires IsAsciiLower(c) ==> HasLower(p)
    requires IsAsciiUpper(c) ==> HasUpper(p)
    requires IsDigit(c) ==> HasDigit(p)
    ensures Score(p + [c], o).score
         == Score(p, o).score + o.pointsPerCharacter
            + (if c in o.specialCharacters then o.pointsPerSpecial else 0)
  {
    ClassesAfterAppend(p, c);
    CountInConcat(p, [c], o.specialCharacters);
    var d := if c in o.specialCharacters then 1 else 0;
    assert CountIn([c], o.specialCharacters) == d;
    var n := CountIn(p, o.specialCharacters);
    assert o.pointsPerSpecial * (n + d) == o.pointsPerSpecial * n + o.pointsPerSpecial * d;
    assert o.pointsPerCharacter * (|p| + 1) == o.pointsPerCharacter * |p| + o.pointsPerCharacter;
  }

  /** No character of the default special set is a letter or a digit. */
  lemma DefaultSpecialsAreSymbols(c: char)
    requires c in DefaultSpecials
    ensures !IsAsciiLower(c) && !IsAsciiUpper(c) && !IsDigit(c)
  {
  }

  /**
   * Under the defaults, one more lower-case letter after an existing one
   * adds exactly the per-character point, and one more special character
   * adds the per-special and per-character points.
   */
  lemma DefaultAppendIncrements(p: string, c: char)
    ensures IsAsciiLower(c) && HasLower(p) ==> Score(p + [c], Defaults).score == Score(p, Defaults).score + 1
    ensures c in DefaultSpecials ==> Score(p + [c], Defaults).score == Score(p, Defaults).score + 3
  {
    if c in DefaultSpecials {
      DefaultSpecialsAreSymbols(c);
      AppendWithoutNewClass(p, c, Defaults);
    } else if IsAsciiLower(c) && HasLower(p) {
      AppendWithoutNewClass(p, c, Defaults);
    }
  }

  /** The empty password never passes a non-negative length gate and scores zero. */
  lemma EmptyPassword(o: Options)
    requires o.minimumLength >= 0
    ensures Score("", o) == ScoreResult(false, 0)
  {
  }

  /** The worked example holds all three character classes. */
  lemma ExampleClasses()
    ensures HasLower("aB3! aB3! aB3!") && HasUpper("aB3! aB3! aB3!") && HasDigit("aB3! aB3! aB3!")
  {
    var p := "aB3! aB3! aB3!";
    assert IsAsciiLower(p[0]) && IsAsciiUpper(p[1]) && IsDigit(p[2]);
  }

  /** One word of the worked example holds exactly one default special, its '!'. */
  lemma ExampleWordSpecials()
    ensures CountIn("aB3!", DefaultSpecials) == 1
  {
    assert 'a' !in DefaultSpecials && 'B' !in DefaultSpecials;
    assert '3' !in DefaultSpecials && '!' in DefaultSpecials;
  }

  /** The worked example holds five default specials: three '!' and two spaces. */
  lemma ExampleSpecials()
    ensures CountIn("aB3! aB3! aB3!", DefaultSpecials) == 5
  {
    var w, sp := "aB3!", " ";
    assert "aB3! aB3! aB3!" == w + sp + w + sp + w;
    ExampleWordSpecials();
    assert CountIn(sp, DefaultSpecials) == 1;
    CountInConcat(w, sp, DefaultSpecials);
    CountInConcat(w + sp, w, DefaultSpecials);
    CountInConcat(w + sp + w, sp, DefaultSpecials);
    CountInConcat(w + sp + w + sp, w, DefaultSpecials);
  }

  /**
   * The worked example scores 6 for its three classes, 10 for its five
   * specials and 14 for its length: 30, and it passes.
   */
  lemma WorkedExample()
    ensures Score("aB3! aB3! aB3!", Defaults) == ScoreResult(true, 30)
  {
    ExampleClasses();
    ExampleSpecials();
  }
}
