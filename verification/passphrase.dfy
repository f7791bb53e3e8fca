/**
 * Passphrase assembly (`_gen_pass` in both copies of passwordgen.py): six
 * words drawn from the word list and joined by single spaces. The random
 * draws of `secrets.choice` are supplied by the caller as six indices.
 */
module Passphrase {
  import opened Text
  import Strength

  const WordsPerPassphrase: nat := 6

  const Separator: string := " "

  /** `secrets.choice` raises IndexError on an empty list; otherwise a passphrase comes out. */
  datatype Generated = EmptyWordList | Phrase(text: string)

  /**
   * What the random oracle may return: exactly six draws, each an index of
   * the word list whenever the list has any words at all.
   */
  predicate ValidDraws(words: seq<string>, draws: seq<nat>)
  {
    && |draws| == WordsPerPassphrase
    && (|words| > 0 ==> forall i :: 0 <= i < |draws| ==> draws[i] < |words|)
  }

  /** The words the draws select, in draw order. */
  function Chosen(words: seq<string>, draws: seq<nat>): (ws: seq<string>)
    requires forall i :: 0 <= i < |draws| ==> draws[i] < |words|
    ensures |ws| == |draws|
    ensures forall i :: 0 <= i < |draws| ==> ws[i] == words[draws[i]] && ws[i] in words
  {
    seq(|draws|, i requires 0 <= i < |draws| => words[draws[i]])
  }

  /**
   * `_gen_pass`: the selected words joined by single spaces, or the
   * IndexError of an empty word list.
   */
  function GenPass(words: seq<string>, draws: seq<nat>): (g: Generated)
    requires ValidDraws(words, draws)
    ensures g.EmptyWordList? <==> |words| == 0
  {
    if |words| == 0 then EmptyWordList else Phrase(Join(Chosen(words, draws), Separator))
  }

  /** A passphrase is the six drawn words, in draw order, with one space between neighbours. */
  lemma SixWords(words: seq<string>, draws: seq<nat>)
    requires ValidDraws(words, draws) && |words| > 0
    ensures GenPass(words, draws).text
         == words[draws[0]] + " " + (words[draws[1]] + " " + (words[draws[2]] + " "
            + (words[draws[3]] + " " + (words[draws[4]] + " " + words[draws[5]]))))
  {
    var ws := Chosen(words, draws);
    assert ws[1..][1..] == ws[2..] && ws[2..][1..] == ws[3..];
    assert ws[3..][1..] == ws[4..] && ws[4..][1..] == ws[5..];
    assert Join(ws[4..], Separator) == ws[4] + " " + ws[5];
    assert Join(ws[3..], Separator) == ws[3] + " " + Join(ws[4..], Separator);
    assert Join(ws[2..], Separator) == ws[2] + " " + Join(ws[3..], Separator);
    assert Join(ws[1..], Separator) == ws[1] + " " + Join(ws[2..], Separator);
    assert Join(ws, Separator) == ws[0] + " " + Join(ws[1..], Separator);
  }

  /** A passphrase is as long as its six words plus five separators. */
  lemma PassphraseLength(words: seq<string>, draws: seq<nat>)
    requires ValidDraws(words, draws) && |words| > 0
    ensures |GenPass(words, draws).text| == TotalLength(Chosen(words, draws)) + 5
  {
    JoinLength(Chosen(words, draws), Separator);
  }

  /**
   * When no word of the list contains a space, splitting a passphrase on
   * spaces gives back the six selected words in draw order.
   */
  lemma PassphraseWords(words: seq<string>, draws: seq<nat>)
    requires ValidDraws(words, draws) && |words| > 0
    requires forall i :: 0 <= i < |words| ==> ' ' !in words[i]
    ensures SplitOn(GenPass(words, draws).text, Separator) == Chosen(words, draws)
    ensures forall i :: 0 <= i < WordsPerPassphrase ==> SplitOn(GenPass(words, draws).text, Separator)[i] == words[draws[i]]
  {
    var ws := Chosen(words, draws);
    SplitJoin(ws, Separator);
  }

  /**
   * The space is a default special character, so the five separators of
   * every passphrase earn five times the per-special points.
   */
  lemma SeparatorBonus(words: seq<string>, draws: seq<nat>)
    requires ValidDraws(words, draws) && |words| > 0
    ensures CountIn(GenPass(words, draws).text, Strength.DefaultSpecials) >= 5
    ensures Strength.Score(GenPass(words, draws).text, Strength.Defaults).score
         >= 5 * Strength.Defaults.pointsPerSpecial + |GenPass(words, draws).text|
  {
    var ws := Chosen(words, draws);
    JoinCountsSeparators(ws, Separator, Strength.DefaultSpecials);
    assert CountIn(Separator, Strength.DefaultSpecials) == 1;
  }

  /**
   * A passphrase of non-empty words passes the default scoring: it is at
   * least 11 characters long and scores at least 21.
   */
  lemma PassphrasePassesDefaults(words: seq<string>, draws: seq<nat>)
    requires ValidDraws(words, draws) && |words| > 0
    requires forall i :: 0 <= i < |words| ==> |words[i]| > 0
    ensures Strength.Score(GenPass(words, draws).text, Strength.Defaults).passing
  {
    var ws := Chosen(words, draws);
    PassphraseLength(words, draws);
    SeparatorBonus(words, draws);
    assert TotalLength(ws) >= 6 by {
      assert ws[1..][1..] == ws[2..] && ws[2..][1..] == ws[3..];
      assert ws[3..][1..] == ws[4..] && ws[4..][1..] == ws[5..] && ws[5..][1..] == [];
      assert TotalLength(ws[5..]) == |ws[5]|;
      assert TotalLength(ws[4..]) == |ws[4]| + TotalLength(ws[5..]);
      assert TotalLength(ws[3..]) == |ws[3]| + TotalLength(ws[4..]);
      assert TotalLength(ws[2..]) == |ws[2]| + TotalLength(ws[3..]);
      assert TotalLength(ws[1..]) == |ws[1]| + TotalLength(ws[2..]);
    }
  }
}
