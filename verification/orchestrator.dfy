/**
 * `create_password` in both copies of passwordgen.py: up to five rounds of
 * generate-then-check, returning the first candidate the breach check
 * calls Safe, stopping at once on Unavailable (the ConnectionError
 * propagates), and failing with "exhausted" (the ValueError of the loop's
 * `else` branch) after five Unsafe verdicts. Generation and checking are
 * an oracle that maps the round number to the candidate and its verdict.
 */
module Orchestrator {
  import opened Breach
  import Passphrase
  import Strength

  const MaxAttempts: nat := 5

  /** What round `k` of the loop produced: `_gen_pass()` and the check of it. */
  datatype Round = Round(candidate: string, verdict: Verdict)

  /**
   * The return value, the ValueError of the `else` branch, the propagated
   * ConnectionError, or the IndexError of drawing from an empty word list.
   */
  datatype Outcome = Created(password: string) | Exhausted | ServiceUnavailable | NoWords

  /** Round `k` is the first within the bound whose verdict is not Unsafe. */
  predicate FirstDecisive(round: nat -> Round, k: nat)
  {
    && k < MaxAttempts
    && round(k).verdict != Unsafe
    && forall j :: 0 <= j < k ==> round(j).verdict == Unsafe
  }

  /**
   * The `for ... else` loop. `used` is how many rounds ran: the loop stops
   * at the first Safe or Unavailable verdict and never runs more than five
   * rounds.
   */
  method CreatePassword(round: nat -> Round) returns (r: Outcome, used: nat)
    ensures 1 <= used <= MaxAttempts
    ensures r.Exhausted? <==> forall j :: 0 <= j < MaxAttempts ==> round(j).verdict == Unsafe
    ensures r.Exhausted? ==> used == MaxAttempts
    ensures !r.Exhausted? ==> FirstDecisive(round, used - 1)
    ensures r.Created? <==> !r.Exhausted? && round(used - 1).verdict == Safe
    ensures r.Created? ==> r.password == round(used - 1).candidate
    ensures r.ServiceUnavailable? <==> !r.Exhausted? && round(used - 1).verdict == Unavailable
  {
    for attempt := 0 to MaxAttempts
      invariant forall j :: 0 <= j < attempt ==> round(j).verdict == Unsafe
    {
      var pwd := round(attempt).candidate;
      match round(attempt).verdict
      case Safe =>
        return Created(pwd), attempt + 1;
      case Unavailable =>
        return ServiceUnavailable, attempt + 1;
      case Unsafe =>
    }
    return Exhausted, MaxAttempts;
  }

  /**
   * Round `k` of the wired-in pipeline: the passphrase drawn by `draws(k)`
   * and its breach verdict from that round's own request, `fetch(k)`.
   */
  function PipelineRound(
    words: seq<string>,
    draws: nat -> seq<nat>,
    digest: string -> string,
    fetch: nat -> string -> Response,
    k: nat): (r: Round)
    requires |words| > 0 && Passphrase.ValidDraws(words, draws(k))
  {
    var p := Passphrase.GenPass(words, draws(k)).text;
    Round(p, Check(digest(p), fetch(k)))
  }

  /**
   * `create_password` with its collaborators wired in, loop for loop: round
   * `k` draws `draws(k)` from the word list (`_gen_pass`), hashes the
   * passphrase with `digest` and checks it through that round's request
   * `fetch(k)`, so a later round may get a different answer for the same
   * range prefix. An empty word list makes the first draw raise, so nothing
   * is checked.
   */
  method CreateFromWords(
    words: seq<string>,
    draws: nat -> seq<nat>,
    digest: string -> string,
    fetch: nat -> string -> Response)
    returns (r: Outcome, used: nat)
    requires forall k: nat :: Passphrase.ValidDraws(words, draws(k))
    ensures 1 <= used <= MaxAttempts
    ensures r.NoWords? <==> |words| == 0
    ensures !r.NoWords? ==> forall j :: 0 <= j < used - 1 ==> PipelineRound(words, draws, digest, fetch, j).verdict == Unsafe
    ensures r.Created? ==>
      && r.password == PipelineRound(words, draws, digest, fetch, used - 1).candidate
      && PipelineRound(words, draws, digest, fetch, used - 1).verdict == Safe
    ensures r.Exhausted? <==>
      |words| > 0
      && forall k :: 0 <= k < MaxAttempts ==> PipelineRound(words, draws, digest, fetch, k).verdict == Unsafe
    ensures r.Exhausted? ==> used == MaxAttempts
    ensures r.ServiceUnavailable? <==>
      |words| > 0 && !r.Exhausted? && PipelineRound(words, draws, digest, fetch, used - 1).verdict == Unavailable
  {
    if |words| == 0 {
      return NoWords, 1;
    }
    for attempt := 0 to MaxAttempts
      invariant forall j :: 0 <= j < attempt ==> PipelineRound(words, draws, digest, fetch, j).verdict == Unsafe
    {
      var pwd := Passphrase.GenPass(words, draws(attempt)).text;
      var verdict := Check(digest(pwd), fetch(attempt));
      assert PipelineRound(words, draws, digest, fetch, attempt).candidate == pwd;
      assert PipelineRound(words, draws, digest, fetch, attempt).verdict == verdict;
      assert verdict == Safe || verdict == Unavailable || verdict == Unsafe;
      if verdict == Safe {
        r, used := Created(pwd), attempt + 1;
        return;
      } else if verdict == Unavailable {
        r, used := ServiceUnavailable, attempt + 1;
        return;
      }
    }
    return Exhausted, MaxAttempts;
  }

  /**
   * When the word list holds no empty word, every candidate the pipeline
   * can hand back passes the default strength scoring (its six-word shape
   * is `Passphrase.SixWords`).
   */
  lemma PipelineCandidatesPass(
    words: seq<string>,
    draws: nat -> seq<nat>,
    digest: string -> string,
    fetch: nat -> string -> Response,
    k: nat)
    requires |words| > 0 && Passphrase.ValidDraws(words, draws(k))
    requires forall i :: 0 <= i < |words| ==> |words[i]| > 0
    ensures Strength.Score(PipelineRound(words, draws, digest, fetch, k).candidate, Strength.Defaults).passing
  {
    Passphrase.PassphrasePassesDefaults(words, draws(k));
  }
}
