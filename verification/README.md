# simple-password-generation, modelled in Dafny

The repository makes memorable passphrases of six dictionary words. It asks
the Have I Been Pwned range service whether the SHA-1 of each passphrase is in
a breach corpus, tries up to five passphrases, and scores password strength with a
few character-class rules. The code comes in two near-identical copies,
`simple_pass/passwordgen.py` and `passwordgen/passwordgen.py`. This model keeps
their deterministic core and shares one definition between the copies:

- `text.dfy` (`Text`): the Python string operations the code relies on.
  These are `sep.join`, `str.split` with a non-empty separator, clamping slices
  `s[:n]` / `s[n:]`, ASCII `upper()`, ASCII character classes, and counting the
  characters that belong to a set. It also proves that splitting undoes joining.
- `strength.dfy` (`Strength`): `scoring`, with its eight keyword options and
  their defaults. The default special set begins with a space and contains one
  backslash. `Score` is a reference formula, and `Scoring` follows the code's
  order of steps.
- `passphrase.dfy` (`Passphrase`): `_gen_pass`. Six caller-supplied draws pick
  words from the list, and the words are joined with single spaces. An empty
  list gives the IndexError that `secrets.choice` raises.
- `breach.dfy` (`Breach`): what `check_havebeenpwned` / `check_pass` do with
  the digest and the HTTP result. The request prefix is `hash[:5]`, still in
  lower case. The body is split on CRLF, each line keeps the text before its
  first `':'`, and the verdict is Unsafe when one of those keys equals
  `hash.upper()[5:]`. A failed connection, a non-ok status or an empty body
  gives Unavailable.
- `orchestrator.dfy` (`Orchestrator`): the `for … else` loop of
  `create_password`. It is modelled over an oracle from round number to
  candidate and verdict, and also with `_gen_pass` and the breach check wired
  in.

Apart from `scoring`, which only `simple_pass` defines, and the name of the
check function, the two copies differ only in transport wrapping. `simple_pass` passes a 0.5 s
timeout and re-raises the `requests` ConnectionError as the built-in
ConnectionError. `passwordgen` does neither, so a transport failure leaves as
the `requests` exception itself. Both end the retry loop at once, and the model
gives both the outcome Unavailable / `ServiceUnavailable`.

Two details of the code that the model keeps as written:

- The request carries the lower-case `hash[:5]`. The digest is upper-cased
  only for the local comparison with `hash.upper()[5:]`
  (passwordgen/passwordgen.py:24-28).
- The default special set begins with a space (simple_pass/passwordgen.py:61).
  So `"aB3! aB3! aB3!"` has five specials, the three `!` and two spaces, and
  scores 30 (`Strength.WorkedExample`).

## Model

| member | source | states |
|---|---|---|
| Strength.Scoring | simple_pass/passwordgen.py:52-85 | The one-pass computation returns exactly the reference score: a one-time bonus for each of lower case, upper case and digit present, `points_per_special` per special occurrence, and `points_per_character` per character. `passing` holds iff the length is strictly above `minimum_length` and the score strictly above `minimum_score`. A failed length gate forces `passing` false whatever the score, and the empty password scores 0. |
| Strength.ClassesAfterAppend | simple_pass/passwordgen.py:71-76 | After appending a character, a password has a class (lower, upper, digit) iff it had it before or the new character is in that class. |
| Strength.AppendWithoutNewClass | simple_pass/passwordgen.py:71-81 | Appending a character whose class is already present, or which is in no class, raises the score by exactly `points_per_character`, plus `points_per_special` if it is special. Class bonuses are one-time; special points are per occurrence. |
| Strength.DefaultAppendIncrements | simple_pass/passwordgen.py:57-81 | Under the defaults, another lower-case letter after an existing one adds exactly 1, and any default special character adds exactly 3. |
| Strength.DefaultSpecialsAreSymbols | simple_pass/passwordgen.py:61 | No character of the default special set is an ASCII letter or digit, so specials never also earn a class bonus. |
| Strength.EmptyPassword | simple_pass/passwordgen.py:69-85 | The empty password gives `(False, 0)` whenever `minimum_length` is non-negative. |
| Strength.WorkedExample | simple_pass/passwordgen.py:52-85 | `"aB3! aB3! aB3!"` under the defaults scores 30 (6 + 10 + 14) and passes. |
| Passphrase.GenPass | simple_pass/passwordgen.py:9-14 | Drawing from an empty word list is the IndexError, and only an empty list gives it. |
| Passphrase.SixWords | simple_pass/passwordgen.py:14 | A passphrase is exactly the six drawn words, in draw order, with one `" "` between neighbours. |
| Passphrase.PassphraseLength | simple_pass/passwordgen.py:14 | A passphrase's length is the sum of its six word lengths plus 5. |
| Passphrase.PassphraseWords | passwordgen/passwordgen.py:8-14 | When no word contains a space, splitting the passphrase on `" "` gives back exactly the six selected list elements, in draw order. |
| Passphrase.SeparatorBonus | simple_pass/passwordgen.py:61-80 | Space is a default special, so every passphrase has at least 5 default specials. Its default score is at least `5·points_per_special` plus its length. |
| Passphrase.PassphrasePassesDefaults | simple_pass/passwordgen.py:70-83 | A passphrase of non-empty words passes the default scoring (length ≥ 11 > 8, score ≥ 21 > 20). |
| Breach.Key | passwordgen/passwordgen.py:27 | `line.split(":")[0]` is the text before the first `':'`. It is a prefix of the line with no `':'` in it. It is either the whole line or is followed in the line by a `':'`. |
| Breach.KeyIs | passwordgen/passwordgen.py:27 | For any `k` without `':'`, a line's key is `k` iff the line is `k` itself or starts with `k + ":"`. |
| Breach.Keys | passwordgen/passwordgen.py:27 | There is one key per CRLF-separated line of the body. Each key is its line's text before the first `':'`, or the whole line. |
| Breach.KeysMatch | passwordgen/passwordgen.py:27-28 | A string without `':'` is among the keys iff some CRLF-separated line is that string or starts with it followed by `':'`. |
| Breach.Check | simple_pass/passwordgen.py:17-36 | `check_havebeenpwned` / `check_pass`. The verdict is Unavailable iff the fetch of `hash[:5]` failed, was not ok, or had an empty body. An Unsafe verdict means some CRLF-separated line of the body begins with `hash.upper()[5:]`. |
| Breach.CheckCases | passwordgen/passwordgen.py:17-31 | For a hex digest, the verdict is in terms of the body's lines. It is Unavailable iff the fetch failed, was not ok, or had an empty body. It is Unsafe iff the body is ok and non-empty and some CRLF-separated line is `hash.upper()[5:]` or starts with it followed by `':'`. Otherwise it is Safe. |
| Breach.DigestSplit | passwordgen/passwordgen.py:24-28 | For a 40-digit lower-case hex digest, the request prefix is 5 lower-case hex digits and the compared suffix is 35 upper-case hex digits. Together they make up the upper-cased digest. |
| Breach.OnlyPrefixMatters | passwordgen/passwordgen.py:24-25 | The verdict depends on the HTTP round trip only through the response to `hash[:5]`. |
| Breach.LowerCaseKeysNeverMatch | passwordgen/passwordgen.py:27-28 | The comparison is case-sensitive against the upper-cased suffix, so a body whose every key contains a lower-case letter never gives Unsafe. |
| Breach.KeysOfBody | simple_pass/passwordgen.py:31-32 | Parsing a body of well-formed `SUFFIX:COUNT` lines joined by CRLF recovers exactly the suffixes in order, and such a body is non-empty. |
| Breach.CheckAgainstCorpus | passwordgen/passwordgen.py:17-31 | Against an ok body built from well-formed records, the verdict is never Unavailable. It is Unsafe iff the digest's suffix is one of the records' suffixes. |
| Orchestrator.CreatePassword | simple_pass/passwordgen.py:39-49 | Between 1 and 5 rounds run. The result is Exhausted iff all five rounds are Unsafe, and then exactly 5 rounds ran. Otherwise the last round run is the first non-Unsafe one: a Safe round returns its own candidate, and an Unavailable round ends the loop with Unavailable and no further rounds. |
| Orchestrator.CreateFromWords | passwordgen/passwordgen.py:34-44 | The same loop with `_gen_pass` and the breach check wired in. It runs between 1 and 5 rounds. An empty word list is the only way to get the IndexError. Every round before the last one run checked Unsafe. A returned password is the last round's passphrase, and that passphrase checked Safe. The result is Exhausted iff the list has words and all five passphrases check Unsafe, and then all five rounds ran. It is Unavailable iff the last round's check was Unavailable. |
| Orchestrator.PipelineCandidatesPass | simple_pass/passwordgen.py:39-85 | Every candidate the wired-in loop can return passes the default strength scoring when the word list holds no empty word. |

## Left out

- Loading `words.txt` is file I/O and is not modelled. This covers path resolution next to the module, `open`, and the per-line `strip`. The word list is a given sequence of strings.
- `secrets.choice` randomness is replaced by caller-supplied draws: six indices per round, each within the list. Uniformity and unpredictability cannot be stated in this model.
- SHA-1 (FIPS 180-4) is not modelled. The digest is an input, or a function argument `digest` in `Orchestrator.CreateFromWords`. `Breach.IsHexDigest` states the shape `hexdigest()` guarantees, 40 lower-case hex digits, and is assumed only where a lemma needs it.
- `requests.get` is network I/O and is a function argument `fetch`. In `Orchestrator.CreateFromWords` it is one function per round, `fetch(k)`, because every round makes a fresh request. Its result is a failed connection or an `(ok, text)` pair. The 0.5 s timeout and the choice of which `requests` exceptions `simple_pass` re-wraps are not modelled: every transport failure is one `ConnectionFailed`. In particular, a read timeout in `simple_pass` escapes unwrapped in Python but is Unavailable here, like any other transport failure.
- `Breach.Check`: its own contract states only that an Unsafe verdict has a line beginning with the suffix. The exact condition, a line that is the suffix or starts with it followed by `':'`, is `Breach.CheckCases`. That lemma assumes a hex digest, because a suffix containing `':'` could never equal a key.
- `Breach.CheckCases`: the Python exception classes are not distinguished. `simple_pass` raises the built-in ConnectionError and `passwordgen` lets the `requests` exception escape; both are Unavailable.
- `Text.Upper` upper-cases ASCII letters only, where Python's `str.upper()` also maps non-ASCII letters. Digests are hex, so only ASCII reaches it.
- `Orchestrator.CreateFromWords` does not restate the strength property in its own contract. That property is stated per candidate by `Orchestrator.PipelineCandidatesPass`.
- The `__main__` blocks that print a password are process plumbing and are not modelled.
