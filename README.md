# Vanity TRON address filter, modelled in Dafny

`tron_generate.py` generates random TRON wallets in several worker processes
and stops when one address passes a cosmetic filter. This project models that
filter and one worker's loop:

- **Configuration.** The script's module-level `config` dictionary becomes the
  immutable datatype `VanityConfig.Config`. Every operation that reads it gets
  it as a parameter. `start_with`/`end_with` are `Option<string>`. Python
  truthiness is kept: `None` and `""` both mean "not configured".
- **Substitution table.** `Leet.LeetMap` is `LEET_MAP` entry for entry.
- **Keyword inclusion.** The script builds a regular expression, one `[...]`
  class per keyword character. Here `Inclusion.CharClass` gives that class as a
  set of characters and `Inclusion.Pattern` is the sequence of those sets.
  `Inclusion.FirstWindow` (leftmost matching window) stands in for
  `re.search`.
- **Palindromic runs.** `Palindrome.CountPairs` and `Palindrome.ScanCentres`
  are imperative, with the script's own loops and early returns. Each is
  proved equal to a specification function: `Pairs` and `HasPalindrome`.
  `Palindrome.HasPalindromeOfDepth` folds the case as the script does, then
  runs `ScanCentres`.
- **Combined filter.** `Filter.FindPossibleAddresses` sets the four
  `None`/`True`/`False` flags one at a time and then applies
  `False not in [...]`. It is proved equal to `Filter.Matches`, which ANDs the
  configured criteria only.
- **Worker loop.** `Worker.Iterate` runs `iterate` over a given sequence of
  candidate wallets. It counts attempts, records the attempt numbers that
  `log_progress` would print, and returns the first wallet that passes.

Quirks of the code that the model keeps on purpose:

- `register_accuracy = True` makes keyword inclusion case-INsensitive
  (`char_class` accepts both cases). It makes the palindrome test
  case-SENSITIVE, because the address is lower-cased only when the flag is
  off.
- The `case_sensitive` argument of `has_palindrome_of_depth` is accepted and
  ignored.
- With `use_leet` on, a table entry wins over the case setting.
- Every table entry lists its letter in both cases, so substitution is always
  case-insensitive for those letters.

Three further facts about the code:

- One flag, `register_accuracy`, is read by both the inclusion test and the
  palindrome test. There is no separate case flag for symmetry.
- `register_accuracy = True` makes keyword inclusion case-insensitive,
  whatever its name suggests.
- No centre ever has more than `len // 2` mirrored pairs, so any depth
  above that fails (`DepthTooLarge`).

## Model

| member | source | states |
|---|---|---|
| `VanityConfig.DefaultConfig` | tron_generate.py:19-32 | The shipped settings. The process count is `max(1, cpu_count - 1)`. The keyword "BadBoy" needs no regex escaping. |
| `Ascii.Lower` | tron_generate.py:60 | `str.lower` on one ASCII character: an upper-case letter becomes the lower-case letter at the same position; anything else is unchanged. |
| `Ascii.Upper` | tron_generate.py:127 | `str.upper` on one ASCII character: a lower-case letter becomes the upper-case letter at the same position; anything else is unchanged. |
| `Ascii.LowerString` | tron_generate.py:60 | `s.lower()`: same length, each character lowered, no upper-case letter left. |
| `Leet.LeetMap` | tron_generate.py:34-55 | The table itself: the twenty lower-case letters, each mapped to the characters accepted in its place, entry for entry. |
| `Leet.EntriesListBothCases` | tron_generate.py:34-55 | Every key is a lower-case letter. Its entry starts with that letter, then the letter in upper case. |
| `Leet.EntriesAreAlnum` | tron_generate.py:34-55 | Every entry holds only letters and digits, so `[entry]` is a plain class. |
| `Leet.TwentyLetters` | tron_generate.py:34-55 | The table's keys are exactly the twenty listed letters. |
| `Palindrome.Pairs` | tron_generate.py:63-69 | The count `p` of mirrored pairs around `(l, r)`. The first `p` pairs are equal and read only indices in `[0, n)`. `p <= min(l+1, n-r)`. The next pair is out of range or differs. |
| `Palindrome.CountPairs` | tron_generate.py:63-69 | The `while` loop returns exactly `Pairs(s, l, r)`. |
| `Palindrome.HasPalindrome` | tron_generate.py:72-81 | Definition: some odd centre or some even centre reaches `depth` pairs. It is characterised by `PalindromicRun`. |
| `Palindrome.SymmetryInput` | tron_generate.py:59-60 | The scanned string has the address's length and differs from it only in letter case. With `register_accuracy` off it holds no upper-case letter; with it on it is the address unchanged, so the test is case-sensitive. |
| `Palindrome.HasPalindromeOfDepth` | tron_generate.py:58-81 | Returns true iff some odd or even centre of the scanned string reaches `depth` pairs. The result never depends on `case_sensitive`. |
| `Palindrome.ScanCentres` | tron_generate.py:72-81 | The odd-centre loop, then the even-centre loop, each with its early return, give exactly `HasPalindrome` of the scanned string. |
| `Palindrome.PalindromicRun` | tron_generate.py:58-81 | For `depth >= 1`, the test passes iff the string has a palindromic substring of length at least `2 * depth`. |
| `Palindrome.PairsAtLeast` | tron_generate.py:65-68 | `m` mirrored pairs that are in range and equal make the loop count at least `m`. |
| `Palindrome.CentreBound` | tron_generate.py:72-79 | No odd or even centre has more than `len // 2` pairs. |
| `Palindrome.DepthTooLarge` | tron_generate.py:61-80 | For `depth >= 1` and `depth > len // 2` the test is false. |
| `Palindrome.MonotoneInDepth` | tron_generate.py:72-81 | Passing at depth `d` implies passing at every `d' <= d`. |
| `Palindrome.DepthZero` | tron_generate.py:72-74 | At depth 0 or below, the test passes iff the string is non-empty (centre 0 gives `0 >= 0`). |
| `Palindrome.DepthOne` | tron_generate.py:63-79 | At depth 1, the test passes iff some `s[i] == s[i+1]` or `s[i] == s[i+2]`. |
| `Palindrome.CaseFolding` | tron_generate.py:59-60 | With `register_accuracy` off, two addresses with the same lower-cased form get the same result. |
| `Inclusion.CharClass` | tron_generate.py:122-128 | The class always holds the character itself. With substitution on and a table entry present, it is exactly that entry. Otherwise `register_accuracy` gives the case-equivalence class, and with both off it is `{ch}`. |
| `Inclusion.Pattern` | tron_generate.py:132 | One class per keyword character, each holding that character. |
| `Inclusion.FirstWindow` | tron_generate.py:133-134 | The search result is a matching window with no matching window before it. None means no window matches. |
| `Inclusion.Included` | tron_generate.py:131-138 | `included` is True iff some contiguous window of the address matches the class sequence. |
| `Inclusion.EmptyKeywordIncluded` | tron_generate.py:132-136 | An empty keyword gives an empty pattern, which every address includes. |
| `Inclusion.LiteralKeywordIncluded` | tron_generate.py:122-138 | An address holding the keyword verbatim passes inclusion in all four mode combinations. |
| `Inclusion.PlainSubstring` | tron_generate.py:122-138 | With `use_leet` and `register_accuracy` off, inclusion is exactly case-sensitive substring containment. |
| `Inclusion.PlainWindow` | tron_generate.py:128 | In plain mode, a matching window at `i` is exactly a verbatim occurrence at `i`. |
| `Inclusion.FoldedWindow` | tron_generate.py:126-127 | With `register_accuracy` on and no substitution, a matching window at `i` is exactly an occurrence up to case at `i`. |
| `Inclusion.CaseInsensitiveSubstring` | tron_generate.py:122-138 | With `register_accuracy` on and no substitution, inclusion is exactly case-insensitive substring containment. |
| `Inclusion.LeetOverridesCase` | tron_generate.py:123-127 | With substitution on, a character whose lower case has an entry gets the same class whatever `register_accuracy` says. |
| `Inclusion.LeetIgnoresCaseSetting` | tron_generate.py:123-138 | With substitution on and every keyword letter in the table, flipping `register_accuracy` does not change inclusion. |
| `Filter.NoFailure` | tron_generate.py:165 | `False not in flags` holds iff no flag is `False`; `None` counts as passing. |
| `Filter.StartsWith` | tron_generate.py:153 | `str.startswith`: the prefix fits and agrees character by character with the start. |
| `Filter.EndsWith` | tron_generate.py:160 | `str.endswith`: the suffix fits and agrees character by character with the end. |
| `VanityConfig.Configured` | tron_generate.py:151-163 | Python truthiness of `start_with` and `end_with`: a value is configured iff it is present and non-empty. |
| `Filter.Symmetric` | tron_generate.py:141-149 | The `is_simetric` criterion: `HasPalindrome` of the scanned address at depth `simetric_deep`, the value `HasPalindromeOfDepth` returns. |
| `Filter.Matches` | tron_generate.py:130-165 | The AND of the configured criteria equals `False not in [...]` over the four flags, an unconfigured one being `None`. |
| `Filter.FindPossibleAddresses` | tron_generate.py:121-165 | The step-by-step flags and `False not in [...]` give exactly the AND of the configured criteria. |
| `Filter.SameCriteria` | tron_generate.py:122-149 | Inclusion reads only the keyword, `use_leet` and `register_accuracy`. The palindrome test reads only `register_accuracy` and the depth. |
| `Filter.NothingConfiguredMatchesAll` | tron_generate.py:130-165 | With inclusion and symmetry off and no prefix or suffix, every address matches. |
| `Filter.AffixesAreExact` | tron_generate.py:151-163 | A match with a non-empty prefix or suffix has that exact text, case-sensitively, at the start or end. |
| `Filter.EmptyPrefixIsUnset` | tron_generate.py:151-156 | An empty prefix gives the same verdict as `None`, whatever the suffix is. |
| `Filter.EmptySuffixIsUnset` | tron_generate.py:158-163 | An empty suffix gives the same verdict as `None`, whatever the prefix is. |
| `Filter.FewerCriteriaMatchMore` | tron_generate.py:130-165 | Turning off any one criterion keeps every match a match. |
| `Filter.AnyFailureRejects` | tron_generate.py:165 | One configured criterion that fails rejects the address. |
| `Worker.PyMod` | tron_generate.py:115 | Python's `%`: the remainder takes the divisor's sign, and `a - r` is a multiple of the divisor. It is zero exactly when Dafny's Euclidean remainder is zero. |
| `Worker.ShouldLog` | tron_generate.py:113-115 | A progress line is due iff `show_log` is on and the attempt count is divisible by `log_count`. |
| `Worker.ProgressEvents` | tron_generate.py:113-118 | Attempt `e` among attempts `1..n` is reported iff `show_log` is on and `e % log_count == 0`. Reports come in increasing order. |
| `Worker.ProgressCount` | tron_generate.py:85-88 | With `log_count > 0`, `n` attempts produce `n // log_count` reports if `show_log` is on, and none otherwise. |
| `Worker.Iterate` | tron_generate.py:84-110 | The counter equals the number of candidates taken. The reports are those of attempts `1..counter`. The result is the first candidate that passes, or none when the supply ends; every earlier candidate fails. |
| `Scenarios.ExactKeyword` | tron_generate.py:122-138 | Case-sensitive "Bad" is found in "TBadExample123". |
| `Scenarios.WrongCaseKeyword` | tron_generate.py:122-138 | Case-sensitive "Bad" is not found in "TbadExample123". |
| `Scenarios.LeetKeyword` | tron_generate.py:123-125 | With substitution, "8Ad" spells "Bad". |
| `Scenarios.DefaultKeyword` | tron_generate.py:19-55 | The shipped configuration accepts "BadBoy" written as "B4dB0y". |
| `Scenarios.SymmetricDepthTwo` | tron_generate.py:58-81 | "TabXbaY" reaches depth 2 around "X"; "TabcdeY" does not. |
| `Scenarios.SymmetryCaseQuirk` | tron_generate.py:59-60 | "aA" is no palindrome when `register_accuracy` is on, and is one when it is off. |
| `Scenarios.InclusionCaseQuirk` | tron_generate.py:126-127 | With `register_accuracy` on, "bAD" includes "Bad". |
| `Scenarios.PrefixAndSuffix` | tron_generate.py:151-163 | Prefix "T1" with suffix "9Z" accepts "T1middle9Z" and rejects "T2middle9Z". |

## Left out

- Wallet generation is not modelled. This covers the BIP-39 mnemonic and seed, BIP-44 derivation on m/44'/195'/0'/0/0, Base58Check address encoding and hex key export (tron_generate.py:89-107). They are calls into a cryptographic library; `Worker.Iterate` takes the generated wallets as a sequence instead.
- `main` is not modelled: its process pool, shared `Manager().Event()`, `as_completed` and `stop_on_found` handling (tron_generate.py:168-194). Its whole content is concurrency between processes.
- Worker.Iterate: the stop event check of `while not stop_event.is_set()` (tron_generate.py:86) is dropped. Running out of candidates stands in for the loop being stopped, so a wallet sequence of any length is allowed and nothing else ends the loop early.
- Printed text and `datetime.now()` (tron_generate.py:116-118, 185-191) are not modelled. `Worker.Iterate` reports progress as the attempt numbers that would be printed; `processId` appears only in that text, so the model does not use it.
- `multiprocessing.cpu_count()` (tron_generate.py:20) depends on the machine; `DefaultConfig` takes the core count as a parameter.
- General regular-expression meaning is not modelled. A keyword character such as `]`, `^`, `\` or `-` would change the pattern (tron_generate.py:125-128). `KeywordWellFormed` therefore requires the keyword to hold ASCII letters and digits only, whenever inclusion is on.
- Case mapping is ASCII-only (`Ascii.Lower`, `Ascii.Upper`). Python also maps non-ASCII letters. TRON addresses and well-formed keywords are ASCII.
- `log_count = 0` with `show_log` on raises ZeroDivisionError (tron_generate.py:115). `ShouldLog` requires `log_count != 0` whenever `show_log` is on. With `show_log` off, Python's `and` never divides, so any value is allowed.
- `str(config["keyword_included"])` (tron_generate.py:132) is not modelled for non-string keywords; the keyword is a string.
- `Palindrome.Pairs` and `Palindrome.CountPairs` require `l < r`. Both call sites (tron_generate.py:73, 78) meet this, so a negative `r` never reaches Python's from-the-end indexing.
