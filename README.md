# Password engine model

This project models the password engine of a browser-side password generator, `src/utils/passwordGenerator.ts`.

- **Policy.** The character pool is built from a configuration:
  - enabled alphabets appended in the fixed order upper, lower, digits, symbols;
  - ambiguous characters `O0l1I|` optionally filtered out.
- **Acceptance predicate.** It requires:
  - every enabled class present;
  - per-class minimum counts met;
  - no keyboard pattern (`qwerty`, `asdfgh`, `zxcvbn`, `123456`, `abcdef` or their reverses, compared in lower case);
  - optionally, no run of more than `maxRepeats` identical characters.
- **Rejection-sampling generator.** It fails on an empty pool. Otherwise it makes up to 1000 attempts, each drawing `length` pool indices as `draw % |pool|` from 32-bit random draws, and returns the first candidate the predicate accepts.
- **Strength classifier.** Entropy maps to five tiers, cut at 28, 36, 60 and 128.
- **Breach check.** This is the k-anonymity range query of the Pwned Passwords service:
  - the SHA-1 digest is rendered as upper-case hex;
  - the hex is split into a 5-character prefix and a 35-character suffix;
  - only the prefix is sent;
  - the `SUFFIX:COUNT` lines of the answer are scanned for the suffix.

Modules:

| module | file | contents |
|---|---|---|
| `Wrappers` | `wrappers.dfy` | `Option`, `Result` |
| `Text` | `text.dfy` | ASCII case mapping, reversal, substring search, `split`/`join` on one character |
| `Policy` | `policy.dfy` | `Config`, the alphabets and `KEYBOARD_PATTERNS`, character classes, the ambiguous-character filter, the pool (`GetCharPool`) |
| `Requirements` | `requirements.dfy` | class counts, the keyboard-pattern test (the patterns are constants of `Policy`), the repeat detector (`HasConsecutiveRepeats`), `MeetsRequirements` |
| `Generator` | `generator.dfy` | `SecureRandomInt`, the rejection sampler (`GeneratePassword`) and its specification `Generate` |
| `Strength` | `strength.dfy` | `GetPasswordStrength`, `CalculateEntropy` |
| `Breach` | `breach.dfy` | hex rendering, prefix/suffix split, `parseInt`, the line scan, `CheckHibp` |

The two sources of nondeterminism are modelled as oracles:

- **Randomness.** `crypto.getRandomValues` becomes a function `rand: nat -> uint32`. The k-th draw of a run of `generatePassword` is `rand(k)`. Draws are consumed in order, so attempt `b` uses draws `b * length` up to `b * length + length - 1`.
- **Network.** `fetch` becomes a function `fetch: string -> Response`. It is applied to the request URL, and the response is either a transport failure or an `(ok, body)` pair.

The SHA-1 digest bytes are an input.

The imperative operations are Dafny methods, each proved equal to a specification function:

- `GetCharPool`, with its `+=` steps;
- `HasConsecutiveRepeats`, with nested loops and an early return;
- `GeneratePassword` and `DrawCandidate`, with the attempt loop and the inner draw loop;
- `CheckHibp`, with the line scan and an early return.

All properties are proved about those specification functions.

Optional numeric fields of the configuration are `nat`, with `0` standing for "absent". JavaScript treats `undefined` and `0` the same way in `if (config.minUppercase)` and `config.avoidRepeats && config.maxRepeats`.

### Behaviour of the code worth knowing

The model follows the code in each case:

- `SYMBOLS` has 13 characters (`!@#$%^&*_-+=?`). With every class enabled the pool therefore holds 26 + 26 + 10 + 13 = 75 characters. With `avoidAmbiguous` it holds 70, because `O`, `I`, `l`, `0` and `1` are removed; `|` is not in any alphabet.
- A malformed response line is not an error. `parseInt` of a missing or non-numeric count yields `NaN`, and the result is still `{breached: true, count: NaN}`. The model has `ParsedInt.NaN` for that.
- `maxRepeats: 0` disables the repeat check rather than forbidding all repeats.
- Every failure inside `checkHIBP` is caught and rethrown as the single error "Failed to check password against breach database": a rejected `crypto.subtle.digest`, a non-ok status, a network failure or a body read failure. The model has one error value, `BreachCheckFailed`.

## Model

| member | source | states |
|---|---|---|
| Policy.InClass | src/utils/passwordGenerator.ts:70-73 | (definition) the four class tests `[A-Z]`, `[a-z]`, `[0-9]` and `[!@#$%^&*_\-+=?]` as code-range and membership tests |
| Policy.RemoveAmbiguous | src/utils/passwordGenerator.ts:38 | (definition) the `split('').filter(..).join('')` step: the string with every character of `AMBIGUOUS` dropped, order kept |
| Policy.CharPool | src/utils/passwordGenerator.ts:30-42 | (definition) the enabled alphabets concatenated in the order upper, lower, digits, symbols, then filtered when `avoidAmbiguous` is set; its properties are the `CharPool*` lemmas |
| Policy.AlphabetMatchesClass | src/utils/passwordGenerator.ts:22-25 | a character is in a class's alphabet exactly when it matches that class's regular expression (`[A-Z]`, `[a-z]`, `[0-9]`, the symbol class) |
| Policy.UppercaseConsecutive | src/utils/passwordGenerator.ts:22 | `UPPERCASE` is the 26 consecutive codes from `A` |
| Policy.LowercaseConsecutive | src/utils/passwordGenerator.ts:23 | `LOWERCASE` is the 26 consecutive codes from `a` |
| Policy.NumbersConsecutive | src/utils/passwordGenerator.ts:24 | `NUMBERS` is the 10 consecutive codes from `0` |
| Policy.ConsecutiveMembers | src/utils/passwordGenerator.ts:22-24 | a run of consecutive codes holds exactly the characters of its code range, each once |
| Policy.ClassesDisjoint | src/utils/passwordGenerator.ts:70-73 | no character matches two of the four class expressions |
| Policy.AmbiguousMatches | src/utils/passwordGenerator.ts:26 | membership in `AMBIGUOUS` is the ambiguity predicate used by the filter |
| Policy.RemoveAmbiguousMembers | src/utils/passwordGenerator.ts:38 | the filtered string holds exactly the non-ambiguous characters of its input, and is no longer |
| Policy.RemoveAmbiguousConcat | src/utils/passwordGenerator.ts:38 | filtering distributes over concatenation, so the relative order of the kept characters is preserved |
| Policy.RemoveAmbiguousKeeps | src/utils/passwordGenerator.ts:38 | a string without ambiguous characters passes the filter unchanged |
| Policy.RemoveAmbiguousDistinct | src/utils/passwordGenerator.ts:38 | filtering keeps a string free of duplicates |
| Policy.GetCharPool | src/utils/passwordGenerator.ts:30-42 | the accumulating method builds exactly the specified pool `CharPool` |
| Policy.SelectedMembers | src/utils/passwordGenerator.ts:32-35 | what one `if (config.useX) pool += X` step appends holds exactly the characters of class X when it is enabled, and nothing otherwise |
| Policy.UnfilteredMembers | src/utils/passwordGenerator.ts:31-35 | before filtering, the pool holds exactly the characters of the enabled classes |
| Policy.CharPoolMembers | src/utils/passwordGenerator.ts:30-42 | a character is in the pool iff it belongs to an enabled class and is not ambiguous when `avoidAmbiguous` is set |
| Policy.CharPoolOrder | src/utils/passwordGenerator.ts:32-38 | the pool is the concatenation of the (filtered) enabled alphabets in the order upper, lower, digits, symbols |
| Policy.CharPoolEmpty | src/utils/passwordGenerator.ts:30-42 | the pool is empty iff no class is enabled |
| Policy.CharPoolDistinct | src/utils/passwordGenerator.ts:30-42 | no character occurs twice in the pool |
| Policy.PoolPartClass | src/utils/passwordGenerator.ts:32-38 | each class's contribution to the pool is duplicate-free and lies in that class |
| Policy.AlphabetDistinct | src/utils/passwordGenerator.ts:22-25 | each alphabet is duplicate-free |
| Policy.DistinctConcat | src/utils/passwordGenerator.ts:32-35 | concatenating duplicate-free strings with no common character is duplicate-free |
| Text.ToLower | src/utils/passwordGenerator.ts:51 | (definition) `toLowerCase` character by character (ASCII); its properties are `Text.ToLowerIdempotent`, `Text.ToLowerToUpper`, `Text.ToLowerReverse`, `Text.ContainsToLower` and `Requirements.KeyboardPatternIgnoresCase` |
| Text.ToUpper | src/utils/passwordGenerator.ts:155 | (definition) `toUpperCase` character by character (ASCII); its properties are `Text.ToUpperConcat` and `Breach.DigestHexUpper` |
| Text.Reverse | src/utils/passwordGenerator.ts:53 | (definition) `split('').reverse().join('')`; its properties are `Text.ReverseReverse`, `Text.OccursAtReverse` and `Text.ContainsReverse` |
| Text.Contains | src/utils/passwordGenerator.ts:52-53 | (definition) `includes`: the pattern occurs at some position of the string |
| Text.ToLowerIdempotent | src/utils/passwordGenerator.ts:51 | lower-casing twice is lower-casing once |
| Text.ToLowerReverse | src/utils/passwordGenerator.ts:51-53 | lower-casing commutes with reversal |
| Text.ToLowerToUpper | src/utils/passwordGenerator.ts:51 | lower-casing forgets a previous upper-casing |
| Text.ToUpperConcat | src/utils/passwordGenerator.ts:155 | upper-casing distributes over concatenation |
| Text.ContainsToLower | src/utils/passwordGenerator.ts:51-53 | an occurrence survives lower-casing of both strings |
| Text.ReverseReverse | src/utils/passwordGenerator.ts:53 | reversal is an involution |
| Text.OccursAtReverse | src/utils/passwordGenerator.ts:53 | an occurrence at `i` is an occurrence of the reversed pattern at the mirrored position in the reversed string |
| Text.ContainsReverse | src/utils/passwordGenerator.ts:53 | `s` contains `p` iff reversed `s` contains reversed `p` |
| Text.ContainsTransitive | src/utils/passwordGenerator.ts:52-53 | a substring of a substring is a substring |
| Text.Split | src/utils/passwordGenerator.ts:170 | `split` on one character yields at least one piece and no piece holds the separator |
| Text.JoinSplit | src/utils/passwordGenerator.ts:170 | joining the pieces of a split with the separator gives back the string |
| Text.SplitJoin | src/utils/passwordGenerator.ts:170 | splitting a join of separator-free pieces gives back the pieces |
| Text.SplitPiece | src/utils/passwordGenerator.ts:173 | a string without the separator splits into itself |
| Text.SplitPieceThen | src/utils/passwordGenerator.ts:170 | splitting `p + d + t` gives `p` followed by the pieces of `t` |
| Requirements.Present | src/utils/passwordGenerator.ts:70-73 | (definition) `/[class]/.test`: some character of the password is in the class |
| Requirements.CountClass | src/utils/passwordGenerator.ts:81-93 | (definition) `(match(/[class]/g) || []).length`: the number of characters of the class |
| Requirements.HasKeyboardPattern | src/utils/passwordGenerator.ts:50-55 | (definition) the lower-cased password contains some keyboard pattern or its reverse; its properties are the `KeyboardPattern*` lemmas |
| Requirements.MeetsRequirements | src/utils/passwordGenerator.ts:69-104 | (definition) the guard ladder of `meetsRequirements`, in its order; `MeetsRequirementsIff` states what it accepts |
| Requirements.PresentIffCounted | src/utils/passwordGenerator.ts:70-95 | the presence test (`test`) succeeds iff the count (`match(..).length`) is positive |
| Requirements.ClassCountsBound | src/utils/passwordGenerator.ts:81-93 | the four class counts together do not exceed the password length |
| Requirements.KeyboardPatternIgnoresCase | src/utils/passwordGenerator.ts:50-55 | the pattern test gives the same answer for the password, its lower-case and its upper-case form |
| Requirements.KeyboardPatternReversed | src/utils/passwordGenerator.ts:50-55 | the pattern test gives the same answer for the password and its reversal |
| Requirements.KeyboardPatternExtends | src/utils/passwordGenerator.ts:50-55 | a password that contains a patterned substring is patterned |
| Requirements.RunLongerThanAntitone | src/utils/passwordGenerator.ts:57-67 | a run longer than `m2` is longer than every `m1 <= m2` |
| Requirements.HasConsecutiveRepeats | src/utils/passwordGenerator.ts:57-67 | the nested loops return true iff some run of identical characters is longer than `maxRepeats` (longer than 1 for `maxRepeats = 0`); the bound `i < length - maxRepeats` misses no run |
| Requirements.MeetsRequirementsIff | src/utils/passwordGenerator.ts:69-104 | accepted iff every enabled class is present, every nonzero minimum is met, no keyboard pattern occurs, and no run exceeds `maxRepeats` when `avoidRepeats` is set with nonzero `maxRepeats` |
| Requirements.RepeatLimitRelaxed | src/utils/passwordGenerator.ts:99-101 | raising a nonzero `maxRepeats` never rejects a password the lower limit accepted |
| Requirements.AcceptedCounts | src/utils/passwordGenerator.ts:75-95 | an accepted password has each enabled class at least once and each class at least its minimum |
| Requirements.UnsatisfiableMinimums | src/utils/passwordGenerator.ts:80-95 | minimums summing to more than the length reject every password |
| Requirements.KeyboardPatternRejects | src/utils/passwordGenerator.ts:97 | a password whose lower-case form holds a keyboard pattern or its reverse is rejected under every configuration |
| Requirements.QwertyRejected | src/utils/passwordGenerator.ts:97 | the one password `xQwErTy9`, which holds a mixed-case `qwerty`, is rejected under every configuration |
| Generator.SecureRandomInt | src/utils/passwordGenerator.ts:44-48 | the index drawn is below `max` and is the draw itself when the draw is below `max` |
| Generator.Candidate | src/utils/passwordGenerator.ts:116-120 | (definition) the candidate of `length` pool characters, character `i` indexed by draw `start + i` |
| Generator.FirstAccepted | src/utils/passwordGenerator.ts:115-129 | (definition) the first accepted candidate of attempts `attempt` to 999, or `AttemptsExhausted`; its properties are the `FirstAccepted*` lemmas |
| Generator.Generate | src/utils/passwordGenerator.ts:106-130 | (definition) `EmptyPool` for an empty pool, otherwise the first accepted candidate; its properties are the `Generate*` lemmas |
| Generator.DrawCandidate | src/utils/passwordGenerator.ts:116-120 | the inner loop builds the candidate of `length` pool characters indexed by consecutive draws |
| Generator.GeneratePassword | src/utils/passwordGenerator.ts:106-130 | the attempt loop returns the specified `Generate` result; it fails with `EmptyPool` iff the pool is empty; a returned password has the configured length, only pool characters and passes `MeetsRequirements` |
| Generator.SampleAttempts | src/utils/passwordGenerator.ts:112-129 | the attempt loop returns the first accepted of the 1000 candidates, or `AttemptsExhausted` |
| Generator.FirstAcceptedSound | src/utils/passwordGenerator.ts:115-127 | an accepted result has the configured length, only pool characters and passes `MeetsRequirements` (firstness is `Generator.FirstAcceptedFound`) |
| Generator.FirstAcceptedFound | src/utils/passwordGenerator.ts:115-127 | an accepted result is the candidate of some attempt, all earlier candidates being rejected, and it passes `MeetsRequirements` |
| Generator.FirstAcceptedExhausted | src/utils/passwordGenerator.ts:115-129 | from attempt `a` the search fails only with `AttemptsExhausted`, and does so iff every attempt from `a` to 999 is rejected |
| Generator.GenerateSound | src/utils/passwordGenerator.ts:106-130 | a generated password has the configured length, uses only pool characters and satisfies `MeetsRequirements` |
| Generator.GenerateFirstAccepted | src/utils/passwordGenerator.ts:115-124 | a generated password is the candidate of some attempt below 1000, every earlier candidate being rejected |
| Generator.GenerateEmptyPool | src/utils/passwordGenerator.ts:107-110 | generation fails with `EmptyPool` iff no class is enabled |
| Generator.GenerateExhausted | src/utils/passwordGenerator.ts:112-129 | generation fails with `AttemptsExhausted` iff the pool is non-empty and all 1000 candidates are rejected |
| Generator.GenerateUnsatisfiable | src/utils/passwordGenerator.ts:80-129 | with some class enabled and minimums summing to more than the length, every run of the generator ends in `AttemptsExhausted` (with no class enabled it is `EmptyPool`) |
| Generator.GenerateDisabledMinimum | src/utils/passwordGenerator.ts:80-129 | with some class enabled, a nonzero minimum for a disabled class makes every run of the generator end in `AttemptsExhausted` |
| Generator.CandidateFromPool | src/utils/passwordGenerator.ts:117-120 | every candidate has the configured length and only pool characters |
| Generator.DisabledClassAbsent | src/utils/passwordGenerator.ts:30-42 | a string of pool characters holds no character of a disabled class |
| Generator.EmailPresetPasswords | src/utils/passwordGenerator.ts:186-203 | under the e-mail preset a generated password has 18 characters, every class, no ambiguous character and no run of three |
| Strength.ThresholdsReached | src/utils/passwordGenerator.ts:137-149 | the number of thresholds reached is at most the number of thresholds |
| Strength.GetPasswordStrength | src/utils/passwordGenerator.ts:137-149 | the ladder returns the tier indexed by the number of thresholds (28, 36, 60, 128) the entropy reaches, with percentage 20 times one more than that number |
| Strength.ThresholdsLadder | src/utils/passwordGenerator.ts:138-147 | the number of thresholds reached is 0 below 28, 1 below 36, 2 below 60, 3 below 128 and 4 from 128 on |
| Strength.ThresholdsReachedMonotone | src/utils/passwordGenerator.ts:137-149 | more entropy reaches at least as many thresholds |
| Strength.StrengthMonotone | src/utils/passwordGenerator.ts:137-149 | the percentage is monotone non-decreasing in entropy |
| Strength.StrengthTiersDisjoint | src/utils/passwordGenerator.ts:137-149 | two entropies get the same tier iff they reach the same number of thresholds, so the tiers do not overlap |
| Strength.CalculateEntropy | src/utils/passwordGenerator.ts:132-135 | (definition) the length times `log2` of the pool size; its properties are `EntropyMonotoneInLength` and `StrengthMonotoneInLength` |
| Strength.EntropyMonotoneInLength | src/utils/passwordGenerator.ts:132-135 | for a non-negative `log2` of the pool size, entropy does not decrease with the password length |
| Strength.StrengthMonotoneInLength | src/utils/passwordGenerator.ts:132-149 | when `log2` of the pool size is non-negative, a longer password under the same configuration never gets a lower strength percentage |
| Breach.HexDigit | src/utils/passwordGenerator.ts:155 | `toString(16)` of a value below 16 is the matching lower-case hex digit |
| Breach.ByteToHex | src/utils/passwordGenerator.ts:155 | (definition) `b.toString(16)`: one lower-case digit below 16, two digits otherwise |
| Breach.PadStart2 | src/utils/passwordGenerator.ts:155 | (definition) `padStart(2, '0')`: zeros in front up to two characters |
| Breach.JoinHex | src/utils/passwordGenerator.ts:155 | (definition) the padded renderings of the bytes joined in order; `JoinHexLength` and `DigestHexUpper` state its length and form |
| Breach.DigestHex | src/utils/passwordGenerator.ts:154-155 | the rendering has two characters per byte |
| Breach.UpperHexOf | src/utils/passwordGenerator.ts:155 | the reference rendering (two upper-case digits per byte, high nibble first) has twice as many characters as bytes |
| Breach.ByteHexPair | src/utils/passwordGenerator.ts:155 | `b.toString(16).padStart(2, '0')` is the pair of lower-case digits of the high and low nibble |
| Breach.JoinHexLength | src/utils/passwordGenerator.ts:155 | the joined lower-case rendering has two characters per byte |
| Breach.DigestHexUpper | src/utils/passwordGenerator.ts:154-155 | the upper-cased join is exactly the reference rendering |
| Breach.UpperHexAt | src/utils/passwordGenerator.ts:155 | in the reference rendering byte `i` sits at positions `2i` and `2i + 1`, and every character is an upper-case hex digit |
| Breach.UpperHexDigit | src/utils/passwordGenerator.ts:155 | upper-casing a lower-case hex digit gives the upper-case digit of the same value |
| Breach.DigestHexFormat | src/utils/passwordGenerator.ts:154-155 | the rendering has two upper-case hex digits per byte, high nibble first, and nothing else |
| Breach.DecodeDigestHex | src/utils/passwordGenerator.ts:154-155 | decoding the rendering gives back the digest, so the rendering is injective |
| Breach.DecodeUpperHexOf | src/utils/passwordGenerator.ts:155 | decoding the reference rendering gives back the bytes |
| Breach.DecodePair | src/utils/passwordGenerator.ts:155 | the digit pair of a byte in front of decodable text decodes to that byte in front |
| Breach.HexDigitValue | src/utils/passwordGenerator.ts:155 | every upper-case hex digit decodes to its value |
| Breach.SplitHash | src/utils/passwordGenerator.ts:161-162 | prefix and suffix concatenate to the hash, and the prefix has 5 characters (or the whole hash if shorter) |
| Breach.Sha1Split | src/utils/passwordGenerator.ts:160-162 | a 20-byte digest gives a 5-character prefix and a 35-character suffix |
| Breach.RequestRevealsOnlyPrefix | src/utils/passwordGenerator.ts:164 | two digests with the same prefix produce the same request, of fixed length |
| Breach.TrimStart | src/utils/passwordGenerator.ts:175 | the trimmed string is a suffix of the input, every character removed from the front is white space, and the rest does not start with white space |
| Breach.LeadingDigits | src/utils/passwordGenerator.ts:175 | the count of leading decimal digits is maximal |
| Breach.Decimal | src/utils/passwordGenerator.ts:175 | the decimal rendering of a count is a non-empty string of digits |
| Breach.DigitsValueDecimal | src/utils/passwordGenerator.ts:175 | the digit value of a decimal rendering is the number rendered |
| Breach.LeadingDigitsOf | src/utils/passwordGenerator.ts:175 | the leading digits of digits followed by a non-digit are exactly those digits |
| Breach.ParseIntDecimal | src/utils/passwordGenerator.ts:175 | `parseInt` reads back a decimal count followed by any non-digit text |
| Breach.ParseIntUnsigned | src/utils/passwordGenerator.ts:175 | text that starts with a digit parses to the value of its longest digit prefix |
| Breach.ParseInt | src/utils/passwordGenerator.ts:175 | (definition) `parseInt(countStr, 10)`: `NaN` for a missing field or no digits after white space and an optional sign, otherwise the signed value of the leading digits; `ParseIntDecimal` and `ParseIntUnsigned` state its results |
| Breach.ParseLine | src/utils/passwordGenerator.ts:173 | (definition) `line.split(':')` destructured: the first field and the second if there is one |
| Breach.ScanLines | src/utils/passwordGenerator.ts:172-179 | (definition) the `for` loop over the lines: the first line whose suffix field matches decides, otherwise `{breached: false, count: 0}` |
| Breach.ScanLinesBreached | src/utils/passwordGenerator.ts:172-179 | the scan reports a breach iff some line's suffix field equals the suffix, and count 0 otherwise |
| Breach.ScanLinesAt | src/utils/passwordGenerator.ts:172-176 | the first matching line decides the result: breached, with that line's parsed count |
| Breach.CheckHibpResult | src/utils/passwordGenerator.ts:158-183 | (definition) the request for the prefix, the error for a failed or non-ok response, and the scan of the body for the suffix |
| Breach.CheckHibp | src/utils/passwordGenerator.ts:158-183 | the loop returns the specified result; it is an error iff the fetch fails or the response is not ok |
| Breach.FailedResponseIsError | src/utils/passwordGenerator.ts:165-182 | a failed or non-ok response is the error, never `{breached: false}` |
| Breach.HexHasNoSeparators | src/utils/passwordGenerator.ts:162-173 | the suffix holds neither `:` nor a line break |
| Breach.CountLine | src/utils/passwordGenerator.ts:173 | a `SUFFIX:COUNT` line is one line whose fields are the suffix and the count text |
| Breach.BreachedWithCount | src/utils/passwordGenerator.ts:158-176 | an ok response whose first line for the suffix is `SUFFIX:COUNT`, preceded by lines for other suffixes and followed by any lines, yields `{breached: true, count: COUNT}` |
| Breach.OkResponseScanned | src/utils/passwordGenerator.ts:164-172 | an ok response is answered by scanning the lines of its body for the digest's suffix |
| Breach.ScanBody | src/utils/passwordGenerator.ts:170-176 | splitting a body of separator-free lines and scanning it stops at the first line for the suffix, with that line's parsed count |
| Breach.CountLineScanned | src/utils/passwordGenerator.ts:170-176 | a body whose first line for the suffix is `SUFFIX:COUNT` scans to a breach with that count |

## Left out

- `crypto.getRandomValues` is replaced by the oracle `rand`. The modulo bias of `draw % max` is a statistical property and is not stated.
- Generator.SecureRandomInt: its contract states the bound and that a draw below `max` is kept. It does not restate the full remainder, and the draw is a parameter rather than drawn.
- `crypto.subtle.digest('SHA-1')` and the UTF-8 `TextEncoder` are foreign calls. The digest bytes are an input to `Breach.CheckHibp`. A rejected digest promise, which `checkHIBP` also turns into its single error, therefore cannot occur in the model.
- `fetch`, `response.text()` and async/await are network I/O. They are the oracle `fetch`, and a failure to read the body falls under `NetworkFailure`.
- `Math.log2` over floating point is a parameter `log2` of `Strength.CalculateEntropy`. The `-Infinity` entropy of an empty pool is not modelled; entropy is a `real`.
- Strength.StrengthMonotoneInLength: requires a non-negative `log2` of the pool size. With an empty pool the source's `Math.log2(0)` is `-Infinity`, so an empty password gets `NaN` entropy (percentage 100) and a longer one `-Infinity` (percentage 20); monotonicity fails there, and the real-valued model has neither value.
- `Strength.GetPasswordStrength` is total over `real`. JavaScript `NaN` entropy, which falls through to the top tier, is not modelled.
- Case mapping is ASCII only. `toLowerCase` on non-ASCII letters and the UTF-16 code-unit view of strings are not modelled. Every character the generator produces is ASCII.
- `length`, the minimums and `maxRepeats` are natural numbers. Negative or fractional values of these JavaScript numbers are not modelled.
- `Breach.ParseInt` skips only the ASCII white space characters. Unicode white space is not skipped, and counts beyond 2^53 are exact integers here rather than doubles.
- Concrete pool sizes (75 with every class, 70 with `avoidAmbiguous`) are stated above in prose only. The model proves the pool's membership, order and distinctness for every configuration instead.
- The `presets` table, lines 185-253, is configuration data. Only the e-mail preset is modelled, as an example policy.
- `PasswordPreset`, the React components and the animated background render the UI and are out of scope.
