# Brute-force SHA-256 preimage search, modelled in Dafny

`crack-password.js` takes a password length and a SHA-256 digest on the
command line, enumerates every password of exactly that many lower-case
letters in odometer order (`aa…a`, `aa…b`, …, `zz…z`), hashes each one and
stops at the first whose digest equals the target, printing a progress line
every 100000 attempts.

This project models three parts of that script:

- **The candidate generator** `generatePasswords` (module `Generator`,
  `generator.dfy`). The recursive generator is the pair of mutually
  recursive functions `Generate` and `Branches`. `Generate` is the
  `current.length === length` test. `Branches` is the `for` loop over the
  character codes 97 to 122. Around them are a base-26 numbering of
  candidates (`Value`, 'a' = 0, most significant letter first) and its
  inverse `Encode`. The lemmas prove four things: the count is `26^length`;
  every element is `length` letters from 'a' to 'z'; every such string
  occurs, at index `Value(s)`; and the sequence is strictly increasing in
  JavaScript string order.
- **The search driver** in `crackPassword` (module `Search`,
  `search.dfy`). It is a method with the source's `attempts` counter, its
  `found` flag and its `break`. Its contract states first-match semantics:
  the attempt count equals the 1-based position of the match; exhaustion
  takes `26^length` attempts; and progress lines fall exactly at the
  multiples of 100000.
- **The input checks** (module `Validation`, `validation.dfy`): the
  argument count, the positive length, and the lower-cased 64-digit
  hexadecimal target. Module `Program` (`program.dfy`) runs the checks and
  then the search, as the script does.

SHA-256 is the function parameter `hash`, `parseInt` the parameter
`parseInt` (with `None` for NaN), and the command line the sequence `args`.
Progress lines are returned as a sequence instead of being written to the
terminal. `arith.dfy` holds powers and products, written as repeated
addition (`Blocks`), and quotients and remainders, written as repeated
subtraction (`Quot`, `Rem`). Apart from `Pow`'s own definition and the one
step of `BlocksIsProduct` that equates `Blocks` with a product, this keeps
the proofs in linear arithmetic.
`wrappers.dfy` holds `Option` and `Result`.

## Model

| member | source | states |
|---|---|---|
| `Generator.Generate` | slides/password-storage/crack-password.js:33-44 | `generatePasswords(length, current)` yields exactly `26^(length - current.length)` strings; `SearchSpace(length)` is the call `generatePasswords(passwordLength)` of line 58 with the default `current = ""` |
| `Generator.Branches` | slides/password-storage/crack-password.js:39-43 | the loop from character code `code` to 122 yields `123 - code` blocks, each of `26^(missing letters - 1)` strings |
| `Generator.FullPrefixYieldsItself` | slides/password-storage/crack-password.js:34-37 | once `current` has `length` characters the generator yields `current` once and nothing else |
| `Generator.EmptyLengthYieldsEmptyString` | slides/password-storage/crack-password.js:33-37 | with length 0 the only candidate is the empty string |
| `Generator.Encode` | slides/password-storage/crack-password.js:39-42 | the `k`-letter numeral of an index below `26^k` is made only of letters 'a' to 'z' and has length `k` |
| `Generator.Value` | slides/password-storage/crack-password.js:39-42 | the base-26 value of `k` letters is below `26^k` |
| `Generator.ValueOfEncode` | slides/password-storage/crack-password.js:39-42 | decoding the numeral of an index gives the index back |
| `Generator.EncodeOfValue` | slides/password-storage/crack-password.js:39-42 | encoding the value of a string of letters gives the string back |
| `Generator.LeadingLetterDecides` | slides/password-storage/crack-password.js:39-43 | between two letter strings of one length, the smaller first letter gives the smaller value |
| `Generator.SmallerValueIsLexLess` | slides/password-storage/crack-password.js:39-43 | among letter strings of one length, a smaller value means an earlier string in JavaScript string order |
| `Generator.BranchesAt` | slides/password-storage/crack-password.js:39-43 | element `q * 26^(k-1) + r` of the loop from `code` is element `r` of the extension by the letter `code + q` |
| `Generator.GenerateAtValue` | slides/password-storage/crack-password.js:33-44 | the generator yields `current + t` at the index equal to the base-26 value of the letters `t` |
| `Generator.GenerateAt` | slides/password-storage/crack-password.js:33-44 | element `i` of the generator is `current` followed by the numeral of `i` |
| `Generator.SearchSpaceAt` | slides/password-storage/crack-password.js:33-44 | element `i` of `generatePasswords(length)` is the `length`-letter numeral of `i` |
| `Generator.SearchSpaceWellFormed` | slides/password-storage/crack-password.js:33-44 | `generatePasswords(length)` yields `26^length` candidates, each of length `length`, each made of the codes 97 to 122 |
| `Generator.SearchSpacePosition` | slides/password-storage/crack-password.js:33-44 | every string of `length` letters is generated, at 1-based position one more than its base-26 value |
| `Generator.SearchSpaceIndexIsValue` | slides/password-storage/crack-password.js:33-44 | the candidate at index `i` is a letter string whose base-26 value is `i` |
| `Generator.SearchSpaceStrictlyIncreasing` | slides/password-storage/crack-password.js:39-43 | the candidates come in strictly increasing string order, so none repeats |
| `Generator.TwoLetterPositions` | slides/password-storage/crack-password.js:39-43 | for length 2 there are 676 candidates; "aa" is 1st, "az" 26th, "ba" 27th and "zz" last |
| `Search.ProgressLines` | slides/password-storage/crack-password.js:59-67 | after `count` attempts, `count / 100000` progress lines have been written; the `j`-th shows attempt `(j+1)*100000` and the candidate tried then |
| `Search.ProgressOnlyAtMultiples` | slides/password-storage/crack-password.js:63-67 | a progress line is written at attempt `k` if and only if `k` is a multiple of 100000 |
| `Search.CrackPassword` | slides/password-storage/crack-password.js:54-88 | found if and only if some candidate hashes to the target; the report is the first such candidate in generation order, with its digest; `attempts` is its 1-based position, one more than its base-26 value; when not found, `attempts` is `26^length`; progress is as `ProgressLines` says |
| `Search.FirstCandidateMatches` | slides/password-storage/crack-password.js:58-79 | length 1, target the digest of "a": found "a" after 1 attempt |
| `Search.TwentySeventhCandidateMatches` | slides/password-storage/crack-password.js:58-79 | length 2, target the digest of "ba", shared by no earlier candidate: found "ba" after 27 attempts |
| `Search.NoLetterMatches` | slides/password-storage/crack-password.js:58-88 | length 1, a target no letter hashes to: not found after 26 attempts |
| `Validation.CheckLength` | slides/password-storage/crack-password.js:14-20 | the length is accepted if and only if `parseInt` gave an integer above 0, and is kept as that integer |
| `Validation.CheckTarget` | slides/password-storage/crack-password.js:15-25 | the target is accepted if and only if it is 64 hexadecimal digits of either case; what is kept is 64 lower-case hexadecimal digits, the argument up to case |
| `Validation.TargetMatchIgnoresCase` | slides/password-storage/crack-password.js:69 | a digest equals the lower-cased target if and only if it equals the argument as given, up to case |
| `Validation.Validate` | slides/password-storage/crack-password.js:8-25 | the input is accepted if and only if there are two arguments, a positive length and a well-formed target; the errors come in source order: usage, then length, then hash format |
| `Program.Run` | slides/password-storage/crack-password.js:6-92 | invalid input stops before any attempt, with the first failing check's error and no progress lines; valid input gives the search's report and progress: found if and only if some candidate hashes to the lower-cased target, and then the password is the candidate at position `attempts` (one more than its base-26 value), it hashes to that target and to the command-line target up to case, and no earlier candidate does; otherwise all `26^length` were tried |

## Left out

- SHA-256 itself (`sha256`, lines 28-30): it is the uninterpreted parameter `hash`. The scenarios with a named digest assume only what they state about it.
- The clock and the rate (`Date.now()`, `toFixed`, lines 54, 64-65, 70, 83): wall-clock time and floating-point formatting. A progress line records only the attempt count and the current candidate.
- Console output (lines 9-10, 18, 23, 48-52, 66, 71-76, 84-87) and `process.exit`: the model returns the report, the progress lines and an `InputError` instead.
- `parseInt` (line 14): how it turns text into a number is not modelled. It is the parameter `parseInt`, with `None` for NaN and `Some(n)` for a finite integer `n`. `parseInt` can also return `Infinity`, for a decimal argument of more than 308 digits; `Option<int>` cannot express that value (see the `Generator.Generate` line below).
- `toLowerCase` (line 15) is modelled on ASCII letters only. No other character lower-cases to one of `0-9a-f`, so which targets are accepted is the same.
- Laziness: `generatePasswords` is a generator producing one candidate at a time. The model builds the whole sequence. Memory use and interleaving with the search are not captured.
- Generator.Generate: requires `current.length <= length`. The script never calls the generator with a longer prefix; if it did, the source would recurse without end.
- Generator.Generate and Search.CrackPassword: the generator nests one `yield*` per letter before its first candidate, so its call depth is `length`. A length beyond the JavaScript engine's stack limit (some thousands of frames) ends the script with an uncaught `RangeError` before the first attempt. A length of `Infinity` passes the check on line 17, and then `current.length === length` never holds, so the script recurses until the same error. The model has unbounded depth and finite lengths, so it runs the search in both cases instead.
- Search.CrackPassword: JavaScript numbers are doubles, so `attempts` is exact only up to 2^53. The model counts with unbounded integers, a bound a real run never reaches.
