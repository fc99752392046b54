# Cellular-automaton password generator, modelled in Dafny

CellularAutomataPasswordGen derives passwords from elementary cellular automata
and scores password strength. This project models its three core parts:

- **The command-line generator** (`password.py`, module `CaPassword` in `password.dfy`).
  A `Generator` object holds a circular row of cells. Its constructor places one live cell in the middle.
  `Evolve` advances the row by one generation of an 8-bit Wolfram rule.
  `RunAutomaton` records `iterations` rows.
  `GeneratePassword` does the rest:
  - It XORs the last row with three sampled rows.
  - It cuts the mixed row into chunks; each chunk's binary value, modulo the pool size, picks one character.
  - It repairs the password once for each selected character class that is missing.

  Every way this can raise (no class, empty history, division by zero, empty random range) is a `Result` error.
- **The web generator** (`app.py`, module `WebGenerator` in `webapp.dfy`).
  - `generate_automaton` fills a grid row by row from a drawn first row.
  - `password_from_automaton` reads the flattened grid eight bits at a time.
  - The `/generate` handler builds the charset, rejects an empty one, and produces one grid and one password per requested count.
  - The module's plain `generate_password` is modelled as well.
- **The strength scorer** (`StrengthAnalyzer.py`, module `Strength` in `strength.dfy`).
  It has four sub-scores (length, entropy, charset complexity, unpredictability) and their equal-weight composite, computed over exact rationals.

The remaining files are shared modules:

- `bits.dfy` (`Bits`): binary expansions, `(n >> k) & 1`, row XOR.
- `charsets.dfy` (`CharClasses`): the character-class strings and predicates.
- `results.dfy` (`Results`): `Result` and `Option`.
- `conventions.dfy` (`Conventions`): the relation between the two rule numberings.

The two engines number rules differently:

- `password.py` reads bit `4l + 2c + r` of the rule.
- `app.py` builds its rule set from the most significant bit down, so it reads bit `7 - (4l + 2c + r)`.

`Conventions` proves what follows from this:

- The web generator runs the rule with its eight bits reversed; its default rule 30 is the command-line rule 120.
- The two engines agree on every neighbourhood exactly when the rule's 8-bit pattern is a palindrome.

Every random draw of the source is an explicit input of the model:

- the three sampled history rows;
- the position and character of each repair;
- the first row of each web grid;
- the characters of the plain web generator.

## Behaviour of the code worth knowing

- **The repair pass does not keep its promise.** The docstring of `_ensure_character_types` (password.py:140) says the password will contain at least one character of each required type. The code computes all four `has_*` flags before it repairs anything, and each repair overwrites a freely drawn position. A later repair can therefore overwrite an earlier one, or the only character of a class that was already present. `RepairCanLoseAClass` exhibits a password that ends with no uppercase letter and no digit although both were selected. `RepairSuppliesSelectedClasses` states the condition under which every selected class does end up present.
- **Length 1 and width 1 always fail.** For a password of length 1 the chunk is the whole row, so `start_idx` computes `% 0` (password.py:123) and raises `ZeroDivisionError`. Width 1 has the same effect. See `GeneratedFailsExactly`.
- **The command-line password repeats.** `start_idx` (password.py:123) is taken modulo `width - chunk_size`, so before repair character `i + width - chunk_size` is always character `i`. With width 100 and length 200, for instance, the chunk is one cell and the password repeats every 99 characters (`ChunkStartPeriodic`, `RawPasswordPeriodic`).
- **The web password can be silently short.** `password_from_automaton` reads the groups of `range(0, len(flat_bits) - 8, 8)` (app.py:81). When the bit count is a multiple of eight, as for the default 50 × 100 grid, the last byte, at `len(flat_bits) - 8`, is never read. When the grid has too few bits it returns fewer than `length` characters without an error (`PasswordLength`, `FinalByteUnused`).
- **A row drawn twice cancels.** The three sampled rows are drawn independently (password.py:110), so the same row can be drawn twice. Two consecutive equal draws cancel each other in the XOR, and the mixed row is the last row XOR-ed with the remaining draw alone (`MixRepeatedDrawCancels`).
- **The special sets differ.** The web generator's special set has 8 characters (app.py:19), while the command-line generator and the scorer use 27.
- **The web generator does not check its sizes.** A negative width gives empty rows (app.py:27-29). Zero or negative iterations fail with an `IndexError` at `grid[0]` (app.py:29).

## Model

| member | source | states |
|---|---|---|
| Bits.ToBinary | password.py:27 | `format(n, '08b')` has exactly k digits |
| Bits.ToBinaryDigit | password.py:27 | digit k-1-j of the expansion is bit j of n, i.e. `(n >> j) & 1` |
| Bits.BitsValue | password.py:127 | the value of a digit string is below 2^length |
| Bits.BitsValueOfToBinary | password.py:127 | parsing the binary expansion of n gives n back |
| Bits.ToBinaryOfBitsValue | app.py:80 | expanding the parsed value of a digit string to as many digits gives the string back |
| Bits.BitOf | app.py:31 | `(rule >> i) & 1` is bit i of the rule, taken by i halvings; `ToBinaryDigit` proves it is digit 7-i of `format(rule, "08b")` |
| Bits.Zeros | password.py:28 | `np.zeros(width)` has `width` cells, all dead |
| Bits.Xor | password.py:115 | cell i of the result is live exactly when the two rows differ at i; the width is kept |
| Bits.XorCancels | password.py:113-115 | XOR-ing the same row twice restores the original |
| Bits.Prev | password.py:51 | `(i - 1) % w` is i - 1, wrapping to w - 1 at cell 0 |
| Bits.Next | password.py:53 | `(i + 1) % w` is i + 1, wrapping to 0 at cell w - 1 |
| Bits.Index | app.py:38 | the neighbourhood value lies in 0..7 |
| Bits.Reverse | app.py:31 | the reversed digit string reads position i at position len-1-i |
| CharClasses.LowercaseMembers | StrengthAnalyzer.py:44 | the lowercase string holds exactly the characters `islower` accepts |
| CharClasses.UppercaseMembers | StrengthAnalyzer.py:46 | the uppercase string holds exactly the characters `isupper` accepts |
| CharClasses.DigitMembers | StrengthAnalyzer.py:48 | the digit string holds exactly the characters `isdigit` accepts |
| CharClasses.ClassMembership | StrengthAnalyzer.py:44-49 | class strings and class predicates agree on every character |
| CharClasses.SpecialsAreSymbols | password.py:37 | no special character is a letter or a digit |
| CharClasses.HasAnyOfClass | password.py:141-143 | the generator's `c in self.lowercase` tests agree with the scorer's `islower` tests |
| CharClasses.HasAnyOf | password.py:141-144 | `any(c in cls for c in password)`: some character of the password is in the class |
| CharClasses.HasLower | StrengthAnalyzer.py:44 | `any(char.islower() for char in pw)`; `HasAnyOfClass` proves it equals the generator's lowercase test |
| CharClasses.HasUpper | StrengthAnalyzer.py:46 | `any(char.isupper() for char in pw)`; `HasAnyOfClass` proves it equals the generator's uppercase test |
| CharClasses.HasDigit | StrengthAnalyzer.py:48 | `any(char.isdigit() for char in pw)`; `HasAnyOfClass` proves it equals the generator's digit test |
| CharClasses.HasSpecial | StrengthAnalyzer.py:52 | `set(special_chars) & set(pw)` is non-empty: the password shares a character with the 27 specials |
| CharClasses.WebSpecialsAreSpecials | app.py:19 | every web special is a command-line special, but `(` is not a web special |
| CaPassword.ApplyRule | password.py:39-44 | the new cell is bit `4l + 2c + r` of the rule |
| CaPassword.Step | password.py:46-56 | one generation keeps the row's width |
| CaPassword.Iterate | password.py:67-69 | every generation keeps the row's width |
| CaPassword.History | password.py:58-71 | the history has `iterations` rows |
| CaPassword.ClassChars | password.py:34-37 | every class is non-empty |
| CaPassword.Pool | password.py:89-103 | the pool has 26/26/10/27 characters per selected class |
| CaPassword.SampledRows | password.py:110 | drawn row k is history row `sampled[k]` |
| CaPassword.XorFold | password.py:113-115 | folding XOR keeps the width |
| CaPassword.Mix | password.py:109-115 | the mixed row is as wide as the history rows |
| CaPassword.ChunkSize | password.py:118 | `max(1, width // length)` is at least 1 and at most the width |
| CaPassword.ChunkStart | password.py:123 | a chunk starting at `start_idx` ends inside the row |
| CaPassword.CharAt | password.py:123-130 | the selected character is a pool character |
| CaPassword.RawPassword | password.py:117-130 | the password before repair has `length` characters, all from the pool |
| CaPassword.RepairStep | password.py:147-157 | one repair keeps the length |
| CaPassword.Repaired | password.py:138-157 | the repair pass keeps the length |
| CaPassword.Generated | password.py:73-136 | a successful run yields exactly `length` characters, all from the pool |
| CaPassword.Generator.constructor | password.py:15-37 | the row has `width` cells, of which only the middle one (`width // 2`) is live |
| CaPassword.Generator.Evolve | password.py:46-56 | the row is replaced by its next generation under the rule |
| CaPassword.Generator.RunAutomaton | password.py:58-71 | returns the `iterations` successive generations and leaves the last one as the current row |
| CaPassword.Generator.GeneratePassword | password.py:73-136 | returns the derivation `Generated` of the row it started from, including every error case; the row advances exactly when a class is selected and the history is non-empty |
| CaPassword.Generator.MixRows | password.py:109-115 | the loop computes the last row XOR-ed with each sampled row in turn |
| CaPassword.Generator.ChunkCharacters | password.py:117-130 | the loop builds exactly the unrepaired password |
| CaPassword.Generator.EnsureCharacterTypes | password.py:138-157 | the list afterwards is the repair of the list before, with class tests on the original |
| CaPassword.Generator.ReplaceCharacter | password.py:159-162 | only the drawn position changes, and it receives the drawn class character |
| CaPassword.CenterSeed | password.py:28-31 | the seed row has `width` cells and its middle cell `width // 2` is live |
| CaPassword.CenterSeedHasOneLiveCell | password.py:28-31 | the seed row has exactly one live cell, at `width // 2` |
| CaPassword.ExtremeRules | password.py:39-44 | rule 0 maps every neighbourhood to 0 and rule 255 maps every one to 1 |
| CaPassword.StepIsLocal | password.py:50-54 | new cell i depends only on old cells i-1, i, i+1 (circularly) |
| CaPassword.HistoryRecurrence | password.py:64-69 | row 0 is the starting row; row k is the step of row k-1; all rows share its width |
| CaPassword.HistorySnoc | password.py:67-69 | one more iteration appends the next generation to the history |
| CaPassword.RuleZeroDiesOut | password.py:58-71 | under rule 0 every cell of every row after the first is dead |
| CaPassword.XorFoldParity | password.py:113-115 | a mixed cell is live exactly when an odd number of the XOR-ed rows have it live |
| CaPassword.MixRepeatedDrawCancels | password.py:109-115 | when two consecutive draws pick the same row, the mixed row is the last row XOR-ed with the remaining draw alone |
| CaPassword.PoolMembers | password.py:103 | a character is in the pool exactly when it is in a selected class |
| CaPassword.ChunksFitRow | password.py:118-124 | 1 ≤ chunk ≤ width; every chunk lies inside the row; the chunk is the whole row exactly when length is 1 or width is 1 |
| CaPassword.RawCharacterIsPoolEntry | password.py:123-130 | unrepaired character i is `char_pool[v]`, where v is the value of the chunk at `start_idx`, modulo the pool size, and lies in range |
| CaPassword.ChunkStartPeriodic | password.py:123 | `start_idx` of character i + width - chunk equals that of character i |
| CaPassword.RawPasswordPeriodic | password.py:117-130 | before repair, character i + width - chunk equals character i: the password repeats |
| CaPassword.GeneratedFailsExactly | password.py:99-124 | raises ValueError exactly when no class is selected; fails at all exactly when no class, zero iterations, length ≤ 1 or width 1 |
| CaPassword.RepairKeepsCompletePassword | password.py:141-157 | a password containing every selected class is returned unchanged |
| CaPassword.RepairStaysInPool | password.py:147-162 | repairing a pool-only password keeps it pool-only |
| CaPassword.RepairTouchesOnlyDrawnPositions | password.py:159-162 | positions not drawn for a missing class keep their character |
| CaPassword.RepairSuppliesSelectedClasses | password.py:141-162 | if the drawn positions are distinct and every present class has an undrawn occurrence, every selected class is present afterwards |
| CaPassword.RepairCanLoseAClass | password.py:141-157 | with all classes selected, lowercase-only input and all repairs at one position, the result has no uppercase letter and no digit |
| CaPassword.LowercaseMissesOtherClasses | password.py:141-144 | a lowercase-only password lacks exactly the selected non-lowercase classes |
| WebGenerator.RuleSet | app.py:31 | the rule set has eight entries |
| WebGenerator.RuleSetEntry | app.py:31 | entry idx of the reversed list of `(rule >> i) & 1` is bit 7 - idx of the rule |
| WebGenerator.Lookup | app.py:38-39 | `ruleset[idx]` is bit `7 - idx` of the rule, where idx is the neighbourhood value |
| WebGenerator.AppStep | app.py:33-39 | one filled row is as wide as the row above |
| WebGenerator.AppIterate | app.py:33-39 | every row is as wide as the first |
| WebGenerator.AppGrid | app.py:26-41 | the grid has `iterations` rows |
| WebGenerator.GenerateAutomaton | app.py:26-41 | fails with `EmptyGrid` exactly when `iterations <= 0`; otherwise returns the grid grown from the drawn first row |
| WebGenerator.FillRow | app.py:34-39 | the inner loop overwrites every cell with the rule-set entry of the neighbourhood above |
| WebGenerator.AppGridShape | app.py:27-39 | the grid starts with the drawn row, all rows share its width, and each later row is the step of the row above |
| WebGenerator.AppGridSnoc | app.py:33 | one more row extends the grid by the next generation |
| WebGenerator.WebCharset | app.py:63-72 | the charset has 26/26/10/8 characters per selected class |
| WebGenerator.WebCharsetMembers | app.py:63-72 | a character is in the charset exactly when it is in a selected class, with the 8 web specials |
| WebGenerator.BuildCharset | app.py:64-74 | the `+=` steps build the charset, which is empty exactly when no class is selected |
| WebGenerator.GenerateRandomPassword | app.py:10-24 | "" when no class is selected; otherwise `length` characters (none if negative), character i being the drawn charset entry |
| WebGenerator.PyPrefix | app.py:83 | `xs[:n]` is a prefix of xs whose length follows Python's slicing, negative n included |
| WebGenerator.Indices | app.py:79-82 | there are `GroupCount` indices, each reading a whole 8-bit group inside the bits and lying below the charset size |
| WebGenerator.PasswordFromAutomaton | app.py:77-83 | every character comes from the charset, and there is one per kept index |
| WebGenerator.Generate | app.py:63-98 | `NoCharacterSets` exactly when no class is selected; `EmptyGrid` exactly when a grid is requested with `iterations <= 0`; otherwise one password per seed, each derived from its grid; the echoed grid is the first grid, or none when count ≤ 0 |
| WebGenerator.Passwords | app.py:85-91 | one password per drawn first row |
| WebGenerator.GeneratePasswords | app.py:85-93 | the loop fails only on an empty grid; otherwise it returns the passwords of all grids in order and remembers the first grid |
| WebGenerator.PasswordsSnoc | app.py:88-91 | one more iteration appends the password of the next grid |
| WebGenerator.Flatten | app.py:78 | `flat_bits`: the rows one after another; `FlattenLength` and `FlattenCell` state its length and where each cell lands |
| WebGenerator.GroupCount | app.py:81 | the number of starts of `range(0, n - 8, 8)`; `GroupStarts` states that group g is read exactly when 8g < n - 8 |
| WebGenerator.RowWidth | app.py:27-29 | `range(width)` has `width` entries, none for a negative width |
| WebGenerator.FlattenLength | app.py:78 | a grid of rows of width w flattens to rows·w bits |
| WebGenerator.FlattenCell | app.py:78 | cell c of row k sits at position k·w + c of the flattened bits |
| WebGenerator.GridBits | app.py:78 | a generated grid holds iterations·width bits |
| WebGenerator.GroupStarts | app.py:81 | group g is read exactly when 8g < n - 8 |
| WebGenerator.FinalByteUnused | app.py:81 | with a multiple of eight bits, the last byte, at `n - 8`, is never read |
| WebGenerator.PasswordLength | app.py:83 | for length ≥ 0 the password has min(length, groups) characters, so it is silently shorter when bits run out |
| WebGenerator.PasswordCharacter | app.py:79-83 | character j is the charset entry at the value of the j-th 8-bit group modulo the charset size |
| Strength.SizeOfCharset | StrengthAnalyzer.py:37-56 | the charset size is at most 89 |
| Strength.SizeExamples | StrengthAnalyzer.py:37-56 | "abc" has size 26, "Abc123!" has 89, "" has 0 |
| Strength.SizeMaximalIffAllClasses | StrengthAnalyzer.py:37-60 | the size is 89 exactly when all four classes occur |
| Strength.SizeMonotone | StrengthAnalyzer.py:37-56 | a password whose characters all occur in another has no larger charset size |
| Strength.LengthScore | StrengthAnalyzer.py:3-10 | the length score lies in [0, 100] |
| Strength.LengthScoreValues | StrengthAnalyzer.py:3-10 | the score is 100 exactly from 16 characters on, and 50 at 8 |
| Strength.LengthScoreMonotone | StrengthAnalyzer.py:3-10 | a longer password never scores lower on length |
| Strength.EntropyScore | StrengthAnalyzer.py:14-33 | the entropy score never exceeds 100 |
| Strength.EntropyScoreMonotone | StrengthAnalyzer.py:14-33 | at equal length, a larger charset never scores lower, for a monotone logarithm |
| Strength.ComplexityScoreMonotone | StrengthAnalyzer.py:58-60 | a larger charset never scores lower on complexity |
| Strength.ComplexityScore | StrengthAnalyzer.py:58-60 | the complexity score lies in [0, 100] |
| Strength.ComplexityFullIffAllClasses | StrengthAnalyzer.py:58-60 | the complexity score is 100 exactly when all four classes occur |
| Strength.UnpredictabilityScore | StrengthAnalyzer.py:75-80 | 0 exactly for a listed password, 100 exactly for an unlisted one |
| Strength.UnpredictabilityIsCaseSensitive | StrengthAnalyzer.py:75 | a listed password with one letter's case changed is not listed |
| Strength.CryptographicScore | StrengthAnalyzer.py:83-84 | the composite never exceeds 100 |
| Strength.CompositeBounds | StrengthAnalyzer.py:83-84 | the composite lies in [0, 100] when the entropy score is non-negative |
| Strength.CommonPasswordCapped | StrengthAnalyzer.py:83-84 | a listed password scores at most 75 |
| Strength.CommonPasswordPenalty | StrengthAnalyzer.py:83-84 | at equal length and charset size, a listed password scores exactly 25 below an unlisted one |
| Conventions.ReversedRule | app.py:31 | bit k of the reversed rule is bit 7 - k of the rule |
| Conventions.SameBitsSameRule | password.py:27 | two rules with the same eight bits are equal |
| Conventions.PalindromeBits | password.py:27 | a rule's digits read the same backwards exactly when bit k equals bit 7 - k |
| Conventions.ReversedRuleInvolution | app.py:31 | reversing the rule's bits twice gives the rule back |
| Conventions.Rule30Digits | password.py:27 | `format(30, '08b')` is 00011110 and `format(120, '08b')` is 01111000 |
| Conventions.Rule30Reversed | app.py:58 | the web default rule 30 runs as command-line rule 120; 30 is not a palindrome |
| Conventions.LookupIsReversedRule | app.py:31-39 | the web lookup is the command-line lookup of the reversed rule |
| Conventions.AppStepIsReversedStep | app.py:33-39 | a web row step is a command-line step under the reversed rule |
| Conventions.AppIterateIsIterate | app.py:33-39 | generations agree when the two rules give the same steps |
| Conventions.AppGridIsReversedHistory | app.py:26-41 | the web grid is the command-line history under the reversed rule |
| Conventions.SameLookupIffPalindrome | app.py:31-39 | the two lookups agree on every neighbourhood exactly when the rule's 8 bits form a palindrome |
| Conventions.Neighbourhood | app.py:38 | every value 0..7 is the index of some neighbourhood |
| Conventions.PalindromeRulesAgree | app.py:26-41 | for a palindrome rule the web grid equals the command-line history from the same first row |

## Left out

- Randomness is not modelled. Each draw is an input constrained only to its range: `random.randint`, `random.choice`, and the random first rows. The uniform distributions are not captured.
- I/O is not modelled: the Flask app, JSON parsing, request defaults, CORS headers, the index route, `print`, the argparse `main` and the commented-out scorer driver. `DataAnalyzer.py` is not part of this model.
- The argparse `main` calls `generate_password` `count` times on one generator object, each run starting from the row the previous run left. `GeneratePassword` states that advanced row, but the loop of `main` itself is not modelled.
- Python default arguments are not modelled: `width=100, iterations=50, rule=30` (password.py:15) and `length=16` with all four classes selected (password.py:73-74). Every argument is explicit in the model.
- CaPassword.Generator.constructor: requires `width >= 1`. In the source, width 0 raises `IndexError` when the middle cell is set, and a negative width raises inside numpy. `iterations` is a `nat`: the run with negative iterations, which raises inside numpy, is not modelled.
- CaPassword.Rule: rules are limited to 0..255, as the command line enforces. A rule beyond 255, or a negative one, gives a longer or signed `format` string; that behaviour is not modelled.
- CaPassword.Generator.RunAutomaton: builds the history as a sequence extended row by row. The source writes rows into a preallocated numpy matrix; the values are the same.
- WebGenerator.GenerateAutomaton: the grid is a sequence of rows whose row is replaced. The source uses a Python list of lists updated cell by cell; there is no aliasing between its rows, so the result is the same.
- Strength.EntropyScore: `numpy.log2` is a parameter, and scores are exact rationals rather than floats. `log2(0)` is `-inf` in numpy, making the score `-inf` or `nan` for a password with no recognised class; the model takes whatever value the parameter gives. The division by `log2(2)` is kept, with `log2(2) > 0` required.
- Strength.CompositeBounds: requires a non-negative entropy score. This excludes exactly the `log2(0)` case above.
- Strength.UnpredictabilityScore: the common-password set is a parameter. Loading it from the six word-list files, with `line.strip()`, is not modelled.
- CharClasses.IsLower: `islower`, `isupper` and `isdigit` are modelled on ASCII only. Python also accepts other Unicode letters and digits.
- Determinism of scoring holds by construction: every scorer is a function.
