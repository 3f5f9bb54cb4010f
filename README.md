# Rail-fence cipher toolkit: a verified model

This project models the cipher core of the crypto-bg React application
(`src/App.jsx`, lines 3–123) in Dafny. The core has five parts:

- **Encryption** (`encryptRailFence`). Write the text on `key` rails in a
  zig-zag. The row moves by `dir`, and `dir` flips whenever the new row is
  0 or `key - 1`. Then read the rails out one after the other.
- **Decryption** (`decryptRailFence`). Work on a `key` by `length` grid in
  three passes: mark the zig-zag cells with `'*'`, fill the marked cells
  row by row with the cipher text, then read the grid back along the
  zig-zag.
- **Analysis** (`analyzeRailFence`). Decrypt with every key from 2 to
  `min(10, length)`. Score each result by how many pieces `split(' ')`
  gives. Sort by score, highest first, and keep four rows.
- **Password comparison** (`comparePasswords`).
  - An exact match in the list wins and clears the fuzzy matches.
  - Otherwise the result holds every password, in list order, that agrees
    with the text on at least 80% of the positions of their common prefix.
- **Brute-force attack** (`bruteForceRailFence`).
  - Try keys 2 to 5 in turn, and compare each decryption with the password
    list.
  - A truthy exact match is recorded and ends the attack.
  - Fuzzy matches are recorded and the attack goes on.
  - If nothing was recorded, the report is a single "not found" entry.

Modules:

- `ZigZag` (`zigzag.dfy`). The zig-zag walk in closed form.
  - Position `i` is on rail `RailOf(i, key)`, which is derived from
    `i % (2 * (key - 1))`. The lemma `Step` shows that this is exactly the
    source's `row += dir; if (row === 0 || row === key - 1) dir *= -1`.
  - `Pos(n, key, i)` is where the character written at position `i` lands
    in the cipher text. It is proved a bijection.
- `RailFence` (`rail_fence.dfy`). This module holds both the cipher and its
  specification.
  - The specification functions are `Encrypted` (rails read out in order)
    and `Decrypted` (character `i` is the cipher character at
    `Pos(n, key, i)`).
  - The imperative routines follow the source's own loops. Encryption uses
    an array of growing rails. Decryption uses an `array2<Option<char>>`
    grid, where `None` is the source's `null` and `Some('*')` is its mark.
  - Each routine is proved equal to its specification function. The two
    functions are proved to be inverses of each other and permutations of
    their input, for every key, including `key <= 1`.
  - A `'*'` inside the cipher text does no harm: the fill pass inspects
    each cell once before it fills it. The decryption contract therefore
    holds for every text.
- `Passwords` (`passwords.dfy`). The exact filter, the `matchCount` loop,
  the fuzzy filter and `comparePasswords`, as methods with loops. Each is
  proved against a function.
- `Analysis` (`analysis.dfy`).
  - `split(' ')` is modelled as a function, with its join round trip
    proved.
  - The library's stable sort is modelled as an insertion sort, proved
    sorted, a permutation and stable.
  - The analysis loop is proved equal to the function `Analysis`.
  - Because every decryption is a permutation of the cipher text, all
    scores are equal. Since the sort is stable, the analysis always returns
    the first `min(4, KeysTried)` keys in ascending order
    (`AnalysisInKeyOrder`).
  - The code keeps four rows. Its trailing comment says three. The model
    follows the code.
- `BruteForce` (`brute_force.dfy`).
  - The attack loop is proved equal to `Report`. `Report` is defined by
    recursion over the attempts for keys 2 to 5.
  - Lemmas state what the report promises:
    - it holds one to four entries;
    - "not found" is reported exactly when no key produced a hit;
    - keys ascend;
    - an exact hit can only be the last entry;
    - each entry carries the decryption under its own key and the matches
      for it;
    - the attempt for a key is reported exactly when it is a hit and no
      earlier key stopped the attack.

## Model

| member | source | states |
|---|---|---|
| ZigZag.Step | src/App.jsx:10-11 | The closed-form rail and direction of position `i + 1` are what one step of the source's walk computes from those of position `i`. |
| ZigZag.PhaseIsMod | src/App.jsx:8-12 | The walk is periodic: the phase of position `i` is `i` modulo `2 * (key - 1)`. |
| ZigZag.PosInjective | src/App.jsx:14 | Reading the rails out in order sends no two plain-text positions to the same cipher-text place. |
| ZigZag.PosOnto | src/App.jsx:14 | Every cipher-text place receives some plain-text position. |
| ZigZag.OffsetTotal | src/App.jsx:14 | Together, the rails hold every character of the text. |
| RailFence.EncryptRailFence | src/App.jsx:3-15 | The rail-by-rail loop returns `Encrypted(text, key)`, which has the text's length. A key of 1 or less returns the text unchanged. |
| RailFence.EncryptedAt | src/App.jsx:8-14 | Encryption puts the character at position `i` at place `Pos(n, key, i)`. |
| RailFence.EncryptedLength | src/App.jsx:14 | Encryption neither drops nor adds characters. |
| RailFence.EncryptedPermutation | src/App.jsx:3-15 | The cipher text is a permutation of the plain text, as a multiset. |
| RailFence.RailsGrow | src/App.jsx:9 | Writing one more character appends it to its own rail and leaves every other rail unchanged. |
| RailFence.DecryptRailFence | src/App.jsx:17-52 | The three-pass grid decryption returns `Decrypted(text, key)`, which has the text's length. A key of 1 or less returns the text. |
| RailFence.MarkPattern | src/App.jsx:20-29 | After the first pass, exactly the cells `(RailOf(c), c)` hold `'*'` and every other cell is still `null`. |
| RailFence.FillMarks | src/App.jsx:31-39 | After the second pass, each zig-zag cell of column `c` holds the cipher character at `Pos(n, key, c)`. The other cells stay `null`. |
| RailFence.ReadZigZag | src/App.jsx:41-51 | Reading the filled grid along the zig-zag yields `Decrypted(text, key)`. |
| RailFence.DecryptedAt | src/App.jsx:17-52 | Character `i` of a decryption is the cipher character at `Pos(n, key, i)`. |
| RailFence.DecryptEncrypt | src/App.jsx:3-52 | Decrypting an encryption under the same key gives back the plain text, for every text and key. |
| RailFence.EncryptDecrypt | src/App.jsx:3-52 | Encrypting a decryption under the same key gives back the cipher text: every text is the cipher text of something. |
| RailFence.DecryptedPermutation | src/App.jsx:17-52 | Decryption is a permutation of the cipher text. |
| RailFence.RailByScan | src/App.jsx:8-12 | Each rail holds, in order, the characters at the positions the walk puts on it: a forward scan of the text. |
| RailFence.ExampleRails | src/App.jsx:8-12 | Writing "WEARE" on three rails puts "WE" on the top rail, "ER" on the middle rail and "A" on the bottom rail. |
| RailFence.ClassicExample | src/App.jsx:3-52 | "WEARE" on three rails encrypts to "WEERA" and decrypts back. That is the opening sweep of the textbook example "WE ARE DISCOVERED, FLEE AT ONCE". |
| Passwords.FilterExact | src/App.jsx:70 | The exact filter keeps, in order, every list entry equal to the text. By `ExactIn`'s contract, it is non-empty exactly when the text is in the list. |
| Passwords.ExactIn | src/App.jsx:70 | Every element of the exact filter equals the text, and the filter is non-empty exactly when the text is in the list. |
| Passwords.CountMatches | src/App.jsx:78-86 | The counting loop returns `MatchCount` over the common prefix. |
| Passwords.MatchCountFull | src/App.jsx:82-86 | The count equals the prefix length exactly when the two prefixes are equal. |
| Passwords.SimilarSymmetric | src/App.jsx:77-90 | Similarity does not depend on which string is the password. |
| Passwords.PrefixSimilar | src/App.jsx:77-90 | A non-empty password that is a prefix of the text is always similar to it. |
| Passwords.ThresholdBoundary | src/App.jsx:89-90 | Exactly 80% agreement (4 of 5 positions) passes the threshold, and 15 of 19 (about 79%) does not. |
| Passwords.FilterSimilar | src/App.jsx:77-91 | The fuzzy filter loop returns `SimilarIn(list, text)`. |
| Passwords.SimilarInMember | src/App.jsx:77-91 | A password is among the fuzzy matches exactly when it is in the list and similar to the text. |
| Passwords.SimilarInConcat | src/App.jsx:77-91 | The fuzzy filter keeps list order: the filter of a concatenation is the concatenation of the filters. |
| Passwords.ComparePasswords | src/App.jsx:68-94 | The method returns `Compared(text, list)`. |
| Passwords.Compared | src/App.jsx:68-94 | There is an exact match exactly when the text is in the list. The match is then the text itself, with no fuzzy matches. Otherwise the fuzzy matches are `SimilarIn(list, text)`. |
| Passwords.ExactMatchPrecedence | src/App.jsx:68-94 | For `"secret123"` and `["secret123", "secret124"]`, the exact match wins with no fuzzy matches. Against `["secret124"]` alone, the fuzzy match is reported. |
| Analysis.SplitJoin | src/App.jsx:59 | The pieces of `split(' ')` contain no space and join back to the text. |
| Analysis.SplitCount | src/App.jsx:59 | The score is one more than the number of spaces. |
| Analysis.SortSorted | src/App.jsx:62 | The sort is a permutation and puts higher scores first. |
| Analysis.SortStable | src/App.jsx:62 | Rows of equal score keep their relative order. |
| Analysis.SortEqualScores | src/App.jsx:62 | When all scores are equal, the sort changes nothing. |
| Analysis.AnalyzeRailFence | src/App.jsx:55-64 | The loop, sort and slice return `Analysis(cipher)`. |
| Analysis.ScoreOfEveryKey | src/App.jsx:57-60 | Every key's decryption scores the number of spaces in the cipher text plus one. |
| Analysis.CandidatesInKeyOrder | src/App.jsx:56-61 | Before sorting, row `k` is key `k + 2` with its decryption and that common score. There is one row per key from 2 to `min(10, length)`. |
| Analysis.AnalysisInKeyOrder | src/App.jsx:55-64 | The analysis returns `min(4, KeysTried)` rows: the keys in ascending order from 2, each with its decryption. |
| Analysis.AnalysisShape | src/App.jsx:55-64 | At most four rows are returned, none for texts of length at most 1. The rows are sorted by score, and each holds a key from 2 to `min(10, length)` and the decryption under that key. |
| BruteForce.TryKey | src/App.jsx:102-103 | One loop step's decryption and comparison are the attempt for that key. |
| BruteForce.AttemptsShape | src/App.jsx:101-103 | Attempt `i` is for key `2 + i`, and holds that key's decryption and its comparison with the list. |
| BruteForce.BruteForceRailFence | src/App.jsx:96-123 | The attack loop, with its early `break` and the final "not found" push, returns `Report(cipher, list)`. |
| BruteForce.LoopRecord | src/App.jsx:101-115 | Running the loop from attempt `i` appends the records of the remaining attempts to what was already recorded. |
| BruteForce.ReportOfLoop | src/App.jsx:96-123 | The report is what the loop recorded, or the single "not found" entry if it recorded nothing. |
| BruteForce.RecordShape | src/App.jsx:101-115 | For consecutive attempts, the records are no more than the attempts, and none exist exactly when no attempt hits. Keys stay in range and ascend, and an exact hit can only be the last record. |
| BruteForce.ReportShape | src/App.jsx:96-123 | The report has one to four entries. It is "not found" exactly when no key hits. Otherwise its keys lie in 2..5 and ascend, and an exact hit can only be the last entry. |
| BruteForce.RecordedExactly | src/App.jsx:105-114 | An attempt is recorded exactly when it hits and no earlier attempt stopped the loop. |
| BruteForce.ReportRecords | src/App.jsx:101-115 | The entry for a key is in the report exactly when that key hits and no smaller key found an exact match. |
| BruteForce.ReportEntries | src/App.jsx:105-114 | Each entry holds the decryption under its own key. An exact hit's decryption is a non-empty password of the list. A fuzzy entry's decryption is not in the list, and its matches are exactly the fuzzy filter's non-empty result. |
| BruteForce.RecordOrder | src/App.jsx:101-115 | Records come in ascending key order, and an exact hit ends them. |
| BruteForce.EmptyCipherNotFound | src/App.jsx:96-123 | An empty cipher text always gives the single "not found" entry: the empty decryption is never truthy and never similar. |

## Left out

- The React component (`src/App.jsx:126-283`) is not part of this model: state hooks, the handlers that call the core, and the markup. The handlers only pass the text, the key and the password list to the core.
- Loading the password list (`src/App.jsx:134-142`: `fetch`, `split('\n')`, dropping blank lines) is network I/O. The list is a parameter of the model. A list that has not loaded yet is the empty list.
- `vite.config.js` is build configuration and is not part of this model.
- Keys are unbounded integers and the model is total over them. The source's key comes unchecked from the input field's `parseInt`. For `NaN` (an empty field), and for any key of 2^32 or more, `Array(key)` throws a `RangeError` in both routines (`src/App.jsx:5`, `src/App.jsx:20`). Large keys below that bound exhaust memory building the rails. The model returns `Encrypted` and `Decrypted` for every integer key instead, and for a key longer than the text that is the text itself. These throwing paths are not modelled.
- Characters are modelled as one sequence element each. The source's `for...of` in encryption walks code points, while decryption indexes UTF-16 code units. The two differ on characters outside the Basic Multilingual Plane, and the model does not capture that difference.
- Passwords.IsSimilar: the floating-point test `matchCount / commonLength >= 0.8` is modelled as the exact `5 * matchCount >= 4 * commonLength`. A quotient below 4/5 could only round up to the literal `0.8` when `commonLength` is at least about 1.8×10^16. That exceeds JavaScript's maximum string length of 2^53 − 1, so the integer test is exact for every possible string. A common length of 0 gives `0 / 0`, which is `NaN`, and `NaN >= 0.8` is false, so it never matches.
- Analysis.SortByScore: `Array.prototype.sort` is library code. It is modelled by its documented contract (a stable sort under the comparator) as an insertion-sort function, not by the engine's algorithm.
- The analysis mutates `results` in place with `sort`. The model reassigns a sequence instead, so array aliasing is not captured.
- Only one brute-force routine exists in this source: matching decryptions against the password list. No routine that reads the list entries as keys is modelled, because the code has none.
