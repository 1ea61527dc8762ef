# Vigenère cipher and its cryptanalysis, in Dafny

This project models the two classes of a small classical-cipher toolkit and
proves properties about them.

The `Vigenere` class of `main_cipher.cpp`:

- normalises its key to the upper-case ASCII letters it contains;
- extends that key in place (`agrandirKey`) whenever a text is longer than the key;
- encrypts by subtracting the key letter modulo 26, and decrypts by adding it back.

The `VigenereCryptanalysis` class of `main_cryptanalysis.cpp` mounts a
ciphertext-only attack:

- it counts letters and computes the index of coincidence;
- it splits the text into the cosets of every period from 2 to 15, averages their indices of coincidence and keeps the two best periods;
- for every coset of a chosen period it looks for the Caesar shift whose chi-squared fit to a language profile is smallest;
- it assembles the key from those shifts.

Modules:

- `Ascii` (ascii.dfy) holds character classes, `toupper`, letter ranks, C's truncating remainder by 26, and the letters-only upper-case form of a text.
- `Arith` (arith.dfy) holds facts about Euclidean division and sums of counts.
- `Cipher` (cipher.dfy) holds the class `Vigenere`:
  - a `key` field, with the normalised key kept as a ghost `base`;
  - a `Valid()` invariant;
  - methods whose loops are proved against the pure functions `Letters`, `Extended`, `EncryptWith` and `DecryptWith`.
- `Cryptanalysis` (cryptanalysis.dfy) holds the class `VigenereCryptanalysis`:
  - an immutable `targets` profile;
  - one method per routine, each loop proved against a specification function: `FrequencyTable`, `IndexOfCoincidence`, `Cosets`, `AvgIcTable`, `ChiSquaredStat`, `Shifted` and `BestFit`.

Other modelling choices:

- Index of coincidence and chi-squared are computed over `real`. What is proved is the formula and the selection logic, not IEEE rounding.
- An empty normalised key is modelled as the code behaves. `std::string::operator[]` at `size()` yields `'\0'`, so `agrandirKey` appends NUL characters and no precondition is needed.
- `decrypt` and `applyShift` apply C's `%` to every input, including the negative operands it produces for characters outside 'A'..'Z' or for large shifts.

## Model

| member | source | states |
|---|---|---|
| Ascii.IsUpper | main_cipher.cpp:25 | the range test `'A' <= c <= 'Z'` the constructor and `encrypt` (line 51) use to keep a character as it is |
| Ascii.IsLower | main_cipher.cpp:27 | the range test `'a' <= c <= 'z'` the constructor and `encrypt` (line 53) use to fold a character to upper case |
| Ascii.IsAlpha | main_cryptanalysis.cpp:35 | `isalpha` in the "C" locale: an ASCII upper- or lower-case letter; it decides what `Frequency` counts and what `applyShift` (line 120) shifts |
| Ascii.Rank | main_cryptanalysis.cpp:38 | `upperChar - 'A'`, also at line 121: the alphabet rank, which lies in 0..25 exactly for an upper-case letter |
| Ascii.ToUpper | main_cryptanalysis.cpp:37 | a lower-case letter becomes the upper-case letter of the same rank; every other character is unchanged |
| Ascii.Letter | main_cryptanalysis.cpp:31 | `'A' + r` is the upper-case letter of rank r, for r in 0..25 |
| Ascii.CRem26 | main_cipher.cpp:65 | C's `%` by 26: strictly between -26 and 26; equal to the Euclidean remainder for a non-negative dividend; never positive for a negative one; congruent to the dividend modulo 26 |
| Ascii.LetterOf | main_cipher.cpp:51-54 | one character contributes `toupper` of itself if it is an ASCII letter, nothing otherwise |
| Ascii.Letters | main_cipher.cpp:49-55 | the normalised text holds upper-case letters only and is no longer than the text |
| Ascii.LettersConcat | main_cipher.cpp:49-55 | normalising a concatenation concatenates the normalised parts, so letters keep their order |
| Ascii.LettersOfUpper | main_cipher.cpp:49-55 | a text of upper-case letters only is normalised to itself |
| Ascii.LettersIdempotent | main_cipher.cpp:49-55 | normalising twice is normalising once |
| Cipher.EncryptChar | main_cipher.cpp:65 | the output is always in '('..'Z'; for letters p and k it is the upper-case letter of rank (p - k) mod 26 |
| Cipher.DecryptChar | main_cipher.cpp:84 | the output is always in '('..'Z'; for letters c and k it is the upper-case letter of rank (c + k) mod 26 |
| Cipher.EncryptWith | main_cipher.cpp:62-66 | same length as the text; position i is `EncryptChar` of text and key position i; upper-case text and key give upper-case output |
| Cipher.DecryptWith | main_cipher.cpp:81-85 | same length as the text; position i is `DecryptChar` of text and key position i; upper-case text and key give upper-case output |
| Cipher.CharRoundTrip | main_cipher.cpp:62-85 | for letters, decrypting an encrypted letter with the same key letter gives it back, and the other way round |
| Cipher.RoundTrip | main_cipher.cpp:43-87 | decrypting with the key that encrypted an upper-case text gives the text back |
| Cipher.ReverseRoundTrip | main_cipher.cpp:43-87 | encrypting what was decrypted with the same key gives the ciphertext back |
| Cipher.Extended | main_cipher.cpp:33-40 | the key grows by exactly t characters and keeps its prefix; new position j holds old position j mod the old length, or NUL for an empty key |
| Cipher.Growth | main_cipher.cpp:57-59 | how much `encrypt` and `decrypt` extend the key: after growing by it, the key length is the larger of the text length and the old key length (zero growth when the key is long enough) |
| Cipher.KeepLetters | main_cipher.cpp:49-55 | the normalisation loop builds exactly `Letters(text)` |
| Cipher.Vigenere.constructor | main_cipher.cpp:19-30 | the key is the letters of the argument, in order, folded to upper case; the object invariant holds |
| Cipher.Vigenere.Valid | main_cipher.cpp:19-40 | the object invariant: the key starts with the normalised key it was built from, and every key character is an upper-case letter, or NUL when the normalised key is empty (what `agrandirKey` copies from an empty key) |
| Cipher.Vigenere.AgrandirKey | main_cipher.cpp:33-40 | the key becomes `Extended(old key, taille)` and is returned; the invariant (prefix kept, only letters, or only NULs for an empty key) is preserved |
| Cipher.Vigenere.Reserve | main_cipher.cpp:57-59 | the key is extended only when it is shorter than n, and then by exactly the missing length, so afterwards it is at least n long; the invariant is preserved |
| Cipher.Vigenere.Encrypt | main_cipher.cpp:43-69 | the key grows exactly when the normalised text is longer, and then to its length; the result is the normalised text encrypted with the resulting key; the invariant is preserved |
| Cipher.Vigenere.Decrypt | main_cipher.cpp:72-87 | the key grows exactly when the text is longer, and then to its length; every key read is in bounds; the result is the text decrypted position by position; the invariant is preserved |
| Cipher.ValidKeyUpper | main_cipher.cpp:19-40 | under the invariant, a non-empty normalised key keeps the whole key upper-case |
| Cipher.EncryptThenDecrypt | main_cipher.cpp:97-104 | the program's encrypt-then-decrypt on one object returns an upper-case ciphertext of the letters' length and then exactly the letters-only upper-case text |
| Cipher.DecryptThenEncrypt | main_cipher.cpp:43-87 | decrypting an upper-case ciphertext and encrypting the result on one object gives the ciphertext back |
| Cipher.EncryptFresh | main_cipher.cpp:43-69 | the first encryption on a new object is encryption with the normalised key repeated cyclically |
| Cipher.EncryptTwice | main_cipher.cpp:33-69 | as written, a second encryption on the same object uses the first call's key extended again from its own start |
| Cipher.StaleKeyOnOneObject | main_cipher.cpp:33-69 | two encryptions with key "AB" on one object: the second, of "AAAA", comes out "AZAA", which differs from the cyclic-key encryption |
| Cipher.StaleKeyCounterexample | main_cipher.cpp:33-40 | "AB", "AAA" and "AAAA" are their own normal forms; with key "AB", "AAA" followed by "AAAA" encrypts the second text to "AZAA"; the cyclic key gives "AZAZ" |
| Cipher.CyclicKey | main_cipher.cpp:7-10 | the key the class comment describes: n characters, position j holding character j mod the length of the normalised key |
| Cipher.CyclicEncrypt | main_cipher.cpp:7-10 | the intended cipher: as many letters as the text has, all upper case; letter i has rank (p_i - base[i mod n]) mod 26 |
| Cipher.CyclicDecrypt | main_cipher.cpp:7-10 | the intended decryption: same length; for upper-case input, rank (c_i + base[i mod n]) mod 26 |
| Cipher.CyclicRoundTrip | main_cipher.cpp:7-10 | cyclic decryption undoes cyclic encryption, giving the letters-only upper-case text |
| Cipher.CyclicReverseRoundTrip | main_cipher.cpp:7-10 | cyclic encryption undoes cyclic decryption of an upper-case text |
| Cipher.FreshKeyEncrypts | main_cipher.cpp:57-66 | on a fresh object the extended key is long enough, and encrypting with it equals encrypting with the normalised key repeated cyclically |
| Cipher.EncryptWithPrefix | main_cipher.cpp:62-66 | encryption reads only the first as many key characters as the text has |
| Cipher.CyclicEncryptAt | main_cipher.cpp:7-10 | encrypting an upper-case text with the cyclic key gives, at each position i, rank (p_i - base[i mod n]) mod 26 |
| Cipher.FreshExtensionIsCyclic | main_cipher.cpp:33-40 | extending the normalised key itself yields the cyclic key |
| Cipher.ExtensionOfWholePeriods | main_cipher.cpp:33-40 | extending a key made of whole repetitions of the normalised key still yields the cyclic key |
| Cryptanalysis.VigenereCryptanalysis.constructor | main_cryptanalysis.cpp:21-24 | the profile is stored as given |
| Cryptanalysis.Hits | main_cryptanalysis.cpp:35-38 | a character is counted for rank r when it is an ASCII letter whose upper-case form has rank r; only letters and ranks 0..25 are ever hit |
| Cryptanalysis.Count | main_cryptanalysis.cpp:33-40 | the number of positions of the text that hit rank r; at most the text length, and zero outside 0..25 |
| Cryptanalysis.LetterCounts | main_cryptanalysis.cpp:33-40 | the 26 counts, one per rank |
| Cryptanalysis.FrequencyTable | main_cryptanalysis.cpp:26-42 | the table `Frequency` returns: 26 slots, slot r holding the upper-case letter of rank r and its count |
| Cryptanalysis.VigenereCryptanalysis.Frequency | main_cryptanalysis.cpp:26-42 | 26 slots; slot r holds 'A' + r and the number of occurrences of that letter in either case |
| Cryptanalysis.CountAppend | main_cryptanalysis.cpp:35-39 | one more character raises one letter's count by one if it is a letter, and no count otherwise |
| Cryptanalysis.LetterCountsSum | main_cryptanalysis.cpp:26-42 | the 26 counts add up to the number of letters of the text |
| Cryptanalysis.CountOfLetters | main_cryptanalysis.cpp:33-40 | counting ignores case and non-letters: the letters-only upper-case text has the same counts |
| Cryptanalysis.FrequencyOfLetters | main_cryptanalysis.cpp:26-42 | the frequency table of a text equals that of its letters-only upper-case form |
| Cryptanalysis.Pairs | main_cryptanalysis.cpp:55-56 | the term f (f - 1) one count adds to the sum |
| Cryptanalysis.Coincidences | main_cryptanalysis.cpp:53-57 | the sum of f (f - 1) over the counts, accumulated in table order |
| Cryptanalysis.CoincidencesBound | main_cryptanalysis.cpp:53-57 | the sum of f (f - 1) is at most S (S - 1), where S is the total count |
| Cryptanalysis.CoincidenceRatio | main_cryptanalysis.cpp:49-58 | for n > 1 characters, the sum over n (n - 1) lies in [0, 1] |
| Cryptanalysis.IndexOfCoincidence | main_cryptanalysis.cpp:44-61 | 0 for at most one character; always within [0, 1] |
| Cryptanalysis.VigenereCryptanalysis.IndexIC | main_cryptanalysis.cpp:44-61 | the loop computes `IndexOfCoincidence`: the sum of f (f - 1) over n (n - 1), where n also counts non-letters |
| Cryptanalysis.IcShiftInvariant | main_cryptanalysis.cpp:44-61 | a Caesar shift by 0..25 leaves the index of coincidence unchanged |
| Cryptanalysis.CountShifted | main_cryptanalysis.cpp:117-125 | after a shift by sh, letter r occurs as often as letter (r + sh) mod 26 did before |
| Cryptanalysis.CountsRotated | main_cryptanalysis.cpp:117-125 | the counts of a shifted text are the original counts rotated by the shift |
| Cryptanalysis.Coset | main_cryptanalysis.cpp:133-136 | the characters at positions r, r + p, r + 2p, ... of the text, in order; empty exactly when r is past the end |
| Cryptanalysis.Cosets | main_cryptanalysis.cpp:130-136 | the p cosets of the text, coset r being non-empty exactly when the text reaches position r |
| Cryptanalysis.CosetAt | main_cryptanalysis.cpp:130-136 | entry m of coset r is character r + m p of the text |
| Cryptanalysis.CosetEnd | main_cryptanalysis.cpp:130-136 | coset r takes every position of residue r up to the end of the text |
| Cryptanalysis.CosetAppend | main_cryptanalysis.cpp:133-136 | one more character is appended to exactly the coset whose next position it is, and to no other |
| Cryptanalysis.NextCoset | main_cryptanalysis.cpp:135 | that coset is the one of index `i % period` |
| Cryptanalysis.CosetPosition | main_cryptanalysis.cpp:130-136 | character i is in coset i mod p at position i div p |
| Cryptanalysis.CosetLength | main_cryptanalysis.cpp:130-136 | coset lengths depend only on the text's length |
| Cryptanalysis.CosetLengthsSum | main_cryptanalysis.cpp:130-136 | the p coset lengths add up to the text length, so the cosets partition the text |
| Cryptanalysis.CosetPeriodOne | main_cryptanalysis.cpp:130-136 | for period 1 the single coset is the whole text |
| Cryptanalysis.VigenereCryptanalysis.SequenceDePeriod | main_cryptanalysis.cpp:130-143 | exactly `period` sequences; sequence r is coset r of the text |
| Cryptanalysis.SumIc | main_cryptanalysis.cpp:74-77 | the total index of coincidence of k cosets lies in [0, k] |
| Cryptanalysis.AverageIc | main_cryptanalysis.cpp:68-78 | the mean index of coincidence of the cosets lies in [0, 1] |
| Cryptanalysis.AvgIcTable | main_cryptanalysis.cpp:63-81 | 14 entries; entry j is period j + 2 with an average in [0, 1] |
| Cryptanalysis.VigenereCryptanalysis.AvgIc | main_cryptanalysis.cpp:63-81 | the loops compute `AvgIcTable`: entry j holds j + 2 and the mean of `IndexIC` over that period's cosets |
| Cryptanalysis.AverageIcAtKeyLength | main_cryptanalysis.cpp:63-81 | at the key's length, the average index of coincidence of a cyclic-key ciphertext equals that of its plaintext letters |
| Cryptanalysis.FirstMax | main_cryptanalysis.cpp:86-88 | an index of a largest score, with every earlier score strictly smaller |
| Cryptanalysis.FirstMin | main_cryptanalysis.cpp:164-166 | an index of a smallest score, with every earlier score strictly larger |
| Cryptanalysis.MaxElement | main_cryptanalysis.cpp:86-88 | the scan returns `FirstMax`, which is what `max_element` with `<` on scores returns |
| Cryptanalysis.MinElement | main_cryptanalysis.cpp:164-166 | the scan returns `FirstMin`, which is what `min_element` with `<` on scores returns |
| Cryptanalysis.FirstMaxOfRest | main_cryptanalysis.cpp:91-95 | after erasing a maximum, the first maximum of the rest, mapped back to whole-table indices, differs from it, is at least every other entry and is strictly above earlier ones |
| Cryptanalysis.VigenereCryptanalysis.PeriodFind | main_cryptanalysis.cpp:83-97 | max1 is the table entry of the smallest period with the highest average; max2 has another period, an average at least every entry but max1's, and is the first such |
| Cryptanalysis.ChiTerm | main_cryptanalysis.cpp:107-112 | a term is never negative, and is 0 exactly when the expectation is not positive or the observation equals it |
| Cryptanalysis.ChiSum | main_cryptanalysis.cpp:105-113 | the accumulated statistic is never negative |
| Cryptanalysis.ChiSumZero | main_cryptanalysis.cpp:105-113 | the sum is 0 exactly when every positive expectation is met exactly |
| Cryptanalysis.Expected | main_cryptanalysis.cpp:108 | the 26 expected counts, targets[i] times the text length; all zero for an empty text |
| Cryptanalysis.ChiSquaredStat | main_cryptanalysis.cpp:100-115 | the statistic against the profile, with expected count targets[i] times the text length (non-letters included), is never negative |
| Cryptanalysis.ChiSquaredZero | main_cryptanalysis.cpp:100-115 | the statistic is 0 exactly when every letter with a positive expected count occurs exactly that often |
| Cryptanalysis.VigenereCryptanalysis.ChiSquared | main_cryptanalysis.cpp:100-115 | the loop computes `ChiSquaredStat` for the object's profile |
| Cryptanalysis.ShiftChar | main_cryptanalysis.cpp:120-122 | non-letters are kept; for shifts 0..25 a letter of either case becomes the upper-case letter of rank (rank - shift) mod 26 |
| Cryptanalysis.Shifted | main_cryptanalysis.cpp:117-125 | the shifted text has the text's length |
| Cryptanalysis.ShiftZero | main_cryptanalysis.cpp:117-125 | a shift by 0 only folds letters to upper case |
| Cryptanalysis.ShiftCharCompose | main_cryptanalysis.cpp:121 | shifting a character by a and then b is shifting it by (a + b) mod 26 |
| Cryptanalysis.ShiftCompose | main_cryptanalysis.cpp:117-125 | shifting a text by a and then b is shifting it by (a + b) mod 26 |
| Cryptanalysis.VigenereCryptanalysis.ApplyShift | main_cryptanalysis.cpp:117-125 | overwriting the copy in place yields `Shifted(sequence, shift)`, for every integer shift |
| Cryptanalysis.ShiftUndoesKey | main_cryptanalysis.cpp:121 | shifting by (26 - k) mod 26 undoes the subtraction of the key letter of rank k |
| Cryptanalysis.ShiftUndoesCoset | main_cryptanalysis.cpp:117-136 | a coset of a text that subtracts key letter base[i mod p] at each position i is brought back by the shift (26 - base[r]) mod 26 |
| Cryptanalysis.ShiftRecoversCoset | main_cryptanalysis.cpp:117-136 | coset r of a cyclic-key ciphertext, shifted by (26 - base[r]) mod 26, is coset r of the plaintext letters |
| Cryptanalysis.ShiftIsEncryptChar | main_cryptanalysis.cpp:121 | on a letter, shifting by sh equals `encrypt`'s step with the key letter 'A' + sh |
| Cryptanalysis.ShiftTable | main_cryptanalysis.cpp:153-162 | the 26 candidates of one coset: entry sh holds sh and the non-negative chi-squared statistic of the coset shifted by sh |
| Cryptanalysis.BestFit | main_cryptanalysis.cpp:153-169 | a shift in 0..25 paired with its statistic; no shift scores lower, and every smaller shift scores strictly higher |
| Cryptanalysis.VigenereCryptanalysis.CalculDeChiSurSequences | main_cryptanalysis.cpp:146-178 | one entry per coset; entry r is `BestFit` of coset r, found by trying all 26 shifts |
| Cryptanalysis.VigenereCryptanalysis.ReconstitutionKey | main_cryptanalysis.cpp:181-190 | a key of length `period`, all upper case; letter r is 'A' plus the best shift of coset r |

## Left out

- Both `main` functions and every `cout` are not modelled: main_cipher.cpp:106-108, and main_cryptanalysis.cpp:89, 96, 139, 158 and 174. The effect of main_cipher.cpp's `main` is stated by `Cipher.EncryptThenDecrypt`.
- Cryptanalysis.VigenereCryptanalysis.PeriodFind: returns its two selections instead of printing them.
- Cryptanalysis.VigenereCryptanalysis.AvgIc: calls `SequenceDePeriod` instead of repeating its identical partition loop (lines 70-73). The printing that `SequenceDePeriod` adds is not modelled.
- Floating point:
  - `double` values are modelled as `real`, with no rounding;
  - letter counts stored in a `double` are modelled as `nat`;
  - the period stored as a `double` in `AvgIc`'s pairs is modelled as an `int`.
- Cryptanalysis.ChiTerm: `pow(o - e, 2) / e` is written `(o - e) * ((o - e) / e)`, which has the same value over the reals.
- Cryptanalysis.VigenereCryptanalysis.IndexIC: the factor 1 / (n (n - 1)) is computed after the summing loop instead of before it. The value is the same.
- The English profile constants of main_cryptanalysis.cpp:196-202 are not modelled. The profile is any caller-supplied sequence of 26 reals.
- Characters are ASCII under the "C" locale. Non-ASCII characters are never letters. The 8-bit width of C's `char` (signed values for bytes of 128 and above) is not modelled. The model produces no character outside 40..90 from a letter computation.
- The `int` product `n * (n - 1)` at main_cryptanalysis.cpp:51 can overflow. This overflow is not modelled, and neither is `unsigned int` / `size_t` wrap-around: the integers are mathematical.
- Cryptanalysis.VigenereCryptanalysis.SequenceDePeriod requires `period >= 1`, or `period == 0` with an empty input, and so do `CalculDeChiSurSequences` and `ReconstitutionKey`. The reasons:
  - `i % 0` is undefined behaviour;
  - a negative size makes `std::vector` throw;
  - the periods the program itself uses are 2..15.
- Statistical claims are not modelled, because they are not consequences of the code:
  - that English text has an index of coincidence near 0.065;
  - that the true period is among `periodFind`'s two picks;
  - that `reconstitutionKey` recovers the key.

  Because `encrypt` and `applyShift` both subtract, a coset encrypted with key letter k is undone by the shift (26 - k) mod 26 (`Cryptanalysis.ShiftRecoversCoset`). The letter `reconstitutionKey` reports is therefore the inverse of the key letter, not the key letter itself.
- A preference for the smaller of two periods when one divides the other is not modelled, because the code has no such rule.
- Cipher.EncryptChar and Cipher.DecryptChar: their rank formula is stated for letters only. For other characters the contract states only the range of the output. The C remainder is still modelled for them.
- Cryptanalysis.ShiftChar: the rank formula is stated for shifts 0..25 only. Other shifts are still modelled through C's `%`.

## Findings

| source | as written | input that shows it | evidently intended | confidence | as-written member | corrected member |
|---|---|---|---|---|---|---|
| main_cipher.cpp:33-40 | `agrandirKey` appends `key[i]` from the key as it currently stands. After one extension to a length that is not a multiple of the normalised key's length, a later extension on the same object copies the already extended key from its start. The key stops being the normalised key repeated, and a second `encrypt` on one object no longer matches a fresh object's. | Key "AB". Calling `encrypt("AAA")` returns "AZA" and leaves the key "ABA". Calling `encrypt("AAAA")` next extends the key to "ABAA" and returns "AZAA". | The key repeated cyclically, as the class comment at lines 7-10 describes. A fresh object gives "AZAZ". | not executed | Cipher.EncryptTwice, Cipher.StaleKeyCounterexample, Cipher.StaleKeyOnOneObject | Cipher.CyclicEncrypt |

The cryptanalysis lemmas (`ShiftRecoversCoset`, `AverageIcAtKeyLength`) build on the corrected `Cipher.CyclicEncrypt`. `Cipher.EncryptFresh` shows that the first encryption on a new object already agrees with it. So does a single encrypt-then-decrypt, the only use the program's `main` makes (`Cipher.ExtensionOfWholePeriods` covers keys made of whole repetitions).
