# ElsieFour and LS47: the rotating-grid cipher engine

ElsieFour (LC4) and LS47 are hand ciphers. The key is a permutation of an
alphabet, laid out as a square grid of tiles: 6×6 with 36 symbols
(`lc4.py`), or 7×7 with 49 symbols (`ls47.py`, and `lc4.py -7`).

A marker points at one tile. Each plaintext symbol is enciphered as follows:

- The symbol is looked up in the grid.
- The lookup is offset by the alphabet position of the symbol under the marker.
- The tile found there is the ciphertext symbol.
- The plaintext symbol's row is rotated right by one tile.
- The ciphertext symbol's column is rotated down by one tile.
- The marker advances by the alphabet position of the ciphertext symbol.

Decryption looks up the ciphertext symbol, subtracts the same offset and makes the same two rotations. So both sides pass through the same grids.

This project models that engine in Dafny, together with what surrounds it:

- the validators;
- key derivation from a password;
- ElsieFour's two nonce modes;
- its "marker follows its tile" variant;
- the globals `lc4.py` keeps for a session;
- LS47's key check and its padded messages.

## Layout

- `grid.dfy` (module `Grid`) covers these parts:
  - the two alphabets;
  - grid positions and the position helpers;
  - the row and column rotations;
  - the marker adjustments;
  - permutations of the alphabet.
- `engine.dfy` (module `Engine`) splits one iteration of the encrypt/decrypt loop into:
  - `Pair`, the lookup and offset;
  - `RowTurn` and `ColumnTurn`, the two rotations and the marker update;
  - `Step`, the whole iteration.

  It also holds `Run`, whole strings as a fold of `Step`, and the round-trip, prefix and append lemmas about `Run`. Key derivation (`Derived` and the loop `DeriveKey`) is here too, since both programs share it.
- `lc4.dfy` (module `Lc4`) covers these parts:
  - `missing_letters`, `check_key` and the `check_*` validators;
  - the nonce operations as functions over a snapshot of the globals;
  - the start-up of the main program;
  - class `Session`. Its fields are the globals `key`, `mp`, `nonce` and `nonce_enc`, plus the settings fixed at start-up. Its methods are the loops of `encrypt` and `decrypt`, and the nonce operations built on them.
- `ls47.dfy` (module `Ls47`) covers these parts:
  - `check_key`, as the loop over a counting map;
  - its own `rotate_right` and `rotate_down`, which take any integer shift;
  - `encrypt` and `decrypt`, which take the key as an argument and check it first;
  - `encrypt_pad` and `decrypt_pad`.

Every loop of the source is a method with loop invariants, proved equal to a function:

- `encrypt` and `decrypt` in `lc4.py` are proved against `Run`;
- `derive_key` in `lc4.py` (`Engine.DeriveKey`) and in `ls47.py` (`Ls47.DeriveKey`, with ls47's own rotations) against `Derived`;
- `check_key` in `ls47.py` against `KeyVerdict`;
- `encrypt` and `decrypt` in `ls47.py` against `Encryption` and `Decryption`.

The properties are lemmas about those functions.

Errors are modelled as kinds carrying the offending symbols, returned in a `Result`. An `lc4.py` exception raised in the middle of `encrypt` or `decrypt` is modelled with the key and marker the loop had reached, which is what the globals hold afterwards (`Engine.Outcome`).

Where the program's documentation and its code differ, the model follows the code:

- **Mode numbers and flag names are swapped.** `marker_mode` 1 and `nonce_mode` 1 are selected by the flags `-m0` and `-n0` (lc4.py:354-359, 401-408). marker_mode 1 is the mode in which the marker follows its tile.
- **An empty key source falls back to the alphabet.** An empty key string or keyword is false in Python, so the key stays the alphabet (lc4.py:424, 429).

Some facts about the code that the model keeps:

- **`encrypt` and `decrypt` do not validate their input.** `lc4.py` validates before calling them (lc4.py:448, 457, 312, 316). Inside them, a symbol outside the key raises after the key and marker were already moved for the symbols before it. `Run` models that.
- **The header sample compares the two marker modes.** With `-m0` (marker_mode 1, the marker following its tile) the sample ciphertext of `##############` is a repeated run; with `-m1`, which the header calls the fix, it has none (lc4.py:19-23). The model makes no claim about repeated runs in either mode.
- **The doc-comment test vector uses a fixed key.** Its key is `s2ferw_nx346ty5odiupq#lmz8ajhgcvk79b` (lc4.py:28-31), not the alphabet itself.

## Model

| member | source | states |
|---|---|---|
| Grid.LettersSpelled6 | lc4.py:57 | the computed 6×6 alphabet is the literal `letters6` |
| Grid.LettersSpelled7 | lc4.py:58 | the computed 7×7 alphabet is the literal `letters7`, equal to ls47.py's `letters` |
| Grid.Letters | lc4.py:57-58 | the alphabet has size² symbols; LettersSpelled6 and LettersSpelled7 give the literals |
| Grid.Count | lc4.py:68 | `key.count(c)` is at most the length, and zero exactly when c does not occur |
| Grid.LettersDistinct | lc4.py:57-58 | neither alphabet repeats a symbol |
| Grid.FindIx | lc4.py:98-102 | find_ix succeeds exactly for alphabet symbols, raising "not in the alphabet" otherwise; the result is in range and `letters[row*size+col]` is the symbol |
| Grid.FindIxAt | ls47.py:30-35 | find_ix maps `letters[x]` to `(x // size, x % size)` |
| Grid.Find | lc4.py:106 | `key.find`: -1 exactly when the symbol is absent, otherwise the index of its first occurrence |
| Grid.FindPos | lc4.py:105-109 | find_pos succeeds exactly when the symbol is among the first size² symbols of the key; the position is in range and holds the first occurrence of the symbol |
| Grid.FindAtPos | lc4.py:120-121 | the symbol returned is one of the key's symbols |
| Grid.AddPos | lc4.py:112-113 | componentwise sum modulo size, always in range |
| Grid.SubPos | lc4.py:116-117 | componentwise difference with Python's modulo, always in range |
| Grid.SubAddPos | lc4.py:112-117 | `sub_pos(add_pos(a, b), b) == a` for every in-range `a` |
| Grid.AddSubPos | lc4.py:112-117 | `add_pos(sub_pos(a, b), b) == a` for every in-range `a` |
| Grid.FindPosThenAt | lc4.py:105-121 | for a symbol in the key, `find_at_pos(key, find_pos(key, l)) == l` |
| Grid.FindAtThenPos | lc4.py:105-121 | in a key without repeats, `find_pos` of the symbol on a tile gives that tile |
| Grid.RotateRight | lc4.py:124-126 | rotate_right keeps the key's length; what it does to the tiles is stated by ShiftWindowSlices, RotateRightCells, RotateRightMultiset, RotateRightInverse and RotateZero |
| Grid.RotateDown | lc4.py:129-135 | rotate_down keeps the key's length; what it does to the tiles is stated by JoinLines, WithColumnAt, RotateDownCells, RotateDownMultiset, RotateDownInverse and RotateZero |
| Grid.ShiftWindowSlices | lc4.py:124-126 | the pointwise row shift equals the source's `key[:a] + mid[-n:] + mid[:-n] + key[a+size:]` |
| Grid.RotateRightMultiset | lc4.py:124-126 | rotate_right keeps the multiset of symbols |
| Grid.RotateRightCells | lc4.py:124-126 | after rotate_right, tile (row, j) holds what (row, (j - n) mod size) held, and every other row is unchanged |
| Grid.JoinLines | lc4.py:130-135 | joining the `lines` of a key gives the key back |
| Grid.WithColumnAt | lc4.py:130-135 | joining `lefts[i] + column[i] + rights[i]` puts `column` into column `col` and changes no other tile |
| Grid.RotateDownMultiset | lc4.py:129-135 | rotate_down keeps the multiset of symbols |
| Grid.RotateDownCells | lc4.py:129-135 | after rotate_down, tile (i, col) holds what ((i - n) mod size, col) held, and every other column is unchanged |
| Grid.RotateRightInverse | lc4.py:124-126 | rotating a row by n and then by size - n gives the original key |
| Grid.RotateDownInverse | lc4.py:129-135 | rotating a column by n and then by size - n gives the original key |
| Grid.RotateZero | lc4.py:124-135 | rotating a row or a column by 0 changes nothing |
| Grid.RotateMarkerRight | lc4.py:138-142 | the marker keeps its row; off the rotated row it does not move |
| Grid.RotateMarkerDown | lc4.py:145-149 | the marker keeps its column; off the rotated column it does not move |
| Grid.MarkerFollowsRight | lc4.py:124-142 | after rotate_right and rotate_marker_right, the marker points at the same symbol as before |
| Grid.MarkerFollowsDown | lc4.py:129-149 | after rotate_down and rotate_marker_down, the marker points at the same symbol as before |
| Grid.PermutationFacts | lc4.py:65-78 | a permutation of a repetition-free alphabet has its length, exactly its symbols, and no repeats |
| Grid.KeySymbol | lc4.py:105-109 | in a permutation key, find_pos succeeds exactly for alphabet symbols |
| Engine.Mix | lc4.py:168 | `find_ix(find_at_pos(key, mp))` cannot fail on a permutation key and is in range |
| Engine.RowTurn | lc4.py:173-174 | rotating the plaintext row, with the marker following in marker_mode 1, keeps the key a permutation and the marker in range |
| Engine.ColumnTurn | lc4.py:175-178 | rotating the ciphertext symbol's column and advancing the marker keeps the key a permutation and the marker in range |
| Engine.Advance | lc4.py:173-178 | the two rotations and the marker advance after writing out c keep the state keyed |
| Engine.ColumnTurnParts | lc4.py:175-178 | the lookup `find_pos(key, c)` and `find_ix(c)` cannot fail in the second rotation |
| Engine.Pair | lc4.py:167-170 | the first half of an iteration fails exactly for a symbol outside the key, with "not in key"; otherwise both paired symbols are in the alphabet and the row is in range |
| Engine.PairRoundTrip | lc4.py:167-190 | encrypting p pairs it with c exactly when decrypting c pairs it with p, on the same row |
| Engine.Step | lc4.py:166-178 | one iteration fails exactly for a symbol outside the alphabet; otherwise it emits an alphabet symbol and keeps the state keyed |
| Engine.EncryptSymbol | lc4.py:166-178 | the encrypt iteration as written (`c = find_at_pos(key, add_pos(pp, mix))`, then the rotations) is `Step` |
| Engine.DecryptSymbol | lc4.py:186-198 | the decrypt iteration as written (`p = find_at_pos(key, sub_pos(cp, mix))`, then the rotations) is `Step` |
| Engine.StepRoundTrip | lc4.py:162-199 | decrypting the symbol that encrypting p emitted gives p and the same next key and marker |
| Engine.StepRoundTripBack | lc4.py:162-199 | encrypting the symbol that decrypting c emitted gives c and the same next key and marker |
| Engine.Run | lc4.py:162-179 | a run keeps the key a permutation; a complete run emits one symbol per input symbol |
| Engine.RunFailure | lc4.py:166-167 | a run fails exactly when some symbol is outside the alphabet, reporting the first such symbol with the state reached before it |
| Engine.RunUndone | lc4.py:162-199 | running the other direction over a run's output gives its input back and ends in the same state |
| Engine.RunRoundTrip | lc4.py:162-199 | `decrypt(encrypt(P)) == P` from the same key and marker, ending in the same key and marker |
| Engine.RunRoundTripBack | lc4.py:162-199 | `encrypt(decrypt(C)) == C` from the same key and marker |
| Engine.RunAppend | lc4.py:209 | encrypting `nonce + P` is encrypting the nonce and then P from where that stopped |
| Engine.RunPrefix | lc4.py:162-179 | every prefix of a complete run completes, and its output is the matching prefix of the output |
| Engine.Synchronised | lc4.py:162-199 | after every prefix, the decrypting side holds the same key and marker as the encrypting side |
| Engine.FirstOutside | lc4.py:166-167 | the index of the first symbol outside the alphabet, or the length when there is none |
| Engine.DeriveStep | lc4.py:156-157 | one derive_key iteration fails exactly for a symbol outside the alphabet and otherwise keeps the key a permutation |
| Engine.Derived | lc4.py:152-159 | derive_key succeeds exactly when the whole password is over the alphabet, reports the first symbol that is not, and otherwise yields a permutation of the alphabet |
| Engine.DerivedStops | lc4.py:155-156 | the first password symbol outside the alphabet is the error of the whole derivation |
| Engine.DeriveKey | lc4.py:152-159 | lc4.py's derive_key loop, with `i` counting modulo size, computes Derived |
| Engine.DeriveNothing | lc4.py:152-159 | `derive_key("")` is the alphabet |
| Lc4.Insert | lc4.py:62 | inserting into a strictly sorted string keeps it strictly sorted and adds exactly that symbol |
| Lc4.MissingLetters | lc4.py:61-62 | missing_letters(s, t) is strictly sorted and holds exactly the symbols of s not in t |
| Lc4.Duplicates | lc4.py:68 | the duplicates list is strictly sorted and holds exactly the alphabet symbols occurring more than once in the key |
| Lc4.CheckKey | lc4.py:65-77 | check_key passes exactly for permutations of the alphabet; otherwise it reports the illegal, missing and duplicated symbols together, each sorted and without repeats |
| Lc4.PermutationClean | lc4.py:65-77 | a key is a permutation exactly when it has no illegal, no missing and no duplicated symbol |
| Lc4.Illegal | lc4.py:80-95 | the offending symbols are sorted, exactly those outside the alphabet, and empty exactly when the text is over the alphabet |
| Lc4.CheckNonce | lc4.py:80-83 | check_nonce fails exactly when some symbol is outside the alphabet, reporting all of them |
| Lc4.CheckPlaintext | lc4.py:86-89 | check_plaintext fails exactly when some symbol is outside the alphabet, reporting all of them |
| Lc4.CheckCiphertext | lc4.py:92-95 | check_ciphertext fails exactly when some symbol is outside the alphabet, reporting all of them |
| Lc4.DerivedKeyChecks | lc4.py:152-159 | a key derived from a password passes check_key |
| Lc4.EncryptedWithNonce | lc4.py:206-215 | encrypt_with_nonce leaves the key a permutation |
| Lc4.DecryptedWithNonce | lc4.py:218-229 | decrypt_with_nonce leaves the key a permutation |
| Lc4.NonceShape | lc4.py:206-215 | encrypt_with_nonce succeeds exactly over the alphabet; it returns nonce_size + len(plaintext) symbols, and in nonce_mode 1 it starts with the clear nonce |
| Lc4.EncryptedParts | lc4.py:206-215 | a successful encrypt_with_nonce is the run over the nonce and then the run over the plaintext, with nonce_enc being the nonce's ciphertext |
| Lc4.NonceRoundTrip | lc4.py:206-229 | in either nonce mode, decrypt_with_nonce from the same key and marker returns the plaintext and leaves key, mp, nonce and nonce_enc as the encrypting side left them |
| Lc4.OutputLegal | lc4.py:162-199 | every symbol a complete run writes is in the alphabet |
| Lc4.CiphertextLegal | lc4.py:313-316 | with a nonce over the alphabet, what encrypt_with_nonce returns passes check_ciphertext |
| Lc4.ChosenKey | lc4.py:412-429 | the key is the alphabet unless a non-empty keyword (derive_key) or a non-empty key string is given |
| Lc4.Opening | lc4.py:394-432 | start-up succeeds exactly when the nonce, the key derivation and check_key succeed, in that order of errors, and yields a permutation key |
| Lc4.Session.constructor | lc4.py:394-434 | the globals after start-up: nonce_size = len(nonce), nonce_enc = "", initialkey = key, mp = (0, 0) |
| Lc4.Session.Reset | lc4.py:315 | key = initialkey and mp = (0, 0), nonce and nonce_enc unchanged |
| Lc4.Session.TurnRow | lc4.py:173-174 | the key and marker become RowTurn of the old ones |
| Lc4.Session.TurnColumn | lc4.py:175-178 | the key and marker become ColumnTurn of the old ones |
| Lc4.Session.Encrypt | lc4.py:162-179 | the encrypt loop returns what Run returns, and key and mp end where Run ends, on success and on error alike |
| Lc4.Session.Decrypt | lc4.py:182-199 | the decrypt loop returns what Run returns, and key and mp end where Run ends |
| Lc4.Session.EncryptWithNonce | lc4.py:206-215 | result and globals are those of EncryptedWithNonce |
| Lc4.Session.DecryptWithNonce | lc4.py:218-229 | result and globals are those of DecryptedWithNonce |
| Lc4.Session.EncryptMessage | lc4.py:444-449 | a message with an illegal symbol (signature included) is rejected with no global changed; otherwise it is encrypt_with_nonce of message + signature |
| Lc4.Session.DecryptMessage | lc4.py:455-458 | an illegal ciphertext is rejected with no global changed; otherwise it is decrypt_with_nonce |
| Lc4.Session.EncryptThenDecrypt | lc4.py:309-317 | encrypting, resetting key and mp and decrypting returns the legal message, given a legal nonce |
| Lc4.Open | lc4.py:376-434 | start-up fails exactly as Opening does, and otherwise gives a fresh valid session with the globals set as start-up sets them |
| Ls47.Scan | ls47.py:22-27 | the symbol the scan raises at is in the key; a "not in LS47" symbol is outside the alphabet and a duplicated one is inside it |
| Ls47.KeyVerdict | ls47.py:16-18 | a key whose length is not 49 is rejected with "Wrong key size" |
| Ls47.ScanClean | ls47.py:22-27 | the scan passes exactly over keys made of alphabet symbols without repeats |
| Ls47.KeyVerdictPermutation | ls47.py:16-27 | check_key passes exactly for permutations of the alphabet |
| Ls47.KeyVerdictFirst | ls47.py:22-27 | check_key raises at the first symbol that is outside the alphabet or repeats an earlier one, with the matching error |
| Ls47.ScanFails | ls47.py:22-27 | once the scan has raised, later symbols do not change the error |
| Ls47.CheckKey | ls47.py:16-27 | the loop with the `cnts` map computes KeyVerdict |
| Ls47.LeftForRight | ls47.py:59 | the left shift by `(7 - n % 7) % 7` is a right shift by `n % 7` |
| Ls47.RotateRight | ls47.py:57-60 | rotate_right keeps the key's length; RotateRightAny and RotateRightTiles state what it does for any integer shift |
| Ls47.RotateRightAny | ls47.py:57-60 | rotate_right by any integer n is the shared row rotation by n mod 7 |
| Ls47.RotateRightTiles | ls47.py:57-60 | for any integer n, rotate_right keeps the multiset, moves row `row` right by n mod 7 and changes no other row |
| Ls47.RotateDown | ls47.py:63-70 | rotate_down keeps the key's length; RotateDownAny and RotateDownTiles state what it does for any integer shift |
| Ls47.RotateDownAny | ls47.py:63-70 | rotate_down by any integer n is the shared column rotation by n mod 7 |
| Ls47.RotateDownTiles | ls47.py:63-70 | for any integer n, rotate_down keeps the multiset, moves column `col` down by n mod 7 and changes no other column |
| Ls47.Start | ls47.py:98-99 | the loop starts from the checked key with mp = (0, 0) |
| Ls47.Encryption | ls47.py:97-112 | encrypt raises check_key's error before producing anything when the key is invalid |
| Ls47.Decryption | ls47.py:115-130 | decrypt raises check_key's error before producing anything when the key is invalid |
| Ls47.EncryptionFails | ls47.py:97-112 | with a valid key, encrypt succeeds exactly over the alphabet and otherwise reports the first symbol outside it |
| Ls47.RoundTrip | ls47.py:97-130 | `decrypt(key, encrypt(key, P)) == P`, and the ciphertext is as long as P |
| Ls47.RowTurned | ls47.py:108 | ls47's row rotation by one is the shared RowTurn with the marker staying |
| Ls47.ColumnTurned | ls47.py:109-111 | ls47's column rotation and marker advance are the shared ColumnTurn with the marker staying |
| Ls47.Encrypt | ls47.py:97-112 | the encrypt loop computes Encryption |
| Ls47.Decrypt | ls47.py:115-130 | the decrypt loop computes Decryption |
| Ls47.Padded | ls47.py:141 | the padded message has len(padding) + len(P) + 3 + len(signature) symbols |
| Ls47.EncryptPad | ls47.py:133-141 | encrypt_pad with a given padding is encrypt of `padding + P + '---' + signature` |
| Ls47.PadDecryption | ls47.py:144-146 | decrypt_pad raises check_key's error when the key is invalid |
| Ls47.DecryptPad | ls47.py:144-146 | decrypt_pad computes PadDecryption |
| Ls47.Unpadded | ls47.py:146 | dropping padding_size = 10 symbols from the padded message leaves `P + '---' + signature` |
| Ls47.PadRoundTrip | ls47.py:133-146 | for any 10-symbol padding, `decrypt_pad(key, encrypt_pad(key, P, S)) == P + '---' + S` |
| Ls47.TurnAgrees | ls47.py:91-92 | for shifts inside the grid, ls47's rotate_down of rotate_right is the shared one |
| Ls47.DerivedTurned | ls47.py:91-92 | one iteration with ls47's rotations is the shared DeriveStep, so the derivation of the password prefix moves on |
| Ls47.DeriveKey | ls47.py:87-94 | ls47.py's derive_key loop, with its own rotations, computes Derived(7, ·) |
| Ls47.DerivedKeyAccepted | ls47.py:87-94 | a key derived from a password passes ls47's check_key |

## Left out

- Command-line parsing, the help and version exits, and the `__main__` drivers (lc4.py:326-481, ls47.py:149-164): these are plumbing. `Lc4.Open`, `EncryptMessage` and `DecryptMessage` take the parsed choices as parameters.
- Reading keys, keywords and messages from files (lc4.py:423, 428, 439, 442): this is I/O. The model starts from the strings read.
- `eprint`, `printinfo` and the printing in `test1` (lc4.py:232-322): these only print. `EncryptThenDecrypt` models the exchange `test1` runs.
- `create_random_nonce` (lc4.py:202-203) and the random padding of `encrypt_pad` (ls47.py:138-139): these are calls into a random number generator. The nonce and the padding are parameters.
- Ls47.EncryptPad: requires a padding of padding_size alphabet symbols, which is what the generator produces.
- The text of error messages: errors are kinds carrying the offending symbols.
- `rotate_marker_right` and `rotate_marker_down` of ls47.py (ls47.py:73-84): ls47.py never calls them. The lc4.py versions are modelled.
- Shifts outside [0, size) for lc4.py's `rotate_right`, `rotate_down` and the marker rotations: encrypt and decrypt shift by 1, and derive_key by a coordinate of find_ix, which lies in [0, size) (lc4.py:157, 173-178), so no call shifts outside that range. Grid.RotateRight and Grid.RotateDown require `n < size`. ls47.py's rotations, which do normalise n, are modelled for every integer.
- The doc-comment test vector (lc4.py:28-31): twenty steps, each with two rotations of a concrete 36-symbol key, are far beyond what the verifier can evaluate symbolically.
- Repeated runs of ciphertext symbols under either marker mode (lc4.py:19-23): the source states no such property, only a single sample.
- Whether a message decrypts under the other nonce mode: the source makes no claim about it.
- Aliasing of the key between sessions: Dafny strings are values, so a `Session` cannot share its key with another.
