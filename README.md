# KeyboardLogic in Dafny

A model of `KeyboardLogic`, the logic behind a gaze- and gesture-driven
on-screen keyboard that completes words. The model covers four parts.

- **Preparation of the data.** The word file is read line by line, words
  are trimmed and lower-cased, and those of 2 to 35 characters are kept.
  The sorted character alphabet is built with the `'<PAD>'` index 0 and the
  maps between characters and indices. The model also gives the
  (prefix, word) training pairs, encoded and padded with zeros to the
  length of the longest word.
- **The suggestion engine.** `_predict_words` and `get_suggestions`. The
  trained network is an arbitrary function from the padded index sequence
  to a sequence of indices below `vocab_size`. Everything the code does
  with that output is modelled exactly: decoding without index 0, keeping
  only list words that start with the prefix, putting the prediction first,
  removing repeats and cutting at `n`.
- **The text buffer.** `select_key` covers space, backspace, caps lock and
  character keys with Python's `upper()`/`lower()`. `select_suggestion`
  replaces the last word.
- **The key grid.** `_init_key_rects` computes the rectangle of every key
  of the 5-row layout from the window constants of `config.py`.
  `update_selection` finds the first key, row by row, whose rectangle
  contains the gaze point. On the standard layout this agrees with a closed
  form. The bottom row's three keys are 233 pixels wide, so the pixel
  column x = 699 of that row selects no key.

Modules:

- `Text`: Python's `isspace`, `strip`, `split`, `' '.join`, `lower` and
  `upper`.
- `Seqs`: filtering, deduplication and prefixes of sequences.
- `Vocabulary`: the word list and the alphabet maps.
- `TrainingData`: pairs, padding and `PrepareData`.
- `Suggestions`: `PredictWords`.
- `KeyGrid`: geometry and hit testing.
- `Keyboard`: the class `KeyboardLogic` with its fields `currentText`,
  `capsLock` and `selectedKey`.

## Model

| member | source | states |
|---|---|---|
| Text.Strip | KeyboardLogic.py:47 | `strip()` is empty exactly for an all-white-space line; otherwise it neither starts nor ends with white space |
| Text.StripInfix | KeyboardLogic.py:47 | `strip()` is the infix of the line left after removing its leading and its trailing white space |
| Text.SplitWords | KeyboardLogic.py:141 | `split()` yields only non-empty words without white space |
| Text.SplitEmpty | KeyboardLogic.py:139-141 | `split()` yields nothing exactly for an all-white-space text, so `[-1]` is defined once `strip()` is non-empty |
| Text.SplitJoin | KeyboardLogic.py:170 | splitting `' '.join(ws)` gives back the words `ws` |
| Text.SplitAround | KeyboardLogic.py:170 | a white-space character separates words: `(a + c + b).split() == a.split() + b.split()` |
| Text.SplitWord | KeyboardLogic.py:170 | a word without white space splits into itself |
| Text.SplitSnocWord | KeyboardLogic.py:141 | a non-white-space character appended right after one extends the last word of `split()` |
| Text.SplitSnocNew | KeyboardLogic.py:141 | a non-white-space character appended to an empty text or after white space adds a new last word |
| Text.LowerIdempotent | KeyboardLogic.py:47 | lower-casing an already lower-cased line changes nothing |
| Text.UpperUndoesLower | KeyboardLogic.py:136 | every ASCII or Latin-1 capital has a distinct small form, and `upper()` of that small form gives the capital back |
| Text.LowerUndoesUpper | KeyboardLogic.py:136 | every ASCII or Latin-1 small letter but µ, ß and ÿ has a one-character capital distinct from it, and `lower()` of that capital gives the letter back |
| Text.LowerAppend | KeyboardLogic.py:141 | lower-casing a concatenation lower-cases each part |
| Text.LowerKeepsSpace | KeyboardLogic.py:47 | lower-casing never changes which characters count as white space |
| Seqs.FilterMember | KeyboardLogic.py:48 | a list comprehension with a condition keeps exactly the elements that satisfy it |
| Seqs.Dedup | KeyboardLogic.py:159-163 | "append unless present" yields a repeat-free list with the same elements |
| Seqs.DedupPrefix | KeyboardLogic.py:162-165 | stopping the deduplicating loop early yields a prefix of the full result |
| Vocabulary.LoadWords | KeyboardLogic.py:46-48 | every word loaded has no white space at either end and is 2 to 35 characters long |
| Vocabulary.LoadWordsLines | KeyboardLogic.py:46-48 | the word list keeps the order of the file's lines: each line contributes its stripped, lowered word when that has 2 to 35 characters |
| Vocabulary.LoadWordsAppend | KeyboardLogic.py:46-48 | loading is line by line: loading two files one after the other is loading their concatenation |
| Vocabulary.Alphabet | KeyboardLogic.py:50 | `sorted(set(''.join(words)))` is strictly increasing and holds exactly the characters of the words |
| Vocabulary.JoinedMember | KeyboardLogic.py:50 | a character is in `''.join(words)` exactly when it is in one of the words |
| Vocabulary.SortedUnique | KeyboardLogic.py:50 | two strictly increasing sequences with the same elements are equal, so the alphabet does not depend on how it is sorted |
| Vocabulary.CharIndexAt | KeyboardLogic.py:51-52 | `'<PAD>'` has index 0 and the k-th character of the alphabet has index k + 1 |
| Vocabulary.IndexCharInverts | KeyboardLogic.py:53 | `idx_to_char` is defined exactly on 0..number of characters and is the inverse of `char_to_idx` in both directions |
| Vocabulary.VocabSizeIs | KeyboardLogic.py:54 | `vocab_size` is the number of distinct characters plus one |
| TrainingData.PrepareData | KeyboardLogic.py:44-71 | `_prepare_data` on the file's lines returns the prepared data `Build(LoadWords(lines))`, and fails when no pair exists |
| TrainingData.GeneratePairs | KeyboardLogic.py:58-67 | the nested loops yield, in order, the encoded prefix and the encoded word of every pair |
| TrainingData.AllPairsFrom | KeyboardLogic.py:59-61 | every pair is a proper, non-empty prefix of a word of the list, paired with that word |
| TrainingData.AllPairsComplete | KeyboardLogic.py:59-61 | every proper, non-empty prefix of every word occurs as a pair |
| TrainingData.AllPairsCount | KeyboardLogic.py:59-60 | the number of pairs is the sum over the words of their length minus one |
| TrainingData.PadRow | KeyboardLogic.py:70-71 | padding keeps the row as a prefix and fills it with zeros up to the length; a longer row is unchanged |
| TrainingData.MaxLen | KeyboardLogic.py:69 | `max(len(seq) for seq in y)` bounds every row and is reached by one |
| TrainingData.DecodeEncode | KeyboardLogic.py:63-65 | decoding the indices of a string over the alphabet gives the string back |
| TrainingData.DecodePadded | KeyboardLogic.py:70 | the zeros added by padding decode to nothing |
| TrainingData.BuildFails | KeyboardLogic.py:69 | the preparation fails exactly when there is no pair, that is when no word is left |
| TrainingData.BuildMaxSeqLen | KeyboardLogic.py:69 | `max_seq_len` is the length of the longest word |
| TrainingData.BuildShape | KeyboardLogic.py:66-71 | there are as many inputs as targets as pairs, and every row has length `max_seq_len` |
| TrainingData.BuildDecodes | KeyboardLogic.py:61-71 | the k-th padded input decodes to the k-th prefix and the k-th padded target to its word |
| TrainingData.BuildVocabulary | KeyboardLogic.py:50-54 | every index below `vocab_size` has a character, and `idx_to_char` undoes `char_to_idx` |
| Suggestions.Candidates | KeyboardLogic.py:156 | every candidate is a word of the list that starts with the prefix |
| Suggestions.PredictWords | KeyboardLogic.py:144-165 | returns `Suggest`: nothing for an empty prefix or one with a character outside the alphabet; otherwise at most `n` distinct list words starting with the prefix; `n` defaults to 3 |
| Suggestions.RankLoop | KeyboardLogic.py:157-165 | the loop with its early `break`, then `[:n]`, yields the first `n` distinct words of the prediction followed by the candidates |
| Suggestions.SuggestBounds | KeyboardLogic.py:144-165 | for any network, a query yields at most `n` distinct list words starting with the prefix |
| Suggestions.RankedBounds | KeyboardLogic.py:157-165 | the ranking has at most `n` words, no repeats, and only candidates |
| Suggestions.RankedLead | KeyboardLogic.py:158-159 | for `n > 0`, the prediction is the first suggestion exactly when it is a candidate |
| Suggestions.RankedIgnoresNonCandidate | KeyboardLogic.py:158-165 | a prediction that is not a candidate changes nothing: the result is the first `n` distinct candidates |
| Suggestions.DedupCount | KeyboardLogic.py:158-163 | before the cut, the suggestion list holds each distinct candidate exactly once |
| Suggestions.RankedComplete | KeyboardLogic.py:160-165 | when there are at most `n` distinct candidates, every one of them is suggested |
| Suggestions.CasaScenario | KeyboardLogic.py:144-165 | for the words casa, caso, caminar and the prefix "ca", the three suggestions are exactly these words, with the prediction first when it is one of them, and in list order when it is not |
| KeyGrid.InitKeyRects | KeyboardLogic.py:105-116 | the rectangles have the shape of the layout, and key j of row i has width 700 // (keys in the row), height 300 // (rows), x = j * width and y = 210 + i * height |
| KeyGrid.LayoutShape | KeyboardLogic.py:35-41 | the layout has four rows of ten keys and a row of three |
| KeyGrid.RowHit | KeyboardLogic.py:120-124 | the inner loop finds the first rectangle of the row that contains the point, or finds there is none |
| KeyGrid.FirstHit | KeyboardLogic.py:118-124 | the hit is a key containing the point with no containing key before it in row-major order; there is none exactly when no key contains the point |
| KeyGrid.FirstHitIs | KeyboardLogic.py:118-124 | a containing key with no containing key before it is the one selected |
| KeyGrid.GridDisjoint | KeyboardLogic.py:105-116 | no point lies on two keys |
| KeyGrid.StandardHit | KeyboardLogic.py:105-124 | on the standard layout the selection is row (y - 210) // 60 and column x // 70 (or x // 233 in the bottom row); the column x = 699 of the bottom row and every point off the keyboard select nothing |
| Keyboard.DropLast | KeyboardLogic.py:132 | `text[:-1]` removes the last character, and leaves the empty text empty |
| Keyboard.Press | KeyboardLogic.py:126-136 | only 'BORRAR' shortens the text, by one character and never below empty; every other key only appends; only 'MAYUS' changes the caps-lock flag |
| Keyboard.BackspaceUndoes | KeyboardLogic.py:129-132 | 'BORRAR' undoes a key that typed one character |
| Keyboard.LayoutUndo | KeyboardLogic.py:126-136 | typing any layout key except 'BORRAR' and 'MAYUS', then 'BORRAR', restores both the text and the caps-lock flag |
| Keyboard.PlainTypesOne | KeyboardLogic.py:135-136 | a digit, a small ASCII letter, 'ñ', ',', '.' or ';' typed with `upper()` or `lower()` yields one character that lower-cases back to it, and it is not white space |
| Keyboard.LayoutKeysTypeOne | KeyboardLogic.py:135-136 | every character key types one character in either case, and lower-casing it gives the key back, so caps lock does not change the prefix that is completed; no key character is white space |
| Keyboard.CapsInvolution | KeyboardLogic.py:133-134 | 'MAYUS' twice restores the buffer, and 'MAYUS' never changes the text |
| Keyboard.AllButLast | KeyboardLogic.py:169-170 | `words[:-1]` is a prefix one shorter, or empty |
| Keyboard.ReplaceSplit | KeyboardLogic.py:167-170 | after a suggestion is chosen the text's words are its old words but the last, then the suggestion's words |
| Keyboard.ReplaceLastWord | KeyboardLogic.py:167-170 | a chosen one-word suggestion becomes the last word of the text |
| Keyboard.LastWordSnoc | KeyboardLogic.py:141 | appending a non-white-space character extends the last word when the text ends in one, and otherwise makes it the new last word |
| Keyboard.SuggestionsSnoc | KeyboardLogic.py:138-142 | after appending a non-white-space character, `get_suggestions` completes the old last word lower-cased followed by the character lower-cased, or that character alone after white space or at the start |
| Keyboard.TypingRefinesSuggestions | KeyboardLogic.py:126-142 | after `select_key` of a character key of the layout, with caps lock on or off, the text is not blank and `get_suggestions` completes the lower-cased last word followed by the key, or the key alone when the text was empty or ended in white space |
| Keyboard.SuggestionsForBounds | KeyboardLogic.py:138-142 | a blank text has no suggestions; otherwise at most `n` distinct list words, each starting with the lower-cased last word |
| Keyboard.KeyboardLogic.constructor | KeyboardLogic.py:23-42 | the text is empty, caps lock is off, no key is selected, the data is the prepared data of the file, and the rectangles are those of the layout |
| Keyboard.KeyboardLogic.SelectKey | KeyboardLogic.py:126-136 | the new text and caps-lock flag are `Press` of the old ones, and the selection is unchanged |
| Keyboard.KeyboardLogic.SelectSuggestion | KeyboardLogic.py:167-172 | the new text is the old one with its last word replaced by the suggestion and a blank; an empty suggestion changes nothing |
| Keyboard.KeyboardLogic.GetSuggestions | KeyboardLogic.py:138-142 | returns nothing for a blank text, otherwise the suggestions for the lower-cased last word, at most `n` of them, with `n` defaulting to 3 |
| Keyboard.KeyboardLogic.UpdateSelection | KeyboardLogic.py:118-124 | the selected key is the first key, row by row, that contains the gaze point, or none; the text and caps-lock flag are unchanged |
| Keyboard.SelectionOnLayout | KeyboardLogic.py:118-124 | on a constructed keyboard the selection follows the closed form of `StandardHit` |

## Left out

- The network `WordCompletionLSTM` (KeyboardLogic.py:9-20), its training and loading (KeyboardLogic.py:76-103), and the softmax and argmax of `_predict_words` (KeyboardLogic.py:151-153) are left out. They involve floating point and a neural network. The model takes the trained network as a parameter: a function from the padded input to the argmax indices, each below `vocab_size` as the output layer guarantees.
- The torch tensors (KeyboardLogic.py:72-73, 150) are left out: the model keeps the padded lists of integers they are built from.
- Reading `palabras.txt`, the progress messages and the model file are left out. The constructor receives the lines of the word file.
- The click sound (`pygame.mixer`) is left out.
- `pygame.Rect` is modelled by its four integer fields and `collidepoint` only. Gaze coordinates are integers.
- `Text.LowerChar`, `Text.Lower`, `Text.UpperChar`: the case mappings are exact for ASCII and Latin-1 only. Python maps all of Unicode, which would take the Unicode tables.
- `Suggestions.PredictWords`, `Keyboard.KeyboardLogic.GetSuggestions`: `n` is a natural number. A negative `n` is not modelled, because Python's `[:n]` then counts from the end.
- `KeyGrid.InitKeyRects`: requires a non-empty layout with non-empty rows. Otherwise the source fails with a division by zero.
- `Keyboard.KeyboardLogic.constructor`: requires a word file that leaves at least one word, since the source fails at `max()` of an empty sequence. The failure is modelled by `TrainingData.PrepareData` returning `Err(NoTrainingPairs)`.
- The loops of `_prepare_data` and `_predict_words` are the separate methods `TrainingData.GeneratePairs` and `Suggestions.RankLoop`, called from `PrepareData` and `PredictWords`.
- KeyboardUI.py, hand_tracker.py and the colours, fonts and video settings of config.py are not part of this model.
