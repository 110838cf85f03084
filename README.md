# translation4tru in Dafny

This project models the word-level dictionary translator of translation4tru.
It covers three functions:

- `load_cleanpairs` reads a pair file into a dictionary from source word to
  target word.
- `translate_text` splits a text block into lines and each line into word
  tokens. It looks each token up whole first. A hyphenated token that is not
  a key is looked up sub-word by sub-word. Whatever is not found is copied
  with the out-of-vocabulary (OOV) marker in front and recorded as unknown.
- `translate_corpus` applies `translate_text` to one column of every row of a
  CSV corpus. It gathers the unknown words into a set and, optionally, a
  frequency map, and hands the rows to the CSV writer in batches of
  `update_interval` data rows.

Modules:

- `Strings` (`strings.dfy`): Python's `str.split(sep)` and `sep.join`, with
  their round-trip laws.
- `Tokenizer` (`tokenizer.dfy`): `re.findall(r"(?u)\b[\w-]+\b", line)`.
  Which characters `\w` accepts is the parameter `wordChar`; the model
  assumes only that the hyphen is not a word character. The pattern yields
  one token per maximal run of `[\w-]` characters, with the run's leading
  and trailing hyphens removed, and nothing for a run of hyphens only. A
  match must begin after a word boundary and end before one, so the greedy
  match backs off to the last word character of its run.
- `PairLoader` (`pair_loader.dfy`): `load_cleanpairs`. The file is given as
  its sequence of records, already split into fields. A missing file is
  `None`.
- `Translator` (`translator.dfy`): `translate_text`.
  - The looping method `TranslateText` follows the source's three nested
    loops: lines, tokens and hyphen sub-words.
  - It is proved equal to the recursive specification `Translate`.
  - The properties are lemmas about `Translate`.
- `Corpus` (`corpus.dfy`): `translate_corpus`.
  - The CSV writer is modelled by two ghost results: `written`, the rows
    handed to it, and `batches`, one entry per `writerows` call.
  - The functions that describe the output take the text translation as a
    parameter. `translate_corpus` instantiates it with `TextTranslator`,
    which is `translate_text` with the corpus settings.

## Model

| member | source | states |
|---|---|---|
| PairLoader.LoadCleanPairs | translation4tru.py:15-44 | a missing file gives the empty dictionary; otherwise the result is `Pairs` of the records: two-field records only, keyed by the first field (the second when reversed), later records overriding earlier ones |
| PairLoader.PairsKeys | translation4tru.py:28-43 | a word is a key exactly when some two-field record has it in the key position |
| PairLoader.PairsLastWins | translation4tru.py:31-34 | the last two-field record with a given key decides that key's value |
| PairLoader.PairsDistinctKeys | translation4tru.py:16 | when keys are distinct ("assume no duplicates"), the dictionary has one entry per record |
| Strings.Split | translation4tru.py:61 | `split` gives at least one piece; no piece contains the separator; every character of a piece comes from the text |
| Strings.Join | translation4tru.py:74-79 | `sep.join(parts)`: the empty list joins to the empty text, and a join begins with its first part; its partner lemmas `JoinSplit` and `SplitJoin` show it is the inverse of `Split` |
| Strings.JoinSplit | translation4tru.py:61 | joining the pieces of a split with the separator gives back the text |
| Strings.SplitJoin | translation4tru.py:74 | splitting a join of separator-free parts gives back the parts |
| Strings.JoinAvoids | translation4tru.py:78-79 | a character in neither the parts nor the separator is not in their join |
| Tokenizer.Tokens | translation4tru.py:56-63 | `re.findall` with the word pattern: one token per maximal `[\w-]` run, leading and trailing hyphens stripped, all-hyphen runs dropped; never more tokens than characters. `TokensWellFormed`, `TokensSeparated`, `TokensOfRun` and `TokensWithoutWordChar` state its properties |
| Tokenizer.RunLengthMaximal | translation4tru.py:56 | the run found at the front is made of `[\w-]` characters, and the next character is not one |
| Tokenizer.RunTokenIsToken | translation4tru.py:56 | the token a run contributes is non-empty, begins and ends with a word character, and holds only run characters |
| Tokenizer.TokensWellFormed | translation4tru.py:56-63 | every token found in a line is non-empty, begins and ends with a word character, holds only `[\w-]` characters, and each of its characters occurs in the line |
| Tokenizer.TokensSeparated | translation4tru.py:56-63 | a character outside `[\w-]` separates tokens: the tokens of the text before it and after it, in that order |
| Tokenizer.TokensOfRun | translation4tru.py:56-63 | a line of `[\w-]` characters only yields itself with its hyphens stripped, or nothing if it is all hyphens |
| Tokenizer.TokensWithoutWordChar | translation4tru.py:56-63 | a line without a word character yields no token, so punctuation and lone hyphens are dropped |
| Translator.TranslateToken | translation4tru.py:64-77 | the output of one token and the unknown words it appends equal `TranslateWord` of that token |
| Translator.TranslateOneLine | translation4tru.py:62-78 | the output of one line and the unknown words it appends equal `TranslateLine` of that line |
| Translator.TranslateText | translation4tru.py:47-79 | the translated text and the unknown-word list equal `Translate` of the text |
| Translator.PiecesAt | translation4tru.py:67-74 | one piece per hyphen sub-word: its translation when it is a key, else the marker followed by the sub-word |
| Translator.TranslateWordsAt | translation4tru.py:62-78 | one output word per token, and output word k is the translation of token k |
| Translator.TranslateLinesAt | translation4tru.py:61-78 | one output line per input line, and output line k is the translation of line k |
| Translator.KnownTokenFirst | translation4tru.py:64-65 | a token that is a key, hyphenated or not, becomes exactly its dictionary value and adds no unknown word |
| Translator.HyphenFallback | translation4tru.py:66-74 | a hyphenated token that is not a key becomes the hyphen-join of one piece per `split('-')` element, and its unknown words are exactly the sub-words that are not keys |
| Translator.UnknownTokenMarked | translation4tru.py:75-77 | a token that is neither a key nor hyphenated becomes the marker followed by the token and adds exactly that token as unknown; with an empty marker it is copied over unchanged, for any dictionary |
| Translator.UnresolvedNotKeys | translation4tru.py:68-73 | the unresolved sub-words are not keys, and there are none exactly when every sub-word is a key |
| Translator.TranslateWordUnknown | translation4tru.py:64-77 | a token adds unknown words exactly when it does not resolve, and none of them is a key |
| Translator.TranslateWordsUnknown | translation4tru.py:63-77 | over a line: no unknown word is a key, and there are none exactly when every token resolves |
| Translator.TranslateLinesUnknown | translation4tru.py:61-77 | over lines: no unknown word is a key, and there are none exactly when every token of every line resolves |
| Translator.UnknownWords | translation4tru.py:59-79 | no word on the returned unknown list is a key, and the list is empty exactly when every token of every line resolves |
| Translator.EmptyText | translation4tru.py:58-79 | the empty text translates to the empty text with no unknown words |
| Translator.TranslateWordNoNewline | translation4tru.py:64-77 | with the marker and the values free of newlines, a token's output has no newline |
| Translator.TranslateLineNoNewline | translation4tru.py:62-78 | with the marker and the values free of newlines, a line's output has no newline |
| Translator.LineStructure | translation4tru.py:58-79 | with `keeplines` and the marker and values free of newlines, the output has as many lines as the input, and output line k is the translation of input line k |
| Translator.SingleLineOutput | translation4tru.py:58-79 | without `keeplines`, and with the marker and values free of newlines, the output is a single line |
| Translator.PiecesPassThrough | translation4tru.py:71-72 | with no entries and an empty marker, every sub-word is copied unchanged |
| Translator.TranslateWordsPassThrough | translation4tru.py:75-76 | with no entries and an empty marker, every token is copied unchanged, hyphenated ones included |
| Translator.LinePassThrough | translation4tru.py:52-53 | with no entries and an empty marker, a line becomes its tokens joined by single spaces, so only punctuation and spacing are lost |
| Corpus.TranslatedRowsAt | translation4tru.py:126 | one output row per data row, of the same width: the text column holds the translation, and every other field is copied unchanged |
| Corpus.UnknownSetMembers | translation4tru.py:115-117 | a word is in the unknown set exactly when the unknown list of some data row holds it |
| Corpus.UnknownBagSupport | translation4tru.py:120-125 | the words counted in the frequency map are exactly the unknown set |
| Corpus.TranslateRow | translation4tru.py:113-114 | a row's translated form and its unknown words come from `translate_text` of its text column |
| Corpus.AddCounts | translation4tru.py:121-125 | the counted words are the old ones plus the new ones, and each count grows by that word's number of occurrences |
| Corpus.RecordUnknowns | translation4tru.py:115-125 | the set gains the row's unknown words; when tracking, the map becomes the frequency map of all occurrences so far; otherwise it is unchanged |
| Corpus.TranslateDataRow | translation4tru.py:113-126 | after one data row, the translated row is that row's translation, and the unknown set and frequency map cover one more row |
| Corpus.BufferRow | translation4tru.py:127-131 | appending a row keeps the buffer under `update_interval` data rows; a flush hands the writer a batch of exactly `update_interval` data rows; writer output followed by the buffer grows by the row |
| Corpus.BufferDataRow | translation4tru.py:126-131 | after buffering data row k, writer output followed by the buffer is the header and the first k+1 translated rows |
| Corpus.FinalFlush | translation4tru.py:134-135 | the last, possibly short, batch holds the rest of the buffer, and the batches together are all rows written |
| Corpus.TranslateCorpus | translation4tru.py:82-143 | the count is the number of data rows. The writer receives the header unchanged and then every data row translated, in order. The batches concatenate to exactly that. Every batch but the last holds `update_interval` data rows, and the last holds fewer. The unknown set is the union over all rows. When tracking, the map counts every occurrence; otherwise it is empty |

## Left out

- File access, the CSV reader and writer, and the `usecsv` switch are not modelled. Both branches of `load_cleanpairs` do the same thing once a line is split into fields, so the model takes the records directly. `str.split()` on whitespace is not part of this model.
- The Unicode table behind `\w` is the parameter `wordChar`. The model assumes only that `-` is not a word character.
- `print` calls are left out: unknown words per row when `show_unknown` is set, the progress lines, and the finishing time from `datetime.now()`. So is `csv.field_size_limit`.
- `display_translation_byrow` and `display_translation_bycontent` only print rows for inspection, so they are not modelled.
- The source recognises line breaks only as `'\n'` (`text.split('\n')`), and the model follows it. It does not split on other line-break characters.
- Corpus.TranslateCorpus requires at least one data row. The source fails on an empty data section, because `counter` is never bound; with `header` set and an empty file, `next` raises `StopIteration`.
- Corpus.TranslateCorpus requires every data row to have a field at `textcol` and `update_interval > 0`. The source raises `IndexError` or `ZeroDivisionError` on those inputs.
- Corpus.TranslateCorpus takes `textcol` as a natural number. Python's negative indexing from the row's end is not modelled.
- Corpus.TranslateCorpus requires a positive `update_interval`. With a negative interval, Python's floored `%` would flush every |interval| rows; that case is not modelled.
- Corpus.TranslateCorpus always returns a frequency map, and it is empty when tracking is off. The source then returns a pair without the map.
- The source overwrites the text field of the row object it read and buffers that object. The model builds a new row value, so the aliasing of reader rows and written rows is not captured.
