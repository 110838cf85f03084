/** Translating a corpus row by row (`translate_corpus`).

    The corpus is the sequence of records the CSV reader yields; the CSV
    writer is the ghost sequence `written` of rows it has been handed, and
    `batches` the sequence of `writerows` calls, one per flush.

    The functions that describe the output take the text translation as a
    parameter `tr`; `translate_corpus` uses `TextTranslator`, that is
    `translate_text` with its own dictionary, marker and line setting. */
module Corpus {

  import opened Translator

  type Row = seq<string>

  /** `translate_text` with the corpus-level settings, as a function of the text. */
  function TextTranslator(dict: Dict, marker: string, keeplines: bool, wordChar: char -> bool): string -> Translation
    requires !wordChar('-')
  {
    text => Translate(text, dict, marker, keeplines, wordChar)
  }

  /** Every row has a field at `textcol`. */
  predicate HasTextColumn(rows: seq<Row>, textcol: nat)
  {
    forall k :: 0 <= k < |rows| ==> textcol < |rows[k]|
  }

  /** The header row, if there is one. */
  function HeaderRows(input: seq<Row>, header: bool): seq<Row>
  {
    if header && input != [] then [input[0]] else []
  }

  /** The rows after the header. */
  function DataRows(input: seq<Row>, header: bool): seq<Row>
  {
    if header && input != [] then input[1..] else input
  }

  /** A row with its text column replaced by that text's translation. */
  function TranslatedRow(row: Row, textcol: nat, tr: string -> Translation): Row
    requires textcol < |row|
  {
    row[textcol := tr(row[textcol]).text]
  }

  /** The unknown words of a row's text column, in order. */
  function RowUnknowns(row: Row, textcol: nat, tr: string -> Translation): seq<string>
    requires textcol < |row|
  {
    tr(row[textcol]).unknown
  }

  /** The first `n` rows, each translated, in order. */
  function TranslatedRows(rows: seq<Row>, n: nat, textcol: nat, tr: string -> Translation): seq<Row>
    requires n <= |rows| && HasTextColumn(rows, textcol)
  {
    if n == 0 then []
    else TranslatedRows(rows, n - 1, textcol, tr) + [TranslatedRow(rows[n - 1], textcol, tr)]
  }

  /** The union of the unknown words of the first `n` rows. */
  function UnknownSet(rows: seq<Row>, n: nat, textcol: nat, tr: string -> Translation): set<string>
    requires n <= |rows| && HasTextColumn(rows, textcol)
  {
    if n == 0 then {}
    else
      var last := RowUnknowns(rows[n - 1], textcol, tr);
      UnknownSet(rows, n - 1, textcol, tr) + set w | w in last
  }

  /** Every occurrence of an unknown word in the first `n` rows. */
  function UnknownBag(rows: seq<Row>, n: nat, textcol: nat, tr: string -> Translation): multiset<string>
    requires n <= |rows| && HasTextColumn(rows, textcol)
  {
    if n == 0 then multiset{}
    else UnknownBag(rows, n - 1, textcol, tr) + multiset(RowUnknowns(rows[n - 1], textcol, tr))
  }

  /** One row further: the translated rows, the unknown set and the unknown
      bag each take in row `n`. */
  lemma RowStep(rows: seq<Row>, n: nat, textcol: nat, tr: string -> Translation)
    requires n < |rows| && HasTextColumn(rows, textcol)
    ensures TranslatedRows(rows, n + 1, textcol, tr) ==
              TranslatedRows(rows, n, textcol, tr) + [TranslatedRow(rows[n], textcol, tr)]
    ensures UnknownSet(rows, n + 1, textcol, tr) ==
              UnknownSet(rows, n, textcol, tr) + set w | w in RowUnknowns(rows[n], textcol, tr)
    ensures UnknownBag(rows, n + 1, textcol, tr) ==
              UnknownBag(rows, n, textcol, tr) + multiset(RowUnknowns(rows[n], textcol, tr))
  {
  }

  /** There is one output row per data row, of the same width; its text
      column holds the translation of the input text and every other field
      is copied unchanged. */
  lemma {:induction false} TranslatedRowsAt(rows: seq<Row>, n: nat, textcol: nat, tr: string -> Translation)
    requires n <= |rows| && HasTextColumn(rows, textcol)
    ensures var out := TranslatedRows(rows, n, textcol, tr);
            |out| == n &&
            forall k :: 0 <= k < n ==>
              |out[k]| == |rows[k]| &&
              out[k][textcol] == tr(rows[k][textcol]).text &&
              forall f :: 0 <= f < |rows[k]| && f != textcol ==> out[k][f] == rows[k][f]
    decreases n
  {
    if n > 0 {
      TranslatedRowsAt(rows, n - 1, textcol, tr);
    }
  }

  /** A word is among the unknown words of the first `n` rows exactly when
      the unknown list of one of those rows holds it. */
  lemma {:induction false} UnknownSetMembers(rows: seq<Row>, n: nat, textcol: nat, tr: string -> Translation, w: string)
    requires n <= |rows| && HasTextColumn(rows, textcol)
    ensures w in UnknownSet(rows, n, textcol, tr) <==>
              exists k :: 0 <= k < n && w in RowUnknowns(rows[k], textcol, tr)
    decreases n
  {
    if n > 0 {
      UnknownSetMembers(rows, n - 1, textcol, tr, w);
    }
  }

  /** The words counted in the frequency map are exactly the unknown set. */
  lemma {:induction false} UnknownBagSupport(rows: seq<Row>, n: nat, textcol: nat, tr: string -> Translation)
    requires n <= |rows| && HasTextColumn(rows, textcol)
    ensures FrequencyMap(UnknownBag(rows, n, textcol, tr)).Keys == UnknownSet(rows, n, textcol, tr)
    decreases n
  {
    if n > 0 {
      UnknownBagSupport(rows, n - 1, textcol, tr);
    }
  }

  /** The rows of all batches, in order. */
  function Concat(batches: seq<seq<Row>>): seq<Row>
    decreases |batches|
  {
    if batches == [] then [] else Concat(batches[..|batches| - 1]) + batches[|batches| - 1]
  }

  /** How many data rows a batch holds: the header, if any, rides in the first batch. */
  function DataInBatch(batches: seq<seq<Row>>, b: nat, header: bool): int
    requires b < |batches|
  {
    |batches[b]| - (if header && b == 0 then 1 else 0)
  }

  /** `n` batches of `u` rows, that is `n * u`, counted by repeated addition
      so that the batch bookkeeping stays free of nonlinear arithmetic;
      `TimesIsProduct` relates it to the product. */
  function Times(n: nat, u: nat): nat
  {
    if n == 0 then 0 else Times(n - 1, u) + u
  }

  /** After `n` full batches and `r` more rows, the row count leaves remainder `r`. */
  lemma {:induction false} TimesMod(n: nat, u: nat, r: nat)
    requires r < u
    ensures (Times(n, u) + r) % u == r
  {
    TimesIsProduct(n, u);
    var x := n * u + r;
    var q, m := x / u, x % u;
    var e := n - q;
    assert e * u == m - r;
    ProductBounds(e, u);
  }

  /** After `n` full batches, a buffer of `d` data rows (`0 < d <= u`)
      brings the row count to a multiple of `u` exactly when it is full. */
  lemma FlushWhenFull(n: nat, u: nat, d: nat)
    requires 0 < d <= u
    ensures (Times(n, u) + d) % u == 0 <==> d == u
  {
    if d == u {
      TimesMod(n + 1, u, 0);
    } else {
      TimesMod(n, u, d);
    }
  }

  /** A non-zero multiple of a positive `u` is at least `u` away from zero. */
  lemma ProductBounds(e: int, u: int)
    ensures e >= 1 && u > 0 ==> e * u >= u
    ensures e <= -1 && u > 0 ==> e * u <= -u
  {
  }

  lemma {:induction false} TimesIsProduct(n: nat, u: nat)
    ensures Times(n, u) == n * u
  {
    if n > 0 {
      TimesIsProduct(n - 1, u);
    }
  }

  /** The frequency map of a bag: each word in it, with its multiplicity. */
  ghost function FrequencyMap(bag: multiset<string>): map<string, nat>
  {
    map w | w in bag :: bag[w]
  }

  /** Every batch handed to the writer so far holds exactly `updateInterval` data rows. */
  predicate FullBatches(batches: seq<seq<Row>>, header: bool, updateInterval: nat)
  {
    forall b :: 0 <= b < |batches| ==> DataInBatch(batches, b, header) == updateInterval
  }

  /** Where the run stands in its batch cycle: `counter` data rows are done,
      `|batches|` full batches were flushed, and the buffer holds the rest
      (plus the header while nothing has been flushed). */
  predicate BufferPosition(counter: nat, rows2write: seq<Row>, batches: seq<seq<Row>>, header: bool, updateInterval: nat)
  {
    var headerRows := if header && batches == [] then 1 else 0;
    headerRows <= |rows2write| &&
    |rows2write| - headerRows < updateInterval &&
    counter == Times(|batches|, updateInterval) + |rows2write| - headerRows
  }

  /** Append the translated row to the buffer and, every `updateInterval`
      data rows, hand the buffer to the writer and empty it. */
  method BufferRow(counter: nat, row: Row, rows2write: seq<Row>, header: bool, updateInterval: nat,
                   ghost written: seq<Row>, ghost batches: seq<seq<Row>>)
    returns (buffered: seq<Row>, ghost writtenAfter: seq<Row>, ghost batchesAfter: seq<seq<Row>>)
    requires updateInterval > 0
    requires BufferPosition(counter, rows2write, batches, header, updateInterval)
    requires FullBatches(batches, header, updateInterval)
    requires Concat(batches) == written
    ensures BufferPosition(counter + 1, buffered, batchesAfter, header, updateInterval)
    ensures FullBatches(batchesAfter, header, updateInterval)
    ensures Concat(batchesAfter) == writtenAfter
    ensures writtenAfter + buffered == written + rows2write + [row]
  {
    buffered, writtenAfter, batchesAfter := rows2write + [row], written, batches;
    var headerRows := if header && batches == [] then 1 else 0;
    var d := |buffered| - headerRows;
    FlushWhenFull(|batches|, updateInterval, d);
    if (counter + 1) % updateInterval == 0 {
      assert d == updateInterval;
      writtenAfter := writtenAfter + buffered;
      batchesAfter := batchesAfter + [buffered];
      assert batchesAfter[..|batches|] == batches;
      assert DataInBatch(batchesAfter, |batches|, header) == updateInterval;
      assert forall b :: 0 <= b < |batches| ==> DataInBatch(batchesAfter, b, header) == DataInBatch(batches, b, header);
      buffered := [];
    }
  }

  /** Counting the occurrences of `words` into the frequency map `fd`. */
  method AddCounts(fd: map<string, nat>, words: seq<string>) returns (counted: map<string, nat>)
    ensures forall w :: w in counted <==> w in fd || w in words
    ensures forall w :: w in counted ==> counted[w] == (if w in fd then fd[w] else 0) + multiset(words)[w]
  {
    counted := fd;
    var j := 0;
    while j < |words|
      invariant 0 <= j <= |words|
      invariant forall w :: w in counted <==> w in fd || w in words[..j]
      invariant forall w :: w in counted ==> counted[w] == (if w in fd then fd[w] else 0) + multiset(words[..j])[w]
    {
      var word := words[j];
      assert words[..j + 1] == words[..j] + [word];
      if word in counted {
        counted := counted[word := counted[word] + 1];
      } else {
        counted := counted[word := 1];
      }
      j := j + 1;
    }
    assert words[..j] == words;
  }

  /** The bookkeeping after one row: its unknown words join the run-level set
      and, when tracking, are counted once per occurrence. */
  method RecordUnknowns(allUnknown: set<string>, unknownFD: map<string, nat>, unknownWords: seq<string>,
                        trackUnknown: bool, ghost bag: multiset<string>)
    returns (allAfter: set<string>, fdAfter: map<string, nat>)
    requires trackUnknown ==> unknownFD == FrequencyMap(bag)
    ensures allAfter == allUnknown + set w | w in unknownWords
    ensures trackUnknown ==> fdAfter == FrequencyMap(bag + multiset(unknownWords))
    ensures !trackUnknown ==> fdAfter == unknownFD
  {
    allAfter, fdAfter := allUnknown, unknownFD;
    if |unknownWords| > 0 {
      allAfter := allAfter + set w | w in unknownWords;
      if trackUnknown {
        fdAfter := AddCounts(fdAfter, unknownWords);
        assert fdAfter == FrequencyMap(bag + multiset(unknownWords));
      }
    }
    assert unknownWords == [] ==> bag + multiset(unknownWords) == bag;
  }

  /** One data row: its text column translated, and the unknown words found there. */
  method TranslateRow(row: Row, dict: Dict, oovMarker: string, textcol: nat, keeplines: bool, wordChar: char -> bool)
    returns (translatedRow: Row, unknownWords: seq<string>)
    requires textcol < |row| && !wordChar('-')
    ensures translatedRow == TranslatedRow(row, textcol, TextTranslator(dict, oovMarker, keeplines, wordChar))
    ensures unknownWords == RowUnknowns(row, textcol, TextTranslator(dict, oovMarker, keeplines, wordChar))
  {
    var translText;
    translText, unknownWords := TranslateText(row[textcol], dict, oovMarker, keeplines, wordChar);
    translatedRow := row[textcol := translText];
  }

  /** After the last row, the rest of the buffer goes to the writer as one
      more, possibly short, batch. */
  method FinalFlush(counter: nat, rows2write: seq<Row>, header: bool, updateInterval: nat,
                    ghost written: seq<Row>, ghost batches: seq<seq<Row>>)
    returns (ghost writtenAfter: seq<Row>, ghost batchesAfter: seq<seq<Row>>)
    requires BufferPosition(counter, rows2write, batches, header, updateInterval)
    requires FullBatches(batches, header, updateInterval)
    requires Concat(batches) == written
    ensures writtenAfter == written + rows2write
    ensures Concat(batchesAfter) == writtenAfter
    ensures |batchesAfter| > 0
    ensures forall b :: 0 <= b < |batchesAfter| - 1 ==> DataInBatch(batchesAfter, b, header) == updateInterval
    ensures 0 <= DataInBatch(batchesAfter, |batchesAfter| - 1, header) < updateInterval
  {
    writtenAfter := written + rows2write;
    batchesAfter := batches + [rows2write];
    assert batchesAfter[..|batches|] == batches;
    assert forall b :: 0 <= b < |batches| ==> DataInBatch(batchesAfter, b, header) == DataInBatch(batches, b, header);
  }

  /** Translate data row `counter` and record its unknown words; the set
      and, when tracking, the frequency map then cover one row more. */
  method TranslateDataRow(data: seq<Row>, dict: Dict, oovMarker: string, textcol: nat, keeplines: bool,
                          trackUnknown: bool, wordChar: char -> bool,
                          counter: nat, allUnknown: set<string>, unknownFD: map<string, nat>)
    returns (next: nat, row: Row, allAfter: set<string>, fdAfter: map<string, nat>)
    requires !wordChar('-')
    requires HasTextColumn(data, textcol)
    requires counter < |data|
    requires allUnknown == UnknownSet(data, counter, textcol, TextTranslator(dict, oovMarker, keeplines, wordChar))
    requires trackUnknown ==>
               unknownFD == FrequencyMap(UnknownBag(data, counter, textcol, TextTranslator(dict, oovMarker, keeplines, wordChar)))
    requires !trackUnknown ==> unknownFD == map[]
    ensures next == counter + 1
    ensures row == TranslatedRow(data[counter], textcol, TextTranslator(dict, oovMarker, keeplines, wordChar))
    ensures allAfter == UnknownSet(data, next, textcol, TextTranslator(dict, oovMarker, keeplines, wordChar))
    ensures trackUnknown ==>
              fdAfter == FrequencyMap(UnknownBag(data, next, textcol, TextTranslator(dict, oovMarker, keeplines, wordChar)))
    ensures !trackUnknown ==> fdAfter == map[]
  {
    ghost var bag := UnknownBag(data, counter, textcol, TextTranslator(dict, oovMarker, keeplines, wordChar));
    var unknownWords;
    RowStep(data, counter, textcol, TextTranslator(dict, oovMarker, keeplines, wordChar));
    row, unknownWords := TranslateRow(data[counter], dict, oovMarker, textcol, keeplines, wordChar);
    allAfter, fdAfter := RecordUnknowns(allUnknown, unknownFD, unknownWords, trackUnknown, bag);
    next := counter + 1;
  }

  /** Buffer data row `counter`, whose translation is `row`: once
      it is buffered, the rows handed to the writer followed by the buffer are
      the header and the first `next` translated rows. */
  method BufferDataRow(data: seq<Row>, ghost headerRows: seq<Row>, ghost tr: string -> Translation, header: bool,
                       textcol: nat, updateInterval: nat,
                       counter: nat, next: nat, row: Row, rows2write: seq<Row>,
                       ghost written: seq<Row>, ghost batches: seq<seq<Row>>)
    returns (buffered: seq<Row>, ghost writtenAfter: seq<Row>, ghost batchesAfter: seq<seq<Row>>)
    requires updateInterval > 0
    requires HasTextColumn(data, textcol)
    requires counter < |data| && next == counter + 1
    requires row == TranslatedRow(data[counter], textcol, tr)
    requires written + rows2write == headerRows +
               TranslatedRows(data, counter, textcol, tr)
    requires Concat(batches) == written
    requires FullBatches(batches, header, updateInterval)
    requires BufferPosition(counter, rows2write, batches, header, updateInterval)
    ensures writtenAfter + buffered == headerRows +
              TranslatedRows(data, next, textcol, tr)
    ensures Concat(batchesAfter) == writtenAfter
    ensures FullBatches(batchesAfter, header, updateInterval)
    ensures BufferPosition(next, buffered, batchesAfter, header, updateInterval)
  {
    ghost var done := TranslatedRows(data, counter, textcol, tr);
    RowStep(data, counter, textcol, tr);
    buffered, writtenAfter, batchesAfter := BufferRow(counter, row, rows2write, header, updateInterval, written, batches);
    assert writtenAfter + buffered == (written + rows2write) + [row];
    assert (written + rows2write) + [row] == headerRows + (done + [row]);
  }

  /** `translate_corpus`: copy the header, translate the text column of every
      data row, gather the unknown words into a set and, when tracking, a
      frequency map, and hand the rows to the writer every `updateInterval`
      data rows and once more at the end. Returns the number of data rows.

      `translate_corpus` faults on a corpus without data rows (the row counter is
      never bound), on a row without a text column, and on a zero interval. */
  method TranslateCorpus(input: seq<Row>, dict: Dict, oovMarker: string, header: bool, textcol: nat,
                         keeplines: bool, updateInterval: nat, trackUnknown: bool, wordChar: char -> bool)
    returns (count: nat, allUnknown: set<string>, unknownFD: map<string, nat>,
             ghost written: seq<Row>, ghost batches: seq<seq<Row>>)
    requires !wordChar('-')
    requires updateInterval > 0
    requires |DataRows(input, header)| > 0
    requires HasTextColumn(DataRows(input, header), textcol)
    ensures count == |DataRows(input, header)|
    ensures written == HeaderRows(input, header) +
                       TranslatedRows(DataRows(input, header), |DataRows(input, header)|, textcol, TextTranslator(dict, oovMarker, keeplines, wordChar))
    ensures Concat(batches) == written
    ensures |batches| > 0
    ensures forall b :: 0 <= b < |batches| - 1 ==> DataInBatch(batches, b, header) == updateInterval
    ensures 0 <= DataInBatch(batches, |batches| - 1, header) < updateInterval
    ensures allUnknown == UnknownSet(DataRows(input, header), |DataRows(input, header)|, textcol, TextTranslator(dict, oovMarker, keeplines, wordChar))
    ensures trackUnknown ==>
              unknownFD == FrequencyMap(UnknownBag(DataRows(input, header), |DataRows(input, header)|, textcol, TextTranslator(dict, oovMarker, keeplines, wordChar)))
    ensures !trackUnknown ==> unknownFD == map[]
  {
    var data := DataRows(input, header);
    allUnknown := {};
    unknownFD := map[];
    written := [];
    batches := [];

    var rows2write: seq<Row> := [];
    if header {
      rows2write := rows2write + [input[0]];
    }

    var counter := 0;
    while counter < |data|
      invariant 0 <= counter <= |data|
      invariant written + rows2write == HeaderRows(input, header) +
                  TranslatedRows(data, counter, textcol, TextTranslator(dict, oovMarker, keeplines, wordChar))
      invariant Concat(batches) == written
      invariant FullBatches(batches, header, updateInterval)
      invariant BufferPosition(counter, rows2write, batches, header, updateInterval)
      invariant allUnknown == UnknownSet(data, counter, textcol, TextTranslator(dict, oovMarker, keeplines, wordChar))
      invariant trackUnknown ==>
                  unknownFD == FrequencyMap(UnknownBag(data, counter, textcol, TextTranslator(dict, oovMarker, keeplines, wordChar)))
      invariant !trackUnknown ==> unknownFD == map[]
    {
      var next, row;
      next, row, allUnknown, unknownFD :=
        TranslateDataRow(data, dict, oovMarker, textcol, keeplines, trackUnknown, wordChar, counter, allUnknown, unknownFD);
      rows2write, written, batches :=
        BufferDataRow(data, HeaderRows(input, header), TextTranslator(dict, oovMarker, keeplines, wordChar), header, textcol, updateInterval,
                      counter, next, row, rows2write, written, batches);
      counter := next;
    }
    written, batches := FinalFlush(counter, rows2write, header, updateInterval, written, batches);
    count := counter;
  }
}
