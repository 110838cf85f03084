/** Word-level translation of one text block (`translate_text`).

    The text is split into lines at `'\n'`, each line into tokens by the word
    pattern, and each token is looked up in the dictionary: first whole, then,
    if it holds a hyphen, sub-word by sub-word; what is not found is copied
    with the out-of-vocabulary marker in front and recorded as unknown. */
module Translator {

  import opened Strings
  import opened Tokenizer

  type Dict = map<string, string>

  /** A translated text and the unknown words met while translating it, in order. */
  datatype Translation = Translation(text: string, unknown: seq<string>)

  /** Translated pieces so far, and the unknown words met on the way. */
  datatype Partial = Partial(pieces: seq<string>, unknown: seq<string>)

  /** The output for one hyphen sub-word: its translation, or the marked sub-word. */
  function Piece(sub: string, dict: Dict, marker: string): string
  {
    if sub in dict then dict[sub] else marker + sub
  }

  /** The outputs for a sequence of hyphen sub-words, one per sub-word. */
  function Pieces(subs: seq<string>, dict: Dict, marker: string): (r: seq<string>)
    decreases |subs|
  {
    if subs == [] then []
    else Pieces(subs[..|subs| - 1], dict, marker) + [Piece(subs[|subs| - 1], dict, marker)]
  }

  /** The sub-words that are not keys, in order, with repetitions. */
  function Unresolved(subs: seq<string>, dict: Dict): seq<string>
    decreases |subs|
  {
    if subs == [] then []
    else
      var last := subs[|subs| - 1];
      Unresolved(subs[..|subs| - 1], dict) + (if last in dict then [] else [last])
  }

  /** One token: looked up whole first; else, if hyphenated, the `'-'`-join of
      its sub-words' pieces; else the marked token. */
  function TranslateWord(word: string, dict: Dict, marker: string): Translation
  {
    if word in dict then Translation(dict[word], [])
    else if '-' in word then
      var subs := Split(word, '-');
      Translation(Join(Pieces(subs, dict, marker), "-"), Unresolved(subs, dict))
    else Translation(marker + word, [word])
  }

  /** The tokens of one line, translated one by one. */
  function TranslateWords(words: seq<string>, dict: Dict, marker: string): Partial
    decreases |words|
  {
    if words == [] then Partial([], [])
    else
      var before := TranslateWords(words[..|words| - 1], dict, marker);
      var t := TranslateWord(words[|words| - 1], dict, marker);
      Partial(before.pieces + [t.text], before.unknown + t.unknown)
  }

  /** One line: its translated tokens joined by single spaces. */
  function TranslateLine(line: string, dict: Dict, marker: string, wordChar: char -> bool): Translation
    requires !wordChar('-')
  {
    var p := TranslateWords(Tokens(line, wordChar), dict, marker);
    Translation(Join(p.pieces, " "), p.unknown)
  }

  /** The lines of a text, translated one by one. */
  function TranslateLines(lines: seq<string>, dict: Dict, marker: string, wordChar: char -> bool): Partial
    requires !wordChar('-')
    decreases |lines|
  {
    if lines == [] then Partial([], [])
    else
      var before := TranslateLines(lines[..|lines| - 1], dict, marker, wordChar);
      var t := TranslateLine(lines[|lines| - 1], dict, marker, wordChar);
      Partial(before.pieces + [t.text], before.unknown + t.unknown)
  }

  /** What joins translated lines: a newline when line structure is kept, else a space. */
  function LineJoiner(keeplines: bool): string
  {
    if keeplines then "\n" else " "
  }

  /** The whole text: its `'\n'`-separated lines translated and joined. */
  function Translate(text: string, dict: Dict, marker: string, keeplines: bool, wordChar: char -> bool): Translation
    requires !wordChar('-')
  {
    var p := TranslateLines(Split(text, '\n'), dict, marker, wordChar);
    Translation(Join(p.pieces, LineJoiner(keeplines)), p.unknown)
  }

  /** The body of the loop over one line's tokens: the output for `word`,
      with the unknown words it adds appended to `unknownWords`. */
  method TranslateToken(word: string, dict: Dict, oovMarker: string, unknownWords: seq<string>)
    returns (piece: string, unknownAfter: seq<string>)
    ensures piece == TranslateWord(word, dict, oovMarker).text
    ensures unknownAfter == unknownWords + TranslateWord(word, dict, oovMarker).unknown
  {
    unknownAfter := unknownWords;
    if word in dict {
      piece := dict[word];
    } else if '-' in word {
      var subs := Split(word, '-');
      var hyphtrans: seq<string> := [];
      var m := 0;
      while m < |subs|
        invariant 0 <= m <= |subs|
        invariant hyphtrans == Pieces(subs[..m], dict, oovMarker)
        invariant unknownAfter == unknownWords + Unresolved(subs[..m], dict)
      {
        var subword := subs[m];
        assert subs[..m + 1][..m] == subs[..m];
        if subword in dict {
          hyphtrans := hyphtrans + [dict[subword]];
        } else {
          hyphtrans := hyphtrans + [oovMarker + subword];
          unknownAfter := unknownAfter + [subword];
        }
        m := m + 1;
      }
      assert subs[..m] == subs;
      piece := Join(hyphtrans, "-");
    } else {
      piece := oovMarker + word;
      unknownAfter := unknownAfter + [word];
    }
  }

  /** The body of the loop over lines: one line's output, with the unknown
      words of its tokens appended to `unknownWords`. */
  method TranslateOneLine(line: string, dict: Dict, oovMarker: string, wordChar: char -> bool, unknownWords: seq<string>)
    returns (translatedLine: string, unknownAfter: seq<string>)
    requires !wordChar('-')
    ensures translatedLine == TranslateLine(line, dict, oovMarker, wordChar).text
    ensures unknownAfter == unknownWords + TranslateLine(line, dict, oovMarker, wordChar).unknown
  {
    var words := Tokens(line, wordChar);
    var translatedWords: seq<string> := [];
    unknownAfter := unknownWords;
    var j := 0;
    while j < |words|
      invariant 0 <= j <= |words|
      invariant translatedWords == TranslateWords(words[..j], dict, oovMarker).pieces
      invariant unknownAfter == unknownWords + TranslateWords(words[..j], dict, oovMarker).unknown
    {
      var piece;
      piece, unknownAfter := TranslateToken(words[j], dict, oovMarker, unknownAfter);
      assert words[..j + 1][..j] == words[..j];
      translatedWords := translatedWords + [piece];
      j := j + 1;
    }
    assert words[..j] == words;
    translatedLine := Join(translatedWords, " ");
  }

  /** `translate_text`: translate line by line, collecting the translated
      lines and, in order, the unknown words; then join the lines. */
  method TranslateText(text: string, dict: Dict, oovMarker: string, keeplines: bool, wordChar: char -> bool)
    returns (translated: string, unknownWords: seq<string>)
    requires !wordChar('-')
    ensures Translation(translated, unknownWords) == Translate(text, dict, oovMarker, keeplines, wordChar)
  {
    var linejoiner := LineJoiner(keeplines);
    var translatedLines: seq<string> := [];
    unknownWords := [];
    var lines := Split(text, '\n');
    var i := 0;
    while i < |lines|
      invariant 0 <= i <= |lines|
      invariant translatedLines == TranslateLines(lines[..i], dict, oovMarker, wordChar).pieces
      invariant unknownWords == TranslateLines(lines[..i], dict, oovMarker, wordChar).unknown
    {
      var translatedLine;
      translatedLine, unknownWords := TranslateOneLine(lines[i], dict, oovMarker, wordChar, unknownWords);
      assert lines[..i + 1][..i] == lines[..i];
      translatedLines := translatedLines + [translatedLine];
      i := i + 1;
    }
    assert lines[..i] == lines;
    translated := Join(translatedLines, linejoiner);
  }

  // Properties of the translation

  /** A token that needs no marker: it is a key, or it is hyphenated and every
      one of its sub-words is a key. */
  predicate Resolves(word: string, dict: Dict)
  {
    word in dict || ('-' in word && forall sub :: sub in Split(word, '-') ==> sub in dict)
  }

  /** No word of `words` is a key of `dict`. */
  predicate NoneAreKeys(words: seq<string>, dict: Dict)
  {
    forall w :: w in words ==> w !in dict
  }

  /** There is one piece per sub-word, and each is that sub-word's output. */
  lemma {:induction false} PiecesAt(subs: seq<string>, dict: Dict, marker: string)
    ensures |Pieces(subs, dict, marker)| == |subs|
    ensures forall m :: 0 <= m < |subs| ==> Pieces(subs, dict, marker)[m] == Piece(subs[m], dict, marker)
    decreases |subs|
  {
    if subs != [] {
      PiecesAt(subs[..|subs| - 1], dict, marker);
    }
  }

  /** There is one translated piece per token, and each is that token's translation. */
  lemma {:induction false} TranslateWordsAt(words: seq<string>, dict: Dict, marker: string)
    ensures |TranslateWords(words, dict, marker).pieces| == |words|
    ensures forall k :: 0 <= k < |words| ==>
              TranslateWords(words, dict, marker).pieces[k] == TranslateWord(words[k], dict, marker).text
    decreases |words|
  {
    if words != [] {
      TranslateWordsAt(words[..|words| - 1], dict, marker);
    }
  }

  /** There is one translated line per input line, and each is that line's translation. */
  lemma {:induction false} TranslateLinesAt(lines: seq<string>, dict: Dict, marker: string, wordChar: char -> bool)
    requires !wordChar('-')
    ensures |TranslateLines(lines, dict, marker, wordChar).pieces| == |lines|
    ensures forall k :: 0 <= k < |lines| ==>
              TranslateLines(lines, dict, marker, wordChar).pieces[k] == TranslateLine(lines[k], dict, marker, wordChar).text
    decreases |lines|
  {
    if lines != [] {
      TranslateLinesAt(lines[..|lines| - 1], dict, marker, wordChar);
    }
  }

  /** Whole-word lookup comes first: a token that is a key is emitted as exactly
      its translation, hyphens or not, and adds no unknown word. */
  lemma KnownTokenFirst(line: string, dict: Dict, marker: string, wordChar: char -> bool, k: nat)
    requires !wordChar('-')
    requires k < |Tokens(line, wordChar)| && Tokens(line, wordChar)[k] in dict
    ensures |TranslateWords(Tokens(line, wordChar), dict, marker).pieces| == |Tokens(line, wordChar)|
    ensures TranslateWords(Tokens(line, wordChar), dict, marker).pieces[k] == dict[Tokens(line, wordChar)[k]]
    ensures TranslateWord(Tokens(line, wordChar)[k], dict, marker).unknown == []
  {
    TranslateWordsAt(Tokens(line, wordChar), dict, marker);
  }

  /** Hyphen fallback: a hyphenated token that is not a key is emitted as the
      `'-'`-join of one piece per `split('-')` element, the translation of that
      sub-word or the marked sub-word, and its unknown words are the sub-words
      that are not keys. */
  lemma HyphenFallback(line: string, dict: Dict, marker: string, wordChar: char -> bool, k: nat)
    requires !wordChar('-')
    requires k < |Tokens(line, wordChar)|
    requires Tokens(line, wordChar)[k] !in dict && '-' in Tokens(line, wordChar)[k]
    ensures var subs := Split(Tokens(line, wordChar)[k], '-');
            var ps := Pieces(subs, dict, marker);
            |TranslateWords(Tokens(line, wordChar), dict, marker).pieces| == |Tokens(line, wordChar)| &&
            TranslateWords(Tokens(line, wordChar), dict, marker).pieces[k] == Join(ps, "-") &&
            |ps| == |subs| &&
            (forall m :: 0 <= m < |subs| ==> ps[m] == if subs[m] in dict then dict[subs[m]] else marker + subs[m]) &&
            TranslateWord(Tokens(line, wordChar)[k], dict, marker).unknown == Unresolved(subs, dict)
  {
    TranslateWordsAt(Tokens(line, wordChar), dict, marker);
    PiecesAt(Split(Tokens(line, wordChar)[k], '-'), dict, marker);
  }

  /** A token that is neither a key nor hyphenated is copied with the
      marker in front and is itself the one unknown word it adds; with an
      empty marker it is copied over cleanly, whatever the dictionary. */
  lemma UnknownTokenMarked(line: string, dict: Dict, marker: string, wordChar: char -> bool, k: nat)
    requires !wordChar('-')
    requires k < |Tokens(line, wordChar)|
    requires Tokens(line, wordChar)[k] !in dict && '-' !in Tokens(line, wordChar)[k]
    ensures |TranslateWords(Tokens(line, wordChar), dict, marker).pieces| == |Tokens(line, wordChar)|
    ensures TranslateWords(Tokens(line, wordChar), dict, marker).pieces[k] == marker + Tokens(line, wordChar)[k]
    ensures |TranslateWords(Tokens(line, wordChar), dict, "").pieces| == |Tokens(line, wordChar)|
    ensures TranslateWords(Tokens(line, wordChar), dict, "").pieces[k] == Tokens(line, wordChar)[k]
    ensures TranslateWord(Tokens(line, wordChar)[k], dict, marker).unknown == [Tokens(line, wordChar)[k]]
  {
    var t := Tokens(line, wordChar)[k];
    TranslateWordsAt(Tokens(line, wordChar), dict, marker);
    TranslateWordsAt(Tokens(line, wordChar), dict, "");
    assert TranslateWord(t, dict, "").text == "" + t == t;
  }

  /** The unresolved sub-words are not keys. */
  lemma {:induction false} UnresolvedNotKeys(subs: seq<string>, dict: Dict)
    ensures NoneAreKeys(Unresolved(subs, dict), dict)
    ensures Unresolved(subs, dict) == [] <==> forall sub :: sub in subs ==> sub in dict
    decreases |subs|
  {
    if subs != [] {
      var init := subs[..|subs| - 1];
      UnresolvedNotKeys(init, dict);
      assert forall sub :: sub in subs ==> sub in init || sub == subs[|subs| - 1];
    }
  }

  /** A token adds unknown words exactly when it does not resolve, and none of them is a key. */
  lemma TranslateWordUnknown(word: string, dict: Dict, marker: string)
    ensures NoneAreKeys(TranslateWord(word, dict, marker).unknown, dict)
    ensures TranslateWord(word, dict, marker).unknown == [] <==> Resolves(word, dict)
  {
    UnresolvedNotKeys(Split(word, '-'), dict);
  }

  /** Over a line's tokens: the unknown words are not keys, and there are none
      exactly when every token resolves. */
  lemma {:induction false} TranslateWordsUnknown(words: seq<string>, dict: Dict, marker: string)
    ensures NoneAreKeys(TranslateWords(words, dict, marker).unknown, dict)
    ensures TranslateWords(words, dict, marker).unknown == [] <==> forall w :: w in words ==> Resolves(w, dict)
    decreases |words|
  {
    if words != [] {
      var init := words[..|words| - 1];
      TranslateWordsUnknown(init, dict, marker);
      TranslateWordUnknown(words[|words| - 1], dict, marker);
      assert forall w :: w in words ==> w in init || w == words[|words| - 1];
    }
  }

  /** Every token of `line` resolves. */
  predicate LineResolves(line: string, dict: Dict, wordChar: char -> bool)
    requires !wordChar('-')
  {
    forall w :: w in Tokens(line, wordChar) ==> Resolves(w, dict)
  }

  /** Over lines: the unknown words are not keys, and there are none exactly
      when every token of every line resolves. */
  lemma {:induction false} TranslateLinesUnknown(lines: seq<string>, dict: Dict, marker: string, wordChar: char -> bool)
    requires !wordChar('-')
    ensures NoneAreKeys(TranslateLines(lines, dict, marker, wordChar).unknown, dict)
    ensures TranslateLines(lines, dict, marker, wordChar).unknown == [] <==>
              forall line :: line in lines ==> LineResolves(line, dict, wordChar)
    decreases |lines|
  {
    if lines != [] {
      var init := lines[..|lines| - 1];
      var last := lines[|lines| - 1];
      TranslateLinesUnknown(init, dict, marker, wordChar);
      TranslateWordsUnknown(Tokens(last, wordChar), dict, marker);
      assert forall line :: line in lines ==> line in init || line == last;
      assert forall line :: line in init ==> line in lines;
      assert last in lines;
    }
  }

  /** Every recorded unknown word, whole token or hyphen sub-word, is not a key;
      and the list is empty exactly when every token resolves. */
  lemma UnknownWords(text: string, dict: Dict, marker: string, keeplines: bool, wordChar: char -> bool)
    requires !wordChar('-')
    ensures NoneAreKeys(Translate(text, dict, marker, keeplines, wordChar).unknown, dict)
    ensures Translate(text, dict, marker, keeplines, wordChar).unknown == [] <==>
              forall line :: line in Split(text, '\n') ==> LineResolves(line, dict, wordChar)
  {
    TranslateLinesUnknown(Split(text, '\n'), dict, marker, wordChar);
  }

  /** The empty text translates to the empty text with no unknown words. */
  lemma EmptyText(dict: Dict, marker: string, keeplines: bool, wordChar: char -> bool)
    requires !wordChar('-')
    ensures Translate("", dict, marker, keeplines, wordChar) == Translation("", [])
  {
    assert Split("", '\n') == [""];
    assert [""][..0] == [];
  }

  /** No dictionary value holds a newline. */
  predicate NewlineFreeValues(dict: Dict)
  {
    forall w :: w in dict ==> '\n' !in dict[w]
  }

  /** A token without a newline translates to text without a newline, when
      neither the marker nor any dictionary value holds one. */
  lemma TranslateWordNoNewline(word: string, dict: Dict, marker: string)
    requires NewlineFreeValues(dict) && '\n' !in marker && '\n' !in word
    ensures '\n' !in TranslateWord(word, dict, marker).text
  {
    if word !in dict && '-' in word {
      var subs := Split(word, '-');
      var ps := Pieces(subs, dict, marker);
      PiecesAt(subs, dict, marker);
      forall p | p in ps ensures '\n' !in p {
        var m :| 0 <= m < |ps| && ps[m] == p;
        assert subs[m] in subs;
      }
      JoinAvoids(ps, "-", '\n');
    }
  }

  /** A line without a newline translates to a line without a newline. */
  lemma TranslateLineNoNewline(line: string, dict: Dict, marker: string, wordChar: char -> bool)
    requires !wordChar('-')
    requires NewlineFreeValues(dict) && '\n' !in marker && '\n' !in line
    ensures '\n' !in TranslateLine(line, dict, marker, wordChar).text
  {
    var words := Tokens(line, wordChar);
    var ps := TranslateWords(words, dict, marker).pieces;
    TokensWellFormed(line, wordChar);
    TranslateWordsAt(words, dict, marker);
    forall p | p in ps ensures '\n' !in p {
      var k :| 0 <= k < |ps| && ps[k] == p;
      assert words[k] in words;
      TranslateWordNoNewline(words[k], dict, marker);
    }
    JoinAvoids(ps, " ", '\n');
  }

  /** Line structure: with line breaks kept, and neither the marker nor any
      dictionary value holding a newline, the output has exactly one line per
      input line, and output line k is the translation of input line k. */
  lemma LineStructure(text: string, dict: Dict, marker: string, wordChar: char -> bool)
    requires !wordChar('-')
    requires NewlineFreeValues(dict) && '\n' !in marker
    ensures var lines := Split(text, '\n');
            var outLines := Split(Translate(text, dict, marker, true, wordChar).text, '\n');
            |outLines| == |lines| &&
            forall k :: 0 <= k < |lines| ==> outLines[k] == TranslateLine(lines[k], dict, marker, wordChar).text
  {
    var lines := Split(text, '\n');
    var ps := TranslateLines(lines, dict, marker, wordChar).pieces;
    TranslateLinesAt(lines, dict, marker, wordChar);
    forall p | p in ps ensures '\n' !in p {
      var k :| 0 <= k < |ps| && ps[k] == p;
      assert lines[k] in lines;
      TranslateLineNoNewline(lines[k], dict, marker, wordChar);
    }
    SplitJoin(ps, '\n');
  }

  /** Without kept line breaks, the output is a single line. */
  lemma SingleLineOutput(text: string, dict: Dict, marker: string, wordChar: char -> bool)
    requires !wordChar('-')
    requires NewlineFreeValues(dict) && '\n' !in marker
    ensures '\n' !in Translate(text, dict, marker, false, wordChar).text
  {
    var lines := Split(text, '\n');
    var ps := TranslateLines(lines, dict, marker, wordChar).pieces;
    TranslateLinesAt(lines, dict, marker, wordChar);
    forall p | p in ps ensures '\n' !in p {
      var k :| 0 <= k < |ps| && ps[k] == p;
      assert lines[k] in lines;
      TranslateLineNoNewline(lines[k], dict, marker, wordChar);
    }
    JoinAvoids(ps, " ", '\n');
  }

  /** With no dictionary entries, an empty marker copies the sub-words unchanged. */
  lemma {:induction false} PiecesPassThrough(subs: seq<string>)
    ensures Pieces(subs, map[], "") == subs
    decreases |subs|
  {
    if subs != [] {
      var last := subs[|subs| - 1];
      PiecesPassThrough(subs[..|subs| - 1]);
      assert "" + last == last;
      assert subs[..|subs| - 1] + [last] == subs;
    }
  }

  /** With no dictionary entries, an empty marker copies the tokens unchanged. */
  lemma {:induction false} TranslateWordsPassThrough(words: seq<string>)
    ensures TranslateWords(words, map[], "").pieces == words
    decreases |words|
  {
    if words != [] {
      var w := words[|words| - 1];
      TranslateWordsPassThrough(words[..|words| - 1]);
      assert "" + w == w;
      assert words[..|words| - 1] + [w] == words;
      if '-' in w {
        PiecesPassThrough(Split(w, '-'));
        JoinSplit(w, '-');
      }
    }
  }

  /** An empty marker passes unknown words through unmarked: with no dictionary
      entries, a line translates to its tokens joined by single spaces, so
      only punctuation and spacing are lost. */
  lemma LinePassThrough(line: string, wordChar: char -> bool)
    requires !wordChar('-')
    ensures TranslateLine(line, map[], "", wordChar).text == Join(Tokens(line, wordChar), " ")
  {
    TranslateWordsPassThrough(Tokens(line, wordChar));
  }
}
