/** The word pattern of the translator, `(?u)\b[\w-]+\b`, as used with
    `re.findall` on one line of text.

    Which characters `\w` accepts is a Unicode table of the regular-expression
    library; here it is the parameter `wordChar`, about which the model only
    assumes that the hyphen is not a word character.

    Scanning with that pattern yields, for every maximal run of word-or-hyphen
    characters, the run with its leading and trailing hyphens removed, unless
    nothing is left: a match must start right after a word boundary, so it
    cannot start on a hyphen that follows a non-word character, and it must
    end right before a boundary, so the greedy match backs off to the last
    word character of the run. */
module Tokenizer {

  /** A character that `[\w-]` accepts. */
  predicate IsTokenChar(c: char, wordChar: char -> bool)
  {
    wordChar(c) || c == '-'
  }

  /** What the pattern can return: non-empty, only `[\w-]` characters,
      beginning and ending with a word character. */
  predicate IsToken(t: string, wordChar: char -> bool)
  {
    |t| > 0 && wordChar(t[0]) && wordChar(t[|t| - 1]) &&
    forall k :: 0 <= k < |t| ==> IsTokenChar(t[k], wordChar)
  }

  /** Length of the longest prefix of `s` made of `[\w-]` characters. */
  function RunLength(s: string, wordChar: char -> bool): (n: nat)
    ensures n <= |s|
    decreases |s|
  {
    if s == [] || !IsTokenChar(s[0], wordChar) then 0
    else 1 + RunLength(s[1..], wordChar)
  }

  /** The run is made of `[\w-]` characters, and what follows it is not one. */
  lemma {:induction false} RunLengthMaximal(s: string, wordChar: char -> bool)
    ensures forall k :: 0 <= k < RunLength(s, wordChar) ==> IsTokenChar(s[k], wordChar)
    ensures RunLength(s, wordChar) < |s| ==> !IsTokenChar(s[RunLength(s, wordChar)], wordChar)
    decreases |s|
  {
    if s != [] && IsTokenChar(s[0], wordChar) {
      RunLengthMaximal(s[1..], wordChar);
    }
  }

  /** Number of hyphens `s` starts with. */
  function LeadingHyphens(s: string): (i: nat)
    ensures i <= |s|
    ensures forall k :: 0 <= k < i ==> s[k] == '-'
    ensures i < |s| ==> s[i] != '-'
    decreases |s|
  {
    if s != [] && s[0] == '-' then 1 + LeadingHyphens(s[1..]) else 0
  }

  /** Where the trailing hyphens of `s` begin. */
  function TrailingStart(s: string): (j: nat)
    ensures j <= |s|
    ensures forall k :: j <= k < |s| ==> s[k] == '-'
    ensures 0 < j ==> s[j - 1] != '-'
    decreases |s|
  {
    if s != [] && s[|s| - 1] == '-' then TrailingStart(s[..|s| - 1]) else |s|
  }

  /** What a maximal run contributes: `run.strip('-')`, or nothing when that is empty. */
  function RunToken(run: string): (r: seq<string>)
    ensures |r| <= 1
  {
    var i := LeadingHyphens(run);
    if i == |run| then [] else [run[i..TrailingStart(run)]]
  }

  /** The token a run of `[\w-]` characters contributes is a token, made of the run's characters. */
  lemma RunTokenIsToken(run: string, wordChar: char -> bool)
    requires forall k :: 0 <= k < |run| ==> IsTokenChar(run[k], wordChar)
    ensures forall t :: t in RunToken(run) ==> IsToken(t, wordChar)
    ensures forall t, ch :: t in RunToken(run) && ch in t ==> ch in run
  {
  }

  /** `re.findall(r"(?u)\b[\w-]+\b", line)`, scanning from the left. */
  function Tokens(line: string, wordChar: char -> bool): (tokens: seq<string>)
    requires !wordChar('-')
    ensures |tokens| <= |line|
    decreases |line|
  {
    if line == [] then []
    else
      var n := RunLength(line, wordChar);
      if n == 0 then Tokens(line[1..], wordChar)
      else RunToken(line[..n]) + Tokens(line[n..], wordChar)
  }

  /** Every token is a non-empty run of `[\w-]` characters that begins and
      ends with a word character, and every one of its characters comes from
      the line it was found in. */
  lemma {:induction false} TokensWellFormed(line: string, wordChar: char -> bool)
    requires !wordChar('-')
    ensures forall t :: t in Tokens(line, wordChar) ==> IsToken(t, wordChar)
    ensures forall t, ch :: t in Tokens(line, wordChar) && ch in t ==> ch in line
    decreases |line|
  {
    if line != [] {
      var n := RunLength(line, wordChar);
      var m := if n == 0 then 1 else n;
      TokensWellFormed(line[m..], wordChar);
      RunLengthMaximal(line, wordChar);
      RunTokenIsToken(line[..n], wordChar);
      forall t, ch | t in Tokens(line, wordChar) && ch in t ensures ch in line {
        if t in Tokens(line[m..], wordChar) {
          assert ch in line[m..];
        } else {
          assert ch in line[..n];
        }
      }
    }
  }

  /** A run is not lengthened by what follows a character that ends it. */
  lemma {:induction false} RunLengthAppend(a: string, b: string, wordChar: char -> bool)
    requires b == [] || !IsTokenChar(b[0], wordChar)
    ensures RunLength(a + b, wordChar) == RunLength(a, wordChar)
    decreases |a|
  {
    if a != [] && IsTokenChar(a[0], wordChar) {
      assert (a + b)[1..] == a[1..] + b;
      RunLengthAppend(a[1..], b, wordChar);
    }
  }

  /** One scanning step: the run at the front, then the tokens after it
      (after the character that stopped an empty run). */
  lemma TokensStep(s: string, wordChar: char -> bool)
    requires !wordChar('-') && s != []
    ensures var n := RunLength(s, wordChar);
            var m := if n == 0 then 1 else n;
            Tokens(s, wordChar) == RunToken(s[..n]) + Tokens(s[m..], wordChar)
  {
  }

  /** The first scanning step over `a + rest`, when `rest` starts outside
      `[\w-]`, stays inside `a`. */
  lemma SeparatedStep(a: string, rest: string, wordChar: char -> bool)
    requires !wordChar('-') && a != []
    requires rest != [] && !IsTokenChar(rest[0], wordChar)
    ensures var n := RunLength(a, wordChar);
            var m := if n == 0 then 1 else n;
            m <= |a| &&
            Tokens(a + rest, wordChar) == RunToken(a[..n]) + Tokens(a[m..] + rest, wordChar)
  {
    var n := RunLength(a, wordChar);
    var m := if n == 0 then 1 else n;
    RunLengthAppend(a, rest, wordChar);
    TokensStep(a + rest, wordChar);
    SlicesOfAppend(a, rest, n, m);
  }

  /** Slices of `a + rest` that start or end inside `a`. */
  lemma SlicesOfAppend(a: string, rest: string, n: nat, m: nat)
    requires n <= |a| && m <= |a|
    ensures (a + rest)[..n] == a[..n]
    ensures (a + rest)[m..] == a[m..] + rest
  {
  }

  /** Associativity of concatenation, as a lemma call: stated as an assertion
      inside `TokensSeparated` it sends the solver into a long search. */
  lemma AppendAssoc(x: seq<string>, y: seq<string>, z: seq<string>)
    ensures x + (y + z) == (x + y) + z
  {
  }

  /** A character outside `[\w-]` separates the tokens on its two sides:
      the tokens of `a + rest`, where `rest` starts with such a character,
      are those of `a` followed by those of `rest` after that character. */
  lemma {:induction false} TokensSeparated(a: string, rest: string, wordChar: char -> bool)
    requires !wordChar('-')
    requires rest != [] && !IsTokenChar(rest[0], wordChar)
    ensures Tokens(a + rest, wordChar) == Tokens(a, wordChar) + Tokens(rest[1..], wordChar)
    decreases |a|
  {
    if a == [] {
      assert a + rest == rest;
      TokensStep(rest, wordChar);
    } else {
      var n := RunLength(a, wordChar);
      var m := if n == 0 then 1 else n;
      SeparatedStep(a, rest, wordChar);
      TokensStep(a, wordChar);
      TokensSeparated(a[m..], rest, wordChar);
      AppendAssoc(RunToken(a[..n]), Tokens(a[m..], wordChar), Tokens(rest[1..], wordChar));
    }
  }

  /** A line made only of `[\w-]` characters is one run: it yields its
      hyphen-trimmed self, or nothing when it holds only hyphens. */
  lemma {:induction false} TokensOfRun(s: string, wordChar: char -> bool)
    requires !wordChar('-')
    requires forall k :: 0 <= k < |s| ==> IsTokenChar(s[k], wordChar)
    ensures Tokens(s, wordChar) == RunToken(s)
  {
    if s != [] {
      RunLengthWhole(s, wordChar);
      assert s[..|s|] == s;
      assert s[|s|..] == [];
    }
  }

  /** The run of a line of `[\w-]` characters is the whole line. */
  lemma {:induction false} RunLengthWhole(s: string, wordChar: char -> bool)
    requires forall k :: 0 <= k < |s| ==> IsTokenChar(s[k], wordChar)
    ensures RunLength(s, wordChar) == |s|
    decreases |s|
  {
    if s != [] {
      RunLengthWhole(s[1..], wordChar);
    }
  }

  /** Punctuation, spaces and hyphens alone give no token: a line without
      a word character yields nothing. */
  lemma {:induction false} TokensWithoutWordChar(s: string, wordChar: char -> bool)
    requires !wordChar('-')
    requires forall k :: 0 <= k < |s| ==> !wordChar(s[k])
    ensures Tokens(s, wordChar) == []
    decreases |s|
  {
    if s != [] {
      var n := RunLength(s, wordChar);
      if n == 0 {
        TokensWithoutWordChar(s[1..], wordChar);
      } else {
        RunLengthMaximal(s, wordChar);
        assert LeadingHyphens(s[..n]) == n;
        TokensWithoutWordChar(s[n..], wordChar);
      }
    }
  }
}
