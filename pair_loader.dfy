/** Loading the source-target word pairs of a pair file (`load_cleanpairs`).

    The pair file is given as the sequence of its records, already split into
    fields by the CSV reader or by whitespace splitting; a file that does not
    exist is `None`. */
module PairLoader {

  import opened Wrappers

  type Record = seq<string>

  /** The source word of a two-field record: the first field, or the second when reversed. */
  function KeyOf(r: Record, reverse: bool): string
    requires |r| == 2
  {
    if reverse then r[1] else r[0]
  }

  /** The target word of a two-field record: the field that is not the key. */
  function ValueOf(r: Record, reverse: bool): string
    requires |r| == 2
  {
    if reverse then r[0] else r[1]
  }

  /** The dictionary after reading `records` in order: a record with other than
      two fields is skipped, and a later record overwrites an earlier one with
      the same key. */
  function Pairs(records: seq<Record>, reverse: bool): map<string, string>
    decreases |records|
  {
    if records == [] then map[]
    else
      var before := Pairs(records[..|records| - 1], reverse);
      var r := records[|records| - 1];
      if |r| != 2 then before else before[KeyOf(r, reverse) := ValueOf(r, reverse)]
  }

  /** `load_cleanpairs`: fill the dictionary record by record. */
  method LoadCleanPairs(file: Option<seq<Record>>, reverse: bool) returns (pairs: map<string, string>)
    ensures file.None? ==> pairs == map[]
    ensures file.Some? ==> pairs == Pairs(file.value, reverse)
  {
    pairs := map[];
    if file.Some? {
      var records := file.value;
      var i := 0;
      while i < |records|
        invariant 0 <= i <= |records|
        invariant pairs == Pairs(records[..i], reverse)
      {
        var row := records[i];
        assert records[..i + 1][..i] == records[..i];
        if |row| == 2 {
          if reverse {
            pairs := pairs[row[1] := row[0]];
          } else {
            pairs := pairs[row[0] := row[1]];
          }
        }
        i := i + 1;
      }
      assert records[..i] == records;
    }
  }

  /** A word is a key of the dictionary exactly when some two-field record has it as its key. */
  lemma {:induction false} PairsKeys(records: seq<Record>, reverse: bool, k: string)
    ensures k in Pairs(records, reverse) <==>
              exists i :: 0 <= i < |records| && |records[i]| == 2 && KeyOf(records[i], reverse) == k
    decreases |records|
  {
    if records != [] {
      var init := records[..|records| - 1];
      PairsKeys(init, reverse, k);
      if exists i :: 0 <= i < |init| && |init[i]| == 2 && KeyOf(init[i], reverse) == k {
        var i :| 0 <= i < |init| && |init[i]| == 2 && KeyOf(init[i], reverse) == k;
        assert records[i] == init[i];
      }
      if exists i :: 0 <= i < |records| && |records[i]| == 2 && KeyOf(records[i], reverse) == k {
        var i :| 0 <= i < |records| && |records[i]| == 2 && KeyOf(records[i], reverse) == k;
        if i < |init| {
          assert init[i] == records[i];
        }
      }
    }
  }

  /** The last two-field record with a given key decides that key's value. */
  lemma {:induction false} PairsLastWins(records: seq<Record>, reverse: bool, i: nat)
    requires i < |records| && |records[i]| == 2
    requires forall j :: i < j < |records| && |records[j]| == 2 ==>
               KeyOf(records[j], reverse) != KeyOf(records[i], reverse)
    ensures KeyOf(records[i], reverse) in Pairs(records, reverse)
    ensures Pairs(records, reverse)[KeyOf(records[i], reverse)] == ValueOf(records[i], reverse)
    decreases |records|
  {
    var init := records[..|records| - 1];
    if i < |records| - 1 {
      assert forall j :: i < j < |init| ==> init[j] == records[j];
      PairsLastWins(init, reverse, i);
    }
  }

  /** A pair file of well-formed records with distinct keys gives exactly one entry per record. */
  lemma {:induction false} PairsDistinctKeys(records: seq<Record>, reverse: bool)
    requires forall i :: 0 <= i < |records| ==> |records[i]| == 2
    requires forall i, j :: 0 <= i < j < |records| ==> KeyOf(records[i], reverse) != KeyOf(records[j], reverse)
    ensures |Pairs(records, reverse)| == |records|
    decreases |records|
  {
    if records != [] {
      var init := records[..|records| - 1];
      var last := records[|records| - 1];
      PairsDistinctKeys(init, reverse);
      PairsKeys(init, reverse, KeyOf(last, reverse));
      assert KeyOf(last, reverse) !in Pairs(init, reverse);
    }
  }
}
