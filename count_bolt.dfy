/**
 The word-counting bolt: a table from word to count that `Execute` updates in
 place, and the stream of records it sends through its output collector.
 */
module Bolt {
  import opened WordCount

  class CountBolt {
    /** The table from word to number of times it has been received. */
    var countMap: map<string, nat>
    /** The records sent through the output collector since `Prepare`, oldest first. */
    var emitted: seq<Record>
    /** The words received since `Prepare`, oldest first. */
    ghost var history: seq<string>

    /** The table and the output are those of processing `history` from an empty table. */
    ghost predicate Valid()
      reads this
    {
      countMap == Tally(history) && emitted == Emitted(history)
    }

    /** Starts from an empty table with nothing emitted; any configuration is ignored. */
    method Prepare()
      modifies this
      ensures Valid()
      ensures countMap == map[] && emitted == [] && history == []
    {
      emitted := [];
      countMap := map[];
      history := [];
    }

    /** Counts one more occurrence of `word` and emits the word with its new count. */
    method Execute(word: string)
      requires Valid()
      modifies this
      ensures Valid()
      ensures history == old(history) + [word]
      ensures word in countMap
      ensures word !in old(countMap) ==> countMap[word] == 1
      ensures word in old(countMap) ==> countMap[word] == old(countMap[word]) + 1
      ensures countMap.Keys == old(countMap.Keys) + {word}
      ensures forall w :: w in old(countMap) && w != word ==> countMap[w] == old(countMap[w])
      ensures emitted == old(emitted) + [(word, countMap[word])]
      ensures forall w :: w in countMap <==> w in history
      ensures forall w :: w in countMap ==> countMap[w] == Occ(history, w) >= 1
    {
      ProcessOneMore(history, word);
      TallyCounts(history + [word]);
      if word !in countMap {
        countMap := countMap[word := 1];
      } else {
        var val := countMap[word];
        countMap := countMap[word := val + 1];
      }
      emitted := emitted + [(word, countMap[word])];
      history := history + [word];
    }

    /** The output schema: always the two fields "word" then "count", whatever has been processed. */
    method DeclareOutputFields() returns (fields: seq<string>)
      ensures fields == ["word", "count"]
    {
      fields := ["word", "count"];
    }
  }
}
