# CountBolt word counter

A model of `CountBolt` from the Storm starter examples: a stream-processing
bolt that receives one word per tuple, keeps a table from word to the number
of times it has been received, and emits each word together with its count
after the update. Its output schema is the two fields `word` and `count`.

- `word_count.dfy` (module `WordCount`): the value-level meaning. `Occ`
  counts occurrences of a word in a stream, `Increment` is one update of the
  table, `Tally` is the table after a whole stream and `Emitted` is the
  sequence of records sent while processing it. Lemmas tie the table to
  `Occ` and give every emitted record in closed form.
- `count_bolt.dfy` (module `Bolt`): the class `CountBolt` with the field
  `countMap` updated in place, the field `emitted` standing for the records
  sent through the output collector, and a ghost `history` of the words
  received since `prepare`. `Valid()` states that the table and the output
  are exactly those of processing `history` from an empty table.

Replaying the same words through a freshly prepared bolt gives the same
output: after `Prepare` and any calls to `Execute`, `emitted` equals
`Emitted(history)`, a function of the words alone.

## Model

| member | source | states |
|---|---|---|
| `Bolt.CountBolt.Prepare` | examples/storm-starter/src/jvm/org/apache/storm/starter/bolt/CountBolt.java:41-51 | the table is empty, nothing has been emitted and no word has been seen; the class invariant holds |
| `Bolt.CountBolt.Execute` | examples/storm-starter/src/jvm/org/apache/storm/starter/bolt/CountBolt.java:54-74 | an absent word enters with count 1, a present word goes up by exactly 1, every other word keeps its presence and count, the key set grows by at most the word, exactly one record (word, count after the update) is appended to the output, and afterwards every stored count is at least 1 and equals the word's number of occurrences since prepare while unseen words are absent |
| `Bolt.CountBolt.DeclareOutputFields` | examples/storm-starter/src/jvm/org/apache/storm/starter/bolt/CountBolt.java:77-83 | the schema is always the two fields "word" then "count", independent of anything processed |
| `WordCount.Increment` | examples/storm-starter/src/jvm/org/apache/storm/starter/bolt/CountBolt.java:59-70 | one update of the table: the word is present afterwards with count 1 if it was absent and one more otherwise, and no other entry changes |
| `WordCount.TallyCounts` | examples/storm-starter/src/jvm/org/apache/storm/starter/bolt/CountBolt.java:59-70 | after any stream, a word is in the table exactly when it occurs in the stream, and its count equals its number of occurrences, hence is at least 1 |
| `WordCount.EmittedAt` | examples/storm-starter/src/jvm/org/apache/storm/starter/bolt/CountBolt.java:56-73 | the i-th emitted record is the i-th input word with its number of occurrences among inputs 0..i |
| `WordCount.FirstOccurrence` | examples/storm-starter/src/jvm/org/apache/storm/starter/bolt/CountBolt.java:59-62 | the first time a word arrives it is emitted with count 1 |
| `WordCount.NextOccurrence` | examples/storm-starter/src/jvm/org/apache/storm/starter/bolt/CountBolt.java:63-73 | the next arrival of a word is emitted with exactly one more than its previous arrival |
| `WordCount.LaterOccurrence` | examples/storm-starter/src/jvm/org/apache/storm/starter/bolt/CountBolt.java:59-73 | any later arrival of a word is emitted with a strictly larger count |
| `WordCount.CatDogCat` | examples/storm-starter/src/jvm/org/apache/storm/starter/bolt/CountBolt.java:54-74 | the input cat, dog, cat emits (cat,1), (dog,1), (cat,2) |
| `WordCount.RepeatedWord` | examples/storm-starter/src/jvm/org/apache/storm/starter/bolt/CountBolt.java:54-74 | the input a, a, a, a emits (a,1), (a,2), (a,3), (a,4) |
| `WordCount.EmptyWord` | examples/storm-starter/src/jvm/org/apache/storm/starter/bolt/CountBolt.java:54-74 | the empty string is an ordinary key: two of them emit ("",1), ("",2) |

## Left out

- Counts are unbounded naturals: the overflow of Java's `Long` at the pre-increment on line 69 is not modelled.
- The Storm framework types (`OutputCollector`, `TopologyContext`, `OutputFieldsDeclarer`, `Tuple`, `Values`, `Fields`) are not part of this model: the collector is the sequence `emitted`, the input tuple is its first field as a `string` parameter (so a null word, which `tuple.getString(0)` may return and the Java `HashMap` would store and emit as the key `null` at lines 59-73, is not modelled), and the declarer receives the returned field list.
- The configuration map and topology context passed to `prepare` are ignored by the source and are not parameters here.
- The null test on the boxed `Long` at line 59 is modelled as a membership test on the table.
- Calling `execute` before `prepare` (a null-pointer failure in Java) is excluded by the precondition `Valid()`; the runtime always prepares a bolt first.
- Concurrency and the routing of words across parallel bolt instances belong to the host runtime; the class has no synchronisation and the model is sequential.
