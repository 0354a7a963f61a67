/**
 The value-level meaning of the word-counting bolt: how often a word occurs in
 a stream, the count table after a stream has been processed, and the records
 emitted along the way. The class in count_bolt.dfy is proved against these.
 */
module WordCount {

  /** One emitted record: the word and its count after the update. */
  type Record = (string, nat)

  /** Number of times `w` occurs in `ws` (a reference definition, independent of the table). */
  function Occ(ws: seq<string>, w: string): nat
  {
    if ws == [] then 0 else (if ws[0] == w then 1 else 0) + Occ(ws[1..], w)
  }

  /**
   One step of the counter on a table: an absent word enters with count 1, a
   present word goes up by one, and every other entry is left alone.
   */
  function Increment(m: map<string, nat>, w: string): (r: map<string, nat>)
    ensures r.Keys == m.Keys + {w}
    ensures w in m ==> r[w] == m[w] + 1
    ensures w !in m ==> r[w] == 1
    ensures forall v :: v in m && v != w ==> r[v] == m[v]
  {
    if w !in m then m[w := 1] else m[w := m[w] + 1]
  }

  /** The table after processing `ws`, in order, from an empty table. */
  function Tally(ws: seq<string>): (m: map<string, nat>)
    decreases |ws|
  {
    if ws == [] then map[] else Increment(Tally(ws[..|ws| - 1]), ws[|ws| - 1])
  }

  /** The records emitted while processing `ws`, one per word, each carrying the count after its update. */
  function Emitted(ws: seq<string>): (out: seq<Record>)
    ensures |out| == |ws|
    decreases |ws|
  {
    if ws == [] then []
    else
      var last := ws[|ws| - 1];
      Emitted(ws[..|ws| - 1]) + [(last, Tally(ws)[last])]
  }

  /** Unfolds `Tally` and `Emitted` on a stream extended by one word (a proof helper for `Execute`). */
  lemma ProcessOneMore(ws: seq<string>, w: string)
    ensures Tally(ws + [w]) == Increment(Tally(ws), w)
    ensures Emitted(ws + [w]) == Emitted(ws) + [(w, Increment(Tally(ws), w)[w])]
  {
  }

  lemma {:induction false} OccAppend(a: seq<string>, b: seq<string>, w: string)
    ensures Occ(a + b, w) == Occ(a, w) + Occ(b, w)
  {
    if a == [] {
      assert a + b == b;
    } else {
      assert (a + b)[1..] == a[1..] + b;
      OccAppend(a[1..], b, w);
    }
  }

  /** A word occurs a positive number of times exactly when it is in the stream. */
  lemma {:induction false} OccPositive(ws: seq<string>, w: string)
    ensures Occ(ws, w) > 0 <==> w in ws
  {
    if ws != [] {
      OccPositive(ws[1..], w);
      assert w in ws <==> ws[0] == w || w in ws[1..];
    }
  }

  /**
   The table invariant: a word is in the table exactly when it has been seen,
   and its stored count is its number of occurrences (so at least 1).
   */
  lemma {:induction false} TallyCounts(ws: seq<string>)
    ensures forall w :: w in Tally(ws) <==> w in ws
    ensures forall w :: w in Tally(ws) ==> Tally(ws)[w] == Occ(ws, w) >= 1
  {
    if ws != [] {
      var init, x := ws[..|ws| - 1], ws[|ws| - 1];
      assert ws == init + [x];
      TallyCounts(init);
      forall w
        ensures Occ(ws, w) == Occ(init, w) + (if x == w then 1 else 0)
        ensures w in ws <==> w in init || w == x
      {
        OccAppend(init, [x], w);
        assert Occ([x], w) == (if x == w then 1 else 0);
      }
      assert Tally(ws) == Increment(Tally(init), x);
      forall w | w in Tally(ws)
        ensures Tally(ws)[w] == Occ(ws, w) >= 1
      {
        OccPositive(init, w);
      }
    }
  }

  /** The i-th emitted record is the i-th word with its number of occurrences among words 0..i. */
  lemma {:induction false} EmittedAt(ws: seq<string>, i: nat)
    requires i < |ws|
    ensures Emitted(ws)[i] == (ws[i], Occ(ws[..i + 1], ws[i]))
  {
    var init := ws[..|ws| - 1];
    if i == |ws| - 1 {
      TallyCounts(ws);
      assert ws[..i + 1] == ws;
    } else {
      EmittedAt(init, i);
      assert init[..i + 1] == ws[..i + 1];
    }
  }

  /** The first occurrence of a word is emitted with count 1. */
  lemma FirstOccurrence(ws: seq<string>, i: nat)
    requires i < |ws| && ws[i] !in ws[..i]
    ensures Emitted(ws)[i].1 == 1
  {
    EmittedAt(ws, i);
    assert ws[..i + 1] == ws[..i] + [ws[i]];
    OccAppend(ws[..i], [ws[i]], ws[i]);
    OccPositive(ws[..i], ws[i]);
  }

  /** Splits the occurrences in a prefix ending at `j` at an earlier position `i`. */
  lemma PrefixSplit(ws: seq<string>, i: nat, j: nat, w: string)
    requires i < j < |ws|
    ensures Occ(ws[..j + 1], w) == Occ(ws[..i + 1], w) + Occ(ws[i + 1..j], w) + (if ws[j] == w then 1 else 0)
  {
    var a, b, c := ws[..i + 1], ws[i + 1..j], [ws[j]];
    assert ws[..j + 1] == a + (b + c);
    OccAppend(a, b + c, w);
    OccAppend(b, c, w);
    assert Occ(c, w) == (if ws[j] == w then 1 else 0);
  }

  /** The next occurrence of a word is emitted with exactly one more than the previous one. */
  lemma NextOccurrence(ws: seq<string>, i: nat, j: nat)
    requires i < j < |ws| && ws[i] == ws[j] && ws[j] !in ws[i + 1..j]
    ensures Emitted(ws)[j].1 == Emitted(ws)[i].1 + 1
  {
    EmittedAt(ws, i);
    EmittedAt(ws, j);
    PrefixSplit(ws, i, j, ws[j]);
    OccPositive(ws[i + 1..j], ws[j]);
  }

  /** Later occurrences of a word are always emitted with strictly larger counts. */
  lemma LaterOccurrence(ws: seq<string>, i: nat, j: nat)
    requires i < j < |ws| && ws[i] == ws[j]
    ensures Emitted(ws)[i].1 < Emitted(ws)[j].1
  {
    EmittedAt(ws, i);
    EmittedAt(ws, j);
    PrefixSplit(ws, i, j, ws[j]);
  }

  lemma CatDogCat()
    ensures Emitted(["cat", "dog", "cat"]) == [("cat", 1), ("dog", 1), ("cat", 2)]
  {
    assert ["cat", "dog", "cat"][..2] == ["cat", "dog"];
    assert ["cat", "dog"][..1] == ["cat"];
    assert ["cat"][..0] == [];
  }

  lemma RepeatedWord()
    ensures Emitted(["a", "a", "a", "a"]) == [("a", 1), ("a", 2), ("a", 3), ("a", 4)]
  {
    assert ["a", "a", "a", "a"][..3] == ["a", "a", "a"];
    assert ["a", "a", "a"][..2] == ["a", "a"];
    assert ["a", "a"][..1] == ["a"];
    assert ["a"][..0] == [];
  }

  /** The empty string is an ordinary key. */
  lemma EmptyWord()
    ensures Emitted(["", ""]) == [("", 1), ("", 2)]
  {
    assert ["", ""][..1] == [""];
    assert [""][..0] == [];
  }
}
