/**
  The result-formatting step of the Predict function: the model's score
  vector is paired index by index with the label table, ordered by
  confidence, highest first, with equal confidences kept in index order
  (a stable sort), and cut to the first ten entries.

  The sort is modelled the way a stable sort is usually built: it orders
  the INDICES 0 .. n-1 of the scores by the strict total order Before
  (higher score first, smaller index first among equal scores), here by
  insertion, and then reads the entries off in that order.
*/
module Formatter {

  /** One entry of the response: a class label and the model's confidence in it (field names as in the JSON response). */
  datatype Prediction = Prediction(Label: string, Confidence: real)

  datatype Error =
    /** The score vector is longer than the label table: the label lookup for this index fails. */
    | LabelIndexOutOfRange(index: nat)

  datatype Result<T> = Ok(value: T) | Err(error: Error)

  /** How many entries the response keeps. */
  const TOP_COUNT: nat := 10

  // ---------------------------------------------------------------------------
  // Ranking indices by score

  /** Every element of s is an index of keys. */
  predicate InBounds(keys: seq<real>, s: seq<nat>)
  {
    forall k :: 0 <= k < |s| ==> s[k] < |keys|
  }

  /**
    Index i goes before index j in the stable descending order: its score is
    higher, or the scores are equal and i comes first in the input.
  */
  predicate Before(keys: seq<real>, i: nat, j: nat)
    requires i < |keys| && j < |keys|
  {
    keys[i] > keys[j] || (keys[i] == keys[j] && i < j)
  }

  /** s lists indices in strictly increasing Before order (so without repeats). */
  predicate Ranked(keys: seq<real>, s: seq<nat>)
    requires InBounds(keys, s)
  {
    forall a, b :: 0 <= a < b < |s| ==> Before(keys, s[a], s[b])
  }

  /** The indices 0 .. n-1 in increasing order, the order in which the scores arrive. */
  function Indices(n: nat): (s: seq<nat>)
    ensures |s| == n && forall k :: 0 <= k < n ==> s[k] == k
  {
    if n == 0 then [] else Indices(n - 1) + [n - 1]
  }

  lemma IndicesBelow(n: nat)
    ensures forall i :: i in multiset(Indices(n)) ==> i < n
  {
    forall i | i in multiset(Indices(n)) ensures i < n {
      assert i in Indices(n);
    }
  }

  /** Insert index i into a sequence of indices, after every index that goes before it. */
  function Insert(keys: seq<real>, s: seq<nat>, i: nat): (r: seq<nat>)
    requires i < |keys| && InBounds(keys, s)
    ensures multiset(r) == multiset(s) + multiset{i}
    ensures InBounds(keys, r)
    decreases |s|
  {
    if s == [] || Before(keys, i, s[0]) then
      [i] + s
    else
      assert s == [s[0]] + s[1..];
      [s[0]] + Insert(keys, s[1..], i)
  }

  /** Inserting a new index into a ranked sequence keeps it ranked. */
  lemma {:induction false} InsertRanked(keys: seq<real>, s: seq<nat>, i: nat)
    requires i < |keys| && InBounds(keys, s) && Ranked(keys, s) && i !in s
    ensures Ranked(keys, Insert(keys, s, i))
    decreases |s|
  {
    var r := Insert(keys, s, i);
    if s == [] {
    } else if Before(keys, i, s[0]) {
      forall a, b | 0 <= a < b < |r| ensures Before(keys, r[a], r[b]) {
        if a == 0 && b > 1 {
          assert Before(keys, s[0], s[b - 1]);
        }
      }
    } else {
      var rest := Insert(keys, s[1..], i);
      InsertRanked(keys, s[1..], i);
      assert r == [s[0]] + rest;
      HeadBeforeInserted(keys, s, i);
      forall a, b | 0 <= a < b < |r| ensures Before(keys, r[a], r[b]) {
        if a == 0 {
          assert r[b] == rest[b - 1];
        } else {
          assert r[a] == rest[a - 1] && r[b] == rest[b - 1];
        }
      }
    }
  }

  /** When i goes after the head of a ranked s, the head goes before everything inserted after it. */
  lemma HeadBeforeInserted(keys: seq<real>, s: seq<nat>, i: nat)
    requires i < |keys| && InBounds(keys, s) && Ranked(keys, s) && i !in s
    requires s != [] && !Before(keys, i, s[0])
    ensures forall b :: 0 <= b < |Insert(keys, s[1..], i)| ==>
      Before(keys, s[0], Insert(keys, s[1..], i)[b])
  {
    var rest := Insert(keys, s[1..], i);
    forall b | 0 <= b < |rest| ensures Before(keys, s[0], rest[b]) {
      assert rest[b] in multiset(rest);
      if rest[b] != i {
        assert rest[b] in multiset(s[1..]);
        var p :| 0 <= p < |s[1..]| && s[1..][p] == rest[b];
        assert Before(keys, s[0], s[p + 1]);
      }
    }
  }

  /** The first n indices, ranked by inserting them one by one in input order. */
  function RankPrefix(keys: seq<real>, n: nat): (r: seq<nat>)
    requires n <= |keys|
    ensures InBounds(keys, r) && Ranked(keys, r)
    ensures multiset(r) == multiset(Indices(n))
  {
    if n == 0 then
      []
    else
      var last: nat := n - 1;
      var s := RankPrefix(keys, last);
      assert multiset(Indices(n)) == multiset(Indices(last)) + multiset{last} by {
        assert Indices(n) == Indices(last) + [last];
      }
      assert last !in s by {
        IndicesBelow(last);
        assert last !in multiset(s);
      }
      InsertRanked(keys, s, last);
      Insert(keys, s, last)
  }

  /** All indices of keys in stable descending order of their key. */
  function Ranking(keys: seq<real>): (r: seq<nat>)
    ensures IsRanking(keys, r) && |r| == |keys|
  {
    var r := RankPrefix(keys, |keys|);
    assert |r| == |multiset(r)| == |Indices(|keys|)|;
    r
  }

  /** The entries of s at the positions listed in order, in that order. */
  function Pick<T>(s: seq<T>, order: seq<nat>): (r: seq<T>)
    requires forall k :: 0 <= k < |order| ==> order[k] < |s|
    ensures |r| == |order|
    ensures forall k :: 0 <= k < |order| ==> r[k] == s[order[k]]
  {
    if order == [] then [] else [s[order[0]]] + Pick(s, order[1..])
  }

  /** Inserting index i into the order adds exactly the entry s[i] to what is picked. */
  lemma {:induction false} PickInsert<T>(s: seq<T>, keys: seq<real>, order: seq<nat>, i: nat)
    requires |keys| == |s| && i < |keys| && InBounds(keys, order)
    ensures multiset(Pick(s, Insert(keys, order, i))) == multiset(Pick(s, order)) + multiset{s[i]}
    decreases |order|
  {
    if order != [] && !Before(keys, i, order[0]) {
      assert order == [order[0]] + order[1..];
      PickInsert(s, keys, order[1..], i);
    }
  }

  /** Ranking the first n indices picks exactly the first n entries, reordered. */
  lemma {:induction false} PickRankPrefix<T>(s: seq<T>, keys: seq<real>, n: nat)
    requires |keys| == |s| && n <= |keys|
    ensures multiset(Pick(s, RankPrefix(keys, n))) == multiset(s[..n])
  {
    if n > 0 {
      var last: nat := n - 1;
      assert multiset(s[..n]) == multiset(s[..last]) + multiset{s[last]} by {
        assert s[..n] == s[..last] + [s[last]];
      }
      var prefix := RankPrefix(keys, last);
      assert RankPrefix(keys, n) == Insert(keys, prefix, last);
      PickRankPrefix(s, keys, last);
      PickInsert(s, keys, prefix, last);
    }
  }

  // ---------------------------------------------------------------------------
  // The formatting pipeline

  /** Pair score i with label i: the scores, in order, become the confidences. */
  function Labelled(scores: seq<real>, labels: seq<string>): (r: seq<Prediction>)
    requires |scores| <= |labels|
    ensures |r| == |scores| && Confidences(r) == scores
    ensures forall i :: 0 <= i < |r| ==> r[i].Label == labels[i]
  {
    seq(|scores|, i requires 0 <= i < |scores| => Prediction(labels[i], scores[i]))
  }

  function Confidences(ps: seq<Prediction>): seq<real>
  {
    seq(|ps|, i requires 0 <= i < |ps| => ps[i].Confidence)
  }

  /**
    The entries in stable descending order of confidence: a permutation of
    the entries whose confidences do not increase.
  */
  function OrderByDescending(ps: seq<Prediction>): (r: seq<Prediction>)
    ensures |r| == |ps| && multiset(r) == multiset(ps)
    ensures forall a, b :: 0 <= a < b < |r| ==> r[a].Confidence >= r[b].Confidence
    ensures r == Pick(ps, Ranking(Confidences(ps)))
  {
    PickRanking(ps);
    Pick(ps, Ranking(Confidences(ps)))
  }

  /** Reading the entries off in Ranking order permutes them into non-increasing confidence. */
  lemma PickRanking(ps: seq<Prediction>)
    ensures multiset(Pick(ps, Ranking(Confidences(ps)))) == multiset(ps)
    ensures forall a, b :: 0 <= a < b < |ps| ==>
      Pick(ps, Ranking(Confidences(ps)))[a].Confidence >= Pick(ps, Ranking(Confidences(ps)))[b].Confidence
  {
    var keys := Confidences(ps);
    var order := Ranking(keys);
    var r := Pick(ps, order);
    PickRankPrefix(ps, keys, |ps|);
    assert multiset(r) == multiset(ps) by {
      assert ps[..|ps|] == ps;
    }
    PickRankedSorted(ps, order);
  }

  /** Picking entries in Before order of their confidences gives non-increasing confidences. */
  lemma PickRankedSorted(ps: seq<Prediction>, order: seq<nat>)
    requires InBounds(Confidences(ps), order) && Ranked(Confidences(ps), order)
    ensures forall a, b :: 0 <= a < b < |order| ==>
      Pick(ps, order)[a].Confidence >= Pick(ps, order)[b].Confidence
  {
    var keys := Confidences(ps);
    forall a, b | 0 <= a < b < |order|
      ensures Pick(ps, order)[a].Confidence >= Pick(ps, order)[b].Confidence
    {
      assert Before(keys, order[a], order[b]);
    }
  }

  /** The first count entries, or all of them when there are fewer: a prefix of s. */
  function Take<T>(s: seq<T>, count: nat): (r: seq<T>)
    ensures |r| == if |s| < count then |s| else count
    ensures r <= s
  {
    if |s| <= count then s else s[..count]
  }

  /**
    The ten best (label, confidence) pairs, best first: min(10, n) of the
    pairs, none repeated beyond its multiplicity, confidences non-increasing.
  */
  function TopPredictions(scores: seq<real>, labels: seq<string>): (r: seq<Prediction>)
    requires |scores| <= |labels|
    ensures |r| == if |scores| < TOP_COUNT then |scores| else TOP_COUNT
    ensures multiset(r) <= multiset(Labelled(scores, labels))
    ensures forall a, b :: 0 <= a < b < |r| ==> r[a].Confidence >= r[b].Confidence
  {
    var sorted := OrderByDescending(Labelled(scores, labels));
    var r := Take(sorted, TOP_COUNT);
    assert sorted == r + sorted[|r|..];
    r
  }

  /**
    The whole formatter, including the failing label lookup: when there are
    more scores than labels, looking up the label of index |labels| fails and
    no response is produced.
  */
  function Format(scores: seq<real>, labels: seq<string>): (r: Result<seq<Prediction>>)
    ensures r.Err? <==> |scores| > |labels|
    ensures r.Err? ==> r.error == LabelIndexOutOfRange(|labels|)
    ensures r.Ok? ==> r.value == TopPredictions(scores, labels) && |r.value| <= TOP_COUNT
  {
    if |scores| > |labels| then Err(LabelIndexOutOfRange(|labels|))
    else Ok(TopPredictions(scores, labels))
  }

  // ---------------------------------------------------------------------------
  // Properties of the ranking

  /** A ranked sequence of n distinct indices in 0 .. n-1, with exactly Indices(n) as elements. */
  predicate IsRanking(keys: seq<real>, s: seq<nat>)
  {
    InBounds(keys, s) && Ranked(keys, s) && multiset(s) == multiset(Indices(|keys|))
  }

  lemma RankingIsPermutation(keys: seq<real>, s: seq<nat>)
    requires s == Ranking(keys)
    ensures IsRanking(keys, s) && |s| == |keys|
    ensures forall i :: 0 <= i < |keys| ==> i in s
  {
    assert |multiset(s)| == |multiset(Indices(|keys|))|;
    forall i | 0 <= i < |keys| ensures i in s {
      assert Indices(|keys|)[i] == i;
      assert i in multiset(Indices(|keys|));
    }
  }

  /**
    The stable descending order is unique: any sequence that lists every
    index once in Before order IS Ranking(keys). So Ranking is exactly the
    stable sort, whatever algorithm computes it.
  */
  lemma RankingUnique(keys: seq<real>, s: seq<nat>)
    requires IsRanking(keys, s)
    ensures s == Ranking(keys)
  {
    RankingIsPermutation(keys, Ranking(keys));
    RankedSameElements(keys, s, Ranking(keys));
  }

  lemma {:induction false} RankedSameElements(keys: seq<real>, s: seq<nat>, t: seq<nat>)
    requires InBounds(keys, s) && Ranked(keys, s)
    requires InBounds(keys, t) && Ranked(keys, t)
    requires multiset(s) == multiset(t)
    ensures s == t
    decreases |s|
  {
    assert |s| == |multiset(s)| == |t|;
    if s != [] {
      RankedSameHead(keys, s, t);
      RankedTail(keys, s);
      RankedTail(keys, t);
      assert multiset(s[1..]) == multiset(s) - multiset{s[0]} by {
        assert s == [s[0]] + s[1..];
      }
      assert multiset(t[1..]) == multiset(t) - multiset{t[0]} by {
        assert t == [t[0]] + t[1..];
      }
      RankedSameElements(keys, s[1..], t[1..]);
      assert s == [s[0]] + s[1..] && t == [t[0]] + t[1..];
    }
  }

  /** Two ranked sequences with the same elements start with the same index. */
  lemma RankedSameHead(keys: seq<real>, s: seq<nat>, t: seq<nat>)
    requires InBounds(keys, s) && Ranked(keys, s)
    requires InBounds(keys, t) && Ranked(keys, t)
    requires multiset(s) == multiset(t) && s != []
    ensures t != [] && s[0] == t[0]
  {
    assert s[0] in multiset(t) && s[0] in t;
    var p :| 0 <= p < |t| && t[p] == s[0];
    assert t[0] in multiset(s) && t[0] in s;
    var q :| 0 <= q < |s| && s[q] == t[0];
  }

  lemma RankedTail(keys: seq<real>, s: seq<nat>)
    requires InBounds(keys, s) && Ranked(keys, s) && s != []
    ensures InBounds(keys, s[1..]) && Ranked(keys, s[1..])
  {
    forall a, b | 0 <= a < b < |s[1..]| ensures Before(keys, s[1..][a], s[1..][b]) {
      assert s[1..][a] == s[a + 1] && s[1..][b] == s[b + 1];
    }
  }

  // ---------------------------------------------------------------------------
  // Properties of the response

  /** The source indices of the response entries, best first. */
  function Selected(scores: seq<real>): seq<nat>
  {
    Take(Ranking(scores), TOP_COUNT)
  }

  /**
    The response has min(10, n) entries for n scores, and entry k is
    (labels[i], scores[i]) for i = Selected(scores)[k], a valid index: every
    entry is one score with its own label.
  */
  lemma TopEntries(scores: seq<real>, labels: seq<string>)
    requires |scores| <= |labels|
    ensures |TopPredictions(scores, labels)| == |Selected(scores)|
         == if |scores| < TOP_COUNT then |scores| else TOP_COUNT
    ensures forall k :: 0 <= k < |Selected(scores)| ==>
      Selected(scores)[k] < |scores| &&
      TopPredictions(scores, labels)[k] == Prediction(labels[Selected(scores)[k]], scores[Selected(scores)[k]])
  {
    RankingIsPermutation(scores, Ranking(scores));
  }

  /** Selected indices are ranked: each goes Before every later one. */
  lemma SelectedRanked(scores: seq<real>, a: nat, b: nat)
    requires a < b < |Selected(scores)|
    ensures Selected(scores)[a] < |scores| && Selected(scores)[b] < |scores|
    ensures Before(scores, Selected(scores)[a], Selected(scores)[b])
  {
    RankingIsPermutation(scores, Ranking(scores));
    assert Selected(scores)[a] == Ranking(scores)[a] && Selected(scores)[b] == Ranking(scores)[b];
  }

  /** No two entries of the response come from the same source index. */
  lemma TopDistinct(scores: seq<real>, a: nat, b: nat)
    requires a < b < |Selected(scores)|
    ensures Selected(scores)[a] != Selected(scores)[b]
  {
    SelectedRanked(scores, a, b);
  }

  /** Entries of equal confidence keep the order of their source indices. */
  lemma TopStable(scores: seq<real>, labels: seq<string>, a: nat, b: nat)
    requires |scores| <= |labels|
    requires a < b < |TopPredictions(scores, labels)|
    requires TopPredictions(scores, labels)[a].Confidence == TopPredictions(scores, labels)[b].Confidence
    ensures b < |Selected(scores)| && Selected(scores)[a] < Selected(scores)[b]
  {
    TopEntries(scores, labels);
    SelectedRanked(scores, a, b);
  }

  /**
    Top-k: a score whose index was not selected is at most the confidence
    of every selected entry.
  */
  lemma TopDominates(scores: seq<real>, labels: seq<string>, j: nat, k: nat)
    requires |scores| <= |labels|
    requires j < |scores| && j !in Selected(scores)
    requires k < |TopPredictions(scores, labels)|
    ensures scores[j] <= TopPredictions(scores, labels)[k].Confidence
  {
    var order := Ranking(scores);
    TopEntries(scores, labels);
    RankingIsPermutation(scores, order);
    assert j in order;
    var p :| 0 <= p < |order| && order[p] == j;
    assert p >= |Selected(scores)|;
    assert Selected(scores)[k] == order[k];
    assert Before(scores, order[k], order[p]);
  }

  /** The first entry carries the highest score. */
  lemma TopFirstIsMaximum(scores: seq<real>, labels: seq<string>, j: nat)
    requires |scores| <= |labels|
    requires j < |scores|
    ensures |TopPredictions(scores, labels)| > 0
    ensures scores[j] <= TopPredictions(scores, labels)[0].Confidence
  {
    var order := Ranking(scores);
    TopEntries(scores, labels);
    RankingIsPermutation(scores, order);
    assert j in order;
    var p :| 0 <= p < |order| && order[p] == j;
    assert Selected(scores)[0] == order[0];
    if p > 0 {
      assert Before(scores, order[0], order[p]);
    }
  }

  /**
    If index m holds the highest score and no earlier index has it, the
    first entry is (labels[m], scores[m]).
  */
  lemma TopFirstIsArgMax(scores: seq<real>, labels: seq<string>, m: nat)
    requires |scores| <= |labels| && m < |scores|
    requires forall j :: 0 <= j < |scores| ==> scores[j] <= scores[m]
    requires forall j :: 0 <= j < m ==> scores[j] < scores[m]
    ensures |TopPredictions(scores, labels)| > 0
    ensures TopPredictions(scores, labels)[0] == Prediction(labels[m], scores[m])
  {
    var order := Ranking(scores);
    TopEntries(scores, labels);
    RankingIsPermutation(scores, order);
    assert m in order;
    var p :| 0 <= p < |order| && order[p] == m;
    assert Selected(scores)[0] == order[0];
    assert p == 0;
  }
}
