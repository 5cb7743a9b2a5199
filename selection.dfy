/**
 * The nearest-template rule of `classify`, shared verbatim by both variants:
 * visit every template in dict order (labels in insertion order, then each
 * phrase's list in order), keep a running minimum under a strict `<`, and
 * start from `(None, inf)`.
 */
module Selection {
  import opened Types
  import opened TemplateDict

  /** The DTW distance, a foreign call: any function of two feature sequences. */
  type Metric = (FeatureSeq, FeatureSeq) -> real

  /** `best_phrase, best_distance` */
  datatype Best = Best(phrase: Option<Label>, distance: Distance)

  /** The state before the loop: `None, float('inf')`. */
  const NoMatch := Best(None, Infinite)

  /** The templates of one phrase, each tagged with the phrase. */
  function Pairs(phrase: Label, ts: seq<FeatureSeq>): seq<(Label, FeatureSeq)>
  {
    seq(|ts|, i requires 0 <= i < |ts| => (phrase, ts[i]))
  }

  /** The templates under the first `n` keys, in the order the nested loop visits them. */
  function FlattenPrefix(s: Store, n: nat): seq<(Label, FeatureSeq)>
    requires s.Valid() && n <= |s.keys|
  {
    if n == 0 then []
    else FlattenPrefix(s, n - 1) + Pairs(s.keys[n - 1], s.lists[s.keys[n - 1]])
  }

  /** Every template of the dict, in visiting order. */
  function Flatten(s: Store): (r: seq<(Label, FeatureSeq)>)
    requires s.Valid()
    ensures forall i :: 0 <= i < |r| ==> r[i].0 in s.lists && r[i].1 in s.lists[r[i].0]
  {
    FlattenPrefixMembers(s, |s.keys|);
    assert forall i :: 0 <= i < |FlattenPrefix(s, |s.keys|)| ==> FlattenPrefix(s, |s.keys|)[i] in FlattenPrefix(s, |s.keys|);
    FlattenPrefix(s, |s.keys|)
  }

  /** One iteration of the inner loop body. */
  /**
   * The result is either the old state or the visited template with its
   * distance, never worse than either.
   */
  function Step(query: FeatureSeq, dist: Metric, b: Best, t: (Label, FeatureSeq)): (r: Best)
    ensures r == b || r == Best(Some(t.0), Finite(dist(query, t.1)))
    ensures r.distance.Finite? && r.distance.value <= dist(query, t.1)
    ensures b.distance.Finite? ==> r.distance.value <= b.distance.value
  {
    var d := dist(query, t.1);
    if Below(d, b.distance) then Best(Some(t.0), Finite(d)) else b
  }

  /**
   * The running minimum after the loop has visited `ts`. Phrase and distance
   * change together, so one is absent exactly when the other is.
   */
  function Nearest(query: FeatureSeq, ts: seq<(Label, FeatureSeq)>, dist: Metric): (r: Best)
    ensures r.phrase.None? <==> r.distance.Infinite?
  {
    if |ts| == 0 then NoMatch
    else Step(query, dist, Nearest(query, ts[..|ts| - 1], dist), ts[|ts| - 1])
  }

  /**
   * Index `k` holds the first template attaining the least distance: none is
   * closer, and every earlier one is strictly farther.
   */
  ghost predicate FirstMinimum(query: FeatureSeq, ts: seq<(Label, FeatureSeq)>, dist: Metric, k: int)
  {
    && 0 <= k < |ts|
    && (forall j :: 0 <= j < |ts| ==> dist(query, ts[k].1) <= dist(query, ts[j].1))
    && (forall j :: 0 <= j < k ==> dist(query, ts[k].1) < dist(query, ts[j].1))
  }

  lemma NearestSnoc(query: FeatureSeq, ts: seq<(Label, FeatureSeq)>, t: (Label, FeatureSeq), dist: Metric)
    ensures Nearest(query, ts + [t], dist) == Step(query, dist, Nearest(query, ts, dist), t)
  {
    assert (ts + [t])[..|ts|] == ts;
  }

  /** The inner loop's step: one more template of the current label has been visited. */
  lemma NearestVisitsNext(query: FeatureSeq, done: seq<(Label, FeatureSeq)>, key: Label, list: seq<FeatureSeq>,
                          j: int, dist: Metric)
    requires 0 <= j < |list|
    ensures Nearest(query, done + Pairs(key, list[..j + 1]), dist)
            == Step(query, dist, Nearest(query, done + Pairs(key, list[..j]), dist), (key, list[j]))
  {
    assert Pairs(key, list[..j + 1]) == Pairs(key, list[..j]) + [(key, list[j])];
    assert done + Pairs(key, list[..j + 1]) == done + Pairs(key, list[..j]) + [(key, list[j])];
    NearestSnoc(query, done + Pairs(key, list[..j]), (key, list[j]), dist);
  }

  /**
   * The phrase and the distance are absent together, and exactly when there
   * is no template to visit.
   */
  lemma {:induction false} NearestNoneIffEmpty(query: FeatureSeq, ts: seq<(Label, FeatureSeq)>, dist: Metric)
    ensures Nearest(query, ts, dist).phrase.None? <==> |ts| == 0
    ensures Nearest(query, ts, dist).distance.Infinite? <==> |ts| == 0
  {
    if |ts| > 0 {
      NearestNoneIffEmpty(query, ts[..|ts| - 1], dist);
    }
  }

  /**
   * With at least one template, the result is the phrase and the distance of
   * the first template at the least distance.
   */
  lemma {:induction false} NearestIsFirstMinimum(query: FeatureSeq, ts: seq<(Label, FeatureSeq)>, dist: Metric)
    requires |ts| > 0
    ensures exists k :: FirstMinimum(query, ts, dist, k)
                     && Nearest(query, ts, dist) == Best(Some(ts[k].0), Finite(dist(query, ts[k].1)))
  {
    var n := |ts|;
    var p := ts[..n - 1];
    var last := ts[n - 1];
    assert ts == p + [last];
    NearestSnoc(query, p, last, dist);
    if n == 1 {
      assert FirstMinimum(query, ts, dist, 0);
    } else {
      NearestIsFirstMinimum(query, p, dist);
      var k :| FirstMinimum(query, p, dist, k)
            && Nearest(query, p, dist) == Best(Some(p[k].0), Finite(dist(query, p[k].1)));
      var d, m := dist(query, last.1), dist(query, p[k].1);
      if d < m {
        forall j | 0 <= j < n - 1
          ensures d < dist(query, ts[j].1)
        {
          assert ts[j] == p[j];
        }
        assert FirstMinimum(query, ts, dist, n - 1);
      } else {
        forall j | 0 <= j < n
          ensures m <= dist(query, ts[j].1)
        {
          if j < n - 1 {
            assert ts[j] == p[j];
          }
        }
        forall j | 0 <= j < k
          ensures m < dist(query, ts[j].1)
        {
          assert ts[j] == p[j];
        }
        assert ts[k] == p[k];
        assert FirstMinimum(query, ts, dist, k);
      }
    }
  }

  /** The first minimum is unique, so it decides the phrase. */
  lemma FirstMinimumUnique(query: FeatureSeq, ts: seq<(Label, FeatureSeq)>, dist: Metric, k1: int, k2: int)
    requires FirstMinimum(query, ts, dist, k1) && FirstMinimum(query, ts, dist, k2)
    ensures k1 == k2
  {
    assert dist(query, ts[k1].1) == dist(query, ts[k2].1);
  }

  /** A later template at a distance equal to the current minimum never replaces it. */
  lemma LaterTieKeepsEarlier(query: FeatureSeq, ts: seq<(Label, FeatureSeq)>, t: (Label, FeatureSeq), dist: Metric)
    requires Nearest(query, ts, dist).distance == Finite(dist(query, t.1))
    ensures Nearest(query, ts + [t], dist) == Nearest(query, ts, dist)
  {
    NearestSnoc(query, ts, t, dist);
  }

  /** A template tagged `(l, t)` is visited exactly when `t` is in the list under one of the first `n` keys. */
  lemma {:induction false} FlattenPrefixMembers(s: Store, n: nat)
    requires s.Valid() && n <= |s.keys|
    ensures forall x :: x in FlattenPrefix(s, n) <==> x.0 in s.keys[..n] && x.1 in s.lists[x.0]
  {
    if n > 0 {
      FlattenPrefixMembers(s, n - 1);
      var l := s.keys[n - 1];
      assert s.keys[..n] == s.keys[..n - 1] + [l];
      forall x ensures x in Pairs(l, s.lists[l]) <==> x.0 == l && x.1 in s.lists[l] {
        if x.0 == l && x.1 in s.lists[l] {
          var i :| 0 <= i < |s.lists[l]| && s.lists[l][i] == x.1;
          assert Pairs(l, s.lists[l])[i] == x;
        }
      }
    }
  }

  /** The visited templates are exactly the templates of the dict. */
  lemma FlattenMembers(s: Store)
    requires s.Valid()
    ensures forall x :: x in Flatten(s) <==> x.0 in s.lists && x.1 in s.lists[x.0]
  {
    FlattenPrefixMembers(s, |s.keys|);
    assert s.keys[..|s.keys|] == s.keys;
  }

  /** Something is there to visit exactly when some phrase's list is non-empty. */
  ghost predicate HasTemplates(s: Store)
  {
    exists k :: k in s.lists && s.lists[k] != []
  }

  /**
   * What `classify` returns, stated over the dict itself: no phrase and an
   * infinite distance exactly when the dict has no template; otherwise a key
   * of the dict whose list holds a template at exactly the returned distance,
   * no template of the dict is closer, and the phrase is that of the first
   * closest template in visiting order.
   */
  ghost predicate ClosestMatch(s: Store, query: FeatureSeq, dist: Metric, phrase: Option<Label>, distance: Distance)
    requires s.Valid()
  {
    && (phrase.None? <==> distance.Infinite?)
    && (phrase.None? <==> !HasTemplates(s))
    && (distance.Finite? ==>
          forall k, t :: k in s.lists && t in s.lists[k] ==> distance.value <= dist(query, t))
    && (phrase.Some? ==>
          && phrase.value in s.lists
          && exists t :: t in s.lists[phrase.value] && distance == Finite(dist(query, t)))
    && (phrase.Some? ==>
          exists k :: && FirstMinimum(query, Flatten(s), dist, k)
                      && phrase.value == Flatten(s)[k].0
                      && distance == Finite(dist(query, Flatten(s)[k].1)))
  }

  /** The running minimum over the dict is its closest match. */
  lemma NearestOverStore(query: FeatureSeq, s: Store, dist: Metric)
    requires s.Valid()
    ensures ClosestMatch(s, query, dist, Nearest(query, Flatten(s), dist).phrase,
                         Nearest(query, Flatten(s), dist).distance)
  {
    var ts := Flatten(s);
    FlattenMembers(s);
    NearestNoneIffEmpty(query, ts, dist);
    HasTemplatesIffVisited(s);
    if |ts| > 0 {
      NearestIsFirstMinimum(query, ts, dist);
      var m :| FirstMinimum(query, ts, dist, m)
            && Nearest(query, ts, dist) == Best(Some(ts[m].0), Finite(dist(query, ts[m].1)));
      assert ts[m] in ts;
      MinimumOverStore(query, s, dist, m);
    }
  }

  lemma HasTemplatesIffVisited(s: Store)
    requires s.Valid()
    ensures HasTemplates(s) <==> |Flatten(s)| > 0
  {
    var ts := Flatten(s);
    FlattenMembers(s);
    if HasTemplates(s) {
      var k :| k in s.lists && s.lists[k] != [];
      assert (k, s.lists[k][0]) in ts;
    }
    if |ts| > 0 {
      assert ts[0] in ts;
    }
  }

  /** A least distance over the visited templates is a least distance over the dict. */
  lemma MinimumOverStore(query: FeatureSeq, s: Store, dist: Metric, m: int)
    requires s.Valid() && FirstMinimum(query, Flatten(s), dist, m)
    ensures forall k, t :: k in s.lists && t in s.lists[k] ==> dist(query, Flatten(s)[m].1) <= dist(query, t)
  {
    var ts := Flatten(s);
    FlattenMembers(s);
    forall k, t | k in s.lists && t in s.lists[k]
      ensures dist(query, ts[m].1) <= dist(query, t)
    {
      assert (k, t) in ts;
      var j :| 0 <= j < |ts| && ts[j] == (k, t);
    }
  }

  /**
   * The closest match is unique: repeated classification of one query against
   * one dict gives one answer.
   */
  lemma ClosestMatchUnique(s: Store, query: FeatureSeq, dist: Metric,
                           p1: Option<Label>, d1: Distance, p2: Option<Label>, d2: Distance)
    requires s.Valid()
    requires ClosestMatch(s, query, dist, p1, d1) && ClosestMatch(s, query, dist, p2, d2)
    ensures p1 == p2 && d1 == d2
  {
    if p1.Some? && p2.Some? {
      var ts := Flatten(s);
      var k1 :| FirstMinimum(query, ts, dist, k1) && p1.value == ts[k1].0 && d1 == Finite(dist(query, ts[k1].1));
      var k2 :| FirstMinimum(query, ts, dist, k2) && p2.value == ts[k2].0 && d2 == Finite(dist(query, ts[k2].1));
      FirstMinimumUnique(query, ts, dist, k1, k2);
    }
  }

  /**
   * The loop of `classify`: the running minimum over every template of
   * `templates`, which is the dict's closest match.
   */
  method NearestTemplate(templates: TemplateTable, query: FeatureSeq, dist: Metric)
    returns (phrase: Option<Label>, distance: Distance)
    requires templates.Valid()
    ensures Best(phrase, distance) == Nearest(query, Flatten(templates.Value()), dist)
    ensures ClosestMatch(templates.Value(), query, dist, phrase, distance)
  {
    ghost var s := templates.Value();
    phrase, distance := None, Infinite;
    for i := 0 to |templates.keys|
      invariant Best(phrase, distance) == Nearest(query, FlattenPrefix(s, i), dist)
    {
      var key := templates.keys[i];
      var list := templates.lists[key];
      ghost var done := FlattenPrefix(s, i);
      assert done + Pairs(key, list[..0]) == done;
      for j := 0 to |list|
        invariant Best(phrase, distance) == Nearest(query, done + Pairs(key, list[..j]), dist)
      {
        var d := dist(query, list[j]);
        NearestVisitsNext(query, done, key, list, j, dist);
        if distance.Infinite? || d < distance.value {
          distance := Finite(d);
          phrase := Some(key);
        }
      }
      assert list[..|list|] == list;
    }
    NearestOverStore(query, s, dist);
  }
}
