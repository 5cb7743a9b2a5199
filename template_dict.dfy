/**
 * The module-level `templates` dict of both variants: a Python dict from phrase
 * label to a list of template feature sequences, iterated in insertion order.
 */
module TemplateDict {
  import opened Types

  /**
   * The value of the dict: its keys in insertion order and the list under each key.
   */
  datatype Store = Store(keys: seq<Label>, lists: map<Label, seq<FeatureSeq>>)
  {
    /** Every key is listed exactly once, and only keys are listed. */
    ghost predicate Valid()
    {
      && (forall i :: 0 <= i < |keys| ==> keys[i] in lists)
      && (forall k :: k in lists ==> k in keys)
      && (forall i, j :: 0 <= i < j < |keys| ==> keys[i] != keys[j])
    }
  }

  /** `{}` */
  const Empty := Store([], map[])

  /**
   * `d[k] = v`: a new key goes to the end of the iteration order, an existing
   * key keeps its place and only its value changes.
   */
  function Put(s: Store, k: Label, v: seq<FeatureSeq>): (r: Store)
    requires s.Valid()
    ensures r.Valid()
    ensures r.lists == s.lists[k := v]
    ensures k in s.lists ==> r.keys == s.keys
    ensures k !in s.lists ==> r.keys == s.keys + [k]
  {
    if k in s.lists then Store(s.keys, s.lists[k := v])
    else Store(s.keys + [k], s.lists[k := v])
  }

  /** Assigning twice to one key leaves only the second value. */
  lemma PutTwice(s: Store, k: Label, v: seq<FeatureSeq>, w: seq<FeatureSeq>)
    requires s.Valid()
    ensures Put(Put(s, k, v), k, w) == Put(s, k, w)
  {
    assert s.lists[k := v][k := w] == s.lists[k := w];
    if k in s.lists {
      assert Put(s, k, v) == Store(s.keys, s.lists[k := v]);
    } else {
      assert Put(s, k, v) == Store(s.keys + [k], s.lists[k := v]);
    }
  }

  /** Assigning a key the value it already has changes nothing. */
  lemma PutSame(s: Store, k: Label)
    requires s.Valid() && k in s.lists
    ensures Put(s, k, s.lists[k]) == s
  {
    assert s.lists[k := s.lists[k]] == s.lists;
  }

  /** The dict object that `load_templates` and the build loop fill in place. */
  class TemplateTable {
    var keys: seq<Label>
    var lists: map<Label, seq<FeatureSeq>>

    /** The dict's current value. */
    function Value(): Store
      reads this
    {
      Store(keys, lists)
    }

    ghost predicate Valid()
      reads this
    {
      Value().Valid()
    }

    /** `templates = {}` */
    constructor ()
      ensures Valid() && Value() == Empty
    {
      keys := [];
      lists := map[];
    }

    /** `templates[k] = v` */
    method Set(k: Label, v: seq<FeatureSeq>)
      requires Valid()
      modifies this
      ensures Valid() && Value() == Put(old(Value()), k, v)
    {
      if k !in lists {
        keys := keys + [k];
      }
      lists := lists[k := v];
    }

    /** `templates[k].append(x)`; the key is present at every call site. */
    method Append(k: Label, x: FeatureSeq)
      requires Valid() && k in lists
      modifies this
      ensures Valid() && Value() == Put(old(Value()), k, old(lists[k]) + [x])
    {
      lists := lists[k := lists[k] + [x]];
    }
  }
}
