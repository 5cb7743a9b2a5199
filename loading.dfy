/**
 * How both variants fill the `templates` dict from the listing of the template
 * directory: skip entries that are not directories, and for each directory set
 * its key to the features of its accepted children, in listing order. The two
 * variants differ only in which file names they accept.
 */
module Loading {
  import opened Types
  import opened TemplateDict

  /**
   * Feature extraction of one template file (`librosa.load` then MFCC), a
   * foreign call: the file is named by its directory and its own name.
   */
  type Extractor = (Label, string) -> FeatureSeq

  /** The names `accept` keeps, in listing order. */
  function Accepted(names: seq<string>, accept: string -> bool): (r: seq<string>)
    ensures |r| <= |names|
  {
    if |names| == 0 then []
    else Accepted(names[..|names| - 1], accept)
         + (if accept(names[|names| - 1]) then [names[|names| - 1]] else [])
  }

  /** `[features(dir, f) for f in names if accept(f)]` */
  function Features(dir: Label, names: seq<string>, accept: string -> bool, features: Extractor): (r: seq<FeatureSeq>)
    ensures |r| == |Accepted(names, accept)|
  {
    if |names| == 0 then []
    else Features(dir, names[..|names| - 1], accept, features)
         + (if accept(names[|names| - 1]) then [features(dir, names[|names| - 1])] else [])
  }

  /** One iteration of the outer loop over the listing. */
  function Admit(s: Store, e: Entry, accept: string -> bool, features: Extractor): (r: Store)
    requires s.Valid()
    ensures r.Valid()
  {
    if !e.isDir then s else Put(s, e.name, Features(e.name, e.children, accept, features))
  }

  /** The dict after the outer loop has run over `listing`, starting from `s`. */
  function Load(s: Store, listing: seq<Entry>, accept: string -> bool, features: Extractor): (r: Store)
    requires s.Valid()
    ensures r.Valid()
  {
    if |listing| == 0 then s
    else Admit(Load(s, listing[..|listing| - 1], accept, features), listing[|listing| - 1], accept, features)
  }

  /** The names of the directory entries of `listing`, in listing order. */
  function DirNames(listing: seq<Entry>): seq<string>
  {
    if |listing| == 0 then []
    else DirNames(listing[..|listing| - 1])
         + (if listing[|listing| - 1].isDir then [listing[|listing| - 1].name] else [])
  }

  /** A name is kept exactly when it is listed and accepted. */
  lemma {:induction false} AcceptedMembers(names: seq<string>, accept: string -> bool)
    ensures forall f :: f in Accepted(names, accept) <==> f in names && accept(f)
  {
    if |names| > 0 {
      var n := |names|;
      AcceptedMembers(names[..n - 1], accept);
      assert names == names[..n - 1] + [names[n - 1]];
    }
  }

  /** Filtering keeps the listing order: it distributes over concatenation. */
  lemma {:induction false} AcceptedConcat(a: seq<string>, b: seq<string>, accept: string -> bool)
    ensures Accepted(a + b, accept) == Accepted(a, accept) + Accepted(b, accept)
  {
    if |b| == 0 {
      assert a + b == a;
    } else {
      var n := |b|;
      AcceptedConcat(a, b[..n - 1], accept);
      assert (a + b)[..|a + b| - 1] == a + b[..n - 1];
    }
  }

  /** The list under a directory holds the features of exactly its accepted names, in order. */
  lemma {:induction false} FeaturesOfAccepted(dir: Label, names: seq<string>, accept: string -> bool, features: Extractor)
    ensures |Features(dir, names, accept, features)| == |Accepted(names, accept)|
    ensures forall i :: 0 <= i < |Accepted(names, accept)| ==>
              Features(dir, names, accept, features)[i] == features(dir, Accepted(names, accept)[i])
  {
    if |names| > 0 {
      FeaturesOfAccepted(dir, names[..|names| - 1], accept, features);
    }
  }

  /** A directory without an accepted file still gets a key, with an empty list. */
  lemma NoAcceptedNoFeatures(dir: Label, names: seq<string>, accept: string -> bool, features: Extractor)
    ensures Features(dir, names, accept, features) == [] <==> forall f :: f in names ==> !accept(f)
  {
    FeaturesOfAccepted(dir, names, accept, features);
    AcceptedMembers(names, accept);
    if Accepted(names, accept) != [] {
      assert Accepted(names, accept)[0] in Accepted(names, accept);
    }
  }

  lemma {:induction false} DirNamesMembers(listing: seq<Entry>)
    ensures forall k :: k in DirNames(listing) <==>
              exists i :: 0 <= i < |listing| && listing[i].isDir && listing[i].name == k
  {
    if |listing| > 0 {
      var n := |listing|;
      DirNamesMembers(listing[..n - 1]);
      forall k | exists i :: 0 <= i < n && listing[i].isDir && listing[i].name == k
        ensures k in DirNames(listing)
      {
        var i :| 0 <= i < n && listing[i].isDir && listing[i].name == k;
        if i < n - 1 {
          assert listing[..n - 1][i] == listing[i];
        }
      }
    }
  }

  /**
   * The keys after loading are the old keys and the names of the directory
   * entries; a key that no directory entry names keeps its old list.
   */
  lemma {:induction false} LoadLabels(s: Store, listing: seq<Entry>, accept: string -> bool, features: Extractor)
    requires s.Valid()
    ensures forall k :: k in Load(s, listing, accept, features).lists <==> k in s.lists || k in DirNames(listing)
    ensures forall k :: k in s.lists && k !in DirNames(listing) ==>
              Load(s, listing, accept, features).lists[k] == s.lists[k]
  {
    if |listing| > 0 {
      LoadLabels(s, listing[..|listing| - 1], accept, features);
    }
  }

  /** An entry that is not a directory gets no key. */
  lemma NonDirectoryGetsNoKey(s: Store, listing: seq<Entry>, accept: string -> bool, features: Extractor, i: int)
    requires s.Valid() && DistinctNames(listing)
    requires 0 <= i < |listing| && !listing[i].isDir && listing[i].name !in s.lists
    ensures listing[i].name !in Load(s, listing, accept, features).lists
  {
    LoadLabels(s, listing, accept, features);
    DirNamesMembers(listing);
  }

  /**
   * Every directory entry gets a key whose list is the features of its
   * accepted children, even when that list is empty.
   */
  lemma {:induction false} LoadLists(s: Store, listing: seq<Entry>, accept: string -> bool, features: Extractor, i: int)
    requires s.Valid() && DistinctNames(listing)
    requires 0 <= i < |listing| && listing[i].isDir
    ensures listing[i].name in Load(s, listing, accept, features).lists
    ensures Load(s, listing, accept, features).lists[listing[i].name]
            == Features(listing[i].name, listing[i].children, accept, features)
  {
    var n := |listing|;
    var p, last := listing[..n - 1], listing[n - 1];
    var q := Load(s, p, accept, features);
    assert Load(s, listing, accept, features) == Admit(q, last, accept, features);
    if i < n - 1 {
      assert p[i] == listing[i];
      DistinctPrefix(listing, n - 1);
      LoadLists(s, p, accept, features, i);
      assert last.name != listing[i].name;
    }
  }

  lemma DistinctPrefix(listing: seq<Entry>, n: nat)
    requires DistinctNames(listing) && n <= |listing|
    ensures DistinctNames(listing[..n])
  {
    forall i, j | 0 <= i < j < n
      ensures listing[..n][i].name != listing[..n][j].name
    {
      assert listing[..n][i] == listing[i] && listing[..n][j] == listing[j];
    }
  }

  /** With distinct names, the last entry's name is not yet a key when its turn comes. */
  lemma LastNameIsNew(s: Store, listing: seq<Entry>, accept: string -> bool, features: Extractor)
    requires s.Valid() && DistinctNames(listing) && |listing| > 0
    requires listing[|listing| - 1].name !in s.lists
    ensures listing[|listing| - 1].name !in Load(s, listing[..|listing| - 1], accept, features).lists
  {
    var p, last := listing[..|listing| - 1], listing[|listing| - 1];
    LoadLabels(s, p, accept, features);
    DirNamesMembers(p);
    forall i | 0 <= i < |p|
      ensures p[i].name != last.name
    {
      assert p[i] == listing[i];
    }
  }

  /** One step of the listing loop appends a new directory name to the keys. */
  lemma AdmitKeys(q: Store, e: Entry, accept: string -> bool, features: Extractor)
    requires q.Valid()
    ensures e.isDir && e.name !in q.lists ==> Admit(q, e, accept, features).keys == q.keys + [e.name]
    ensures !e.isDir ==> Admit(q, e, accept, features).keys == q.keys
  {
  }

  /**
   * Loaded into an empty dict, the keys are the directory names in listing
   * order; in general new directory names go after the old keys.
   */
  lemma {:induction false} LoadOrder(s: Store, listing: seq<Entry>, accept: string -> bool, features: Extractor)
    requires s.Valid() && DistinctNames(listing)
    requires forall i :: 0 <= i < |listing| && listing[i].isDir ==> listing[i].name !in s.lists
    ensures Load(s, listing, accept, features).keys == s.keys + DirNames(listing)
  {
    var n := |listing|;
    if n > 0 {
      var p, last := listing[..n - 1], listing[n - 1];
      assert forall i :: 0 <= i < |p| ==> p[i] == listing[i];
      DistinctPrefix(listing, n - 1);
      LoadOrder(s, p, accept, features);
      var q := Load(s, p, accept, features);
      assert Load(s, listing, accept, features) == Admit(q, last, accept, features);
      assert DirNames(listing) == DirNames(p) + (if last.isDir then [last.name] else []);
      if last.isDir {
        LastNameIsNew(s, listing, accept, features);
      }
      AdmitKeys(q, last, accept, features);
    }
  }

  /** Loading into a dict that already holds what the listing gives changes nothing. */
  lemma {:induction false} LoadFixed(t: Store, listing: seq<Entry>, accept: string -> bool, features: Extractor)
    requires t.Valid()
    requires forall i :: 0 <= i < |listing| && listing[i].isDir ==>
               listing[i].name in t.lists
               && t.lists[listing[i].name] == Features(listing[i].name, listing[i].children, accept, features)
    ensures Load(t, listing, accept, features) == t
  {
    var n := |listing|;
    if n > 0 {
      var p := listing[..n - 1];
      forall i | 0 <= i < |p| && p[i].isDir
        ensures p[i].name in t.lists
                && t.lists[p[i].name] == Features(p[i].name, p[i].children, accept, features)
      {
        assert p[i] == listing[i];
      }
      LoadFixed(t, p, accept, features);
      if listing[n - 1].isDir {
        PutSame(t, listing[n - 1].name);
      }
    }
  }

  /**
   * Loading the same listing twice gives the dict that loading it once gives,
   * because each directory's list is reset before it is filled.
   */
  lemma LoadIdempotent(s: Store, listing: seq<Entry>, accept: string -> bool, features: Extractor)
    requires s.Valid() && DistinctNames(listing)
    ensures Load(Load(s, listing, accept, features), listing, accept, features) == Load(s, listing, accept, features)
  {
    forall i | 0 <= i < |listing| && listing[i].isDir
      ensures listing[i].name in Load(s, listing, accept, features).lists
              && Load(s, listing, accept, features).lists[listing[i].name]
                 == Features(listing[i].name, listing[i].children, accept, features)
    {
      LoadLists(s, listing, accept, features, i);
    }
    LoadFixed(Load(s, listing, accept, features), listing, accept, features);
  }
}
