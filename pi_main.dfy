/**
 * The Raspberry Pi variant (pi-code/main.py): `load_templates` fills the
 * module-level dict in place, accepting `.m4a` and `.wav` files, and
 * `classify` matches a recorded sample array against it.
 */
module PiMain {
  import opened Types
  import opened TemplateDict
  import opened Selection
  import opened Loading

  /** MFCC extraction from a recorded int16 sample array, a foreign call. */
  type ArrayExtractor = seq<int> -> FeatureSeq

  /**
   * The file-name test of `load_templates`: only a name with a dot and a
   * three-letter extension ending in `a` or `v` passes.
   */
  predicate IsAudioFile(f: string)
    ensures IsAudioFile(f) ==> 4 <= |f| && f[|f| - 4] == '.' && (f[|f| - 1] == 'a' || f[|f| - 1] == 'v')
  {
    assert EndsWith(f, ".m4a") ==> f[|f| - 4..][0] == '.' && f[|f| - 4..][3] == 'a';
    assert EndsWith(f, ".wav") ==> f[|f| - 4..][0] == '.' && f[|f| - 4..][3] == 'v';
    EndsWith(f, ".m4a") || EndsWith(f, ".wav")
  }

  /**
   * `load_templates`: for each directory entry of the listing, reset its key
   * to an empty list and append the features of each audio child in order;
   * entries that are not directories are skipped.
   */
  method LoadTemplates(templates: TemplateTable, listing: seq<Entry>, features: Extractor)
    requires templates.Valid()
    modifies templates
    ensures templates.Valid()
    ensures templates.Value() == Load(old(templates.Value()), listing, IsAudioFile, features)
  {
    ghost var s0 := templates.Value();
    for i := 0 to |listing|
      invariant templates.Valid()
      invariant templates.Value() == Load(s0, listing[..i], IsAudioFile, features)
    {
      var entry := listing[i];
      assert listing[..i + 1][..i] == listing[..i];
      if !entry.isDir {
        continue;
      }
      ghost var before := templates.Value();
      templates.Set(entry.name, []);
      for j := 0 to |entry.children|
        invariant templates.Valid()
        invariant templates.Value()
                  == Put(before, entry.name, Features(entry.name, entry.children[..j], IsAudioFile, features))
      {
        var f := entry.children[j];
        assert entry.children[..j + 1][..j] == entry.children[..j];
        ghost var sofar := Features(entry.name, entry.children[..j], IsAudioFile, features);
        assert entry.children[..j + 1][j] == f;
        if EndsWith(f, ".m4a") || EndsWith(f, ".wav") {
          templates.Append(entry.name, features(entry.name, f));
          PutTwice(before, entry.name, sofar, sofar + [features(entry.name, f)]);
          assert IsAudioFile(f);
          assert Features(entry.name, entry.children[..j + 1], IsAudioFile, features)
                 == sofar + [features(entry.name, f)];
        } else {
          assert Features(entry.name, entry.children[..j + 1], IsAudioFile, features) == sofar;
        }
      }
      assert entry.children[..|entry.children|] == entry.children;
    }
    assert listing[..|listing|] == listing;
  }

  /**
   * `classify(audio_data)`: the closest template to the features of the
   * recording, `(None, inf)` when the dict holds no template.
   */
  method Classify(templates: TemplateTable, audio: seq<int>, extract: ArrayExtractor, dist: Metric)
    returns (phrase: Option<Label>, distance: Distance)
    requires templates.Valid()
    ensures Best(phrase, distance) == Nearest(extract(audio), Flatten(templates.Value()), dist)
    ensures ClosestMatch(templates.Value(), extract(audio), dist, phrase, distance)
  {
    var query := extract(audio);
    phrase, distance := NearestTemplate(templates, query, dist);
  }

  /**
   * The list `load_templates` builds for a directory holds the features of
   * exactly its `.m4a` and `.wav` children, in listing order.
   */
  lemma DirectoryList(dir: Label, names: seq<string>, features: Extractor)
    ensures var kept := Accepted(names, IsAudioFile);
            && |Features(dir, names, IsAudioFile, features)| == |kept|
            && (forall i :: 0 <= i < |kept| ==>
                  Features(dir, names, IsAudioFile, features)[i] == features(dir, kept[i]))
            && (forall f :: f in kept <==> f in names && (EndsWith(f, ".m4a") || EndsWith(f, ".wav")))
  {
    FeaturesOfAccepted(dir, names, IsAudioFile, features);
    AcceptedMembers(names, IsAudioFile);
  }

  /**
   * `main`'s start-up load into the empty dict: one key per directory entry in
   * listing order, each holding the features of its audio children, and no
   * key for anything else.
   */
  lemma StartupLoad(listing: seq<Entry>, features: Extractor)
    requires DistinctNames(listing)
    ensures Load(Empty, listing, IsAudioFile, features).keys == DirNames(listing)
    ensures forall i :: 0 <= i < |listing| && listing[i].isDir ==>
              listing[i].name in Load(Empty, listing, IsAudioFile, features).lists
              && Load(Empty, listing, IsAudioFile, features).lists[listing[i].name]
              == Features(listing[i].name, listing[i].children, IsAudioFile, features)
    ensures forall i :: 0 <= i < |listing| && !listing[i].isDir ==>
              listing[i].name !in Load(Empty, listing, IsAudioFile, features).lists
  {
    LoadOrder(Empty, listing, IsAudioFile, features);
    forall i | 0 <= i < |listing| && listing[i].isDir
      ensures listing[i].name in Load(Empty, listing, IsAudioFile, features).lists
              && Load(Empty, listing, IsAudioFile, features).lists[listing[i].name]
              == Features(listing[i].name, listing[i].children, IsAudioFile, features)
    {
      LoadLists(Empty, listing, IsAudioFile, features, i);
    }
    forall i | 0 <= i < |listing| && !listing[i].isDir
      ensures listing[i].name !in Load(Empty, listing, IsAudioFile, features).lists
    {
      NonDirectoryGetsNoKey(Empty, listing, IsAudioFile, features, i);
    }
  }
}
