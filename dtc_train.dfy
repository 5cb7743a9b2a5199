/**
 * The desktop training variant (DTC/train.py): the template dict is built
 * once at import time, each directory's list being a comprehension over its
 * `.m4a` files, and `classify` matches the template features of an audio file.
 */
module DtcTrain {
  import opened Types
  import opened TemplateDict
  import opened Selection
  import opened Loading

  /** MFCC extraction from an audio file path (`extract_mfcc`), a foreign call. */
  type PathExtractor = string -> FeatureSeq

  /** The file-name test of the comprehension: a `.m4a` name is never a `.wav` name. */
  predicate IsM4a(f: string)
    ensures IsM4a(f) ==> 4 <= |f| && !EndsWith(f, ".wav")
  {
    assert EndsWith(f, ".m4a") ==> f[|f| - 1] == f[|f| - 4..][3] == 'a';
    EndsWith(f, ".m4a")
  }

  /**
   * The module-level build: a fresh dict, and for each directory entry of the
   * listing its key set to the features of its `.m4a` children; entries that
   * are not directories are skipped.
   */
  method BuildTemplates(listing: seq<Entry>, features: Extractor) returns (templates: TemplateTable)
    ensures fresh(templates) && templates.Valid()
    ensures templates.Value() == Load(Empty, listing, IsM4a, features)
  {
    templates := new TemplateTable();
    for i := 0 to |listing|
      invariant templates.Valid()
      invariant templates.Value() == Load(Empty, listing[..i], IsM4a, features)
    {
      var entry := listing[i];
      assert listing[..i + 1][..i] == listing[..i];
      if !entry.isDir {
        continue;
      }
      templates.Set(entry.name, Features(entry.name, entry.children, IsM4a, features));
    }
    assert listing[..|listing|] == listing;
  }

  /**
   * `classify(audio_path)`: the closest template to the features of the file,
   * `(None, inf)` when the dict holds no template.
   */
  method Classify(templates: TemplateTable, audioPath: string, extract: PathExtractor, dist: Metric)
    returns (phrase: Option<Label>, distance: Distance)
    requires templates.Valid()
    ensures Best(phrase, distance) == Nearest(extract(audioPath), Flatten(templates.Value()), dist)
    ensures ClosestMatch(templates.Value(), extract(audioPath), dist, phrase, distance)
  {
    var query := extract(audioPath);
    phrase, distance := NearestTemplate(templates, query, dist);
  }

  /**
   * The list built for a directory holds the features of exactly its `.m4a`
   * children, in listing order, and of no `.wav` file.
   */
  lemma DirectoryList(dir: Label, names: seq<string>, features: Extractor)
    ensures var kept := Accepted(names, IsM4a);
            && |Features(dir, names, IsM4a, features)| == |kept|
            && (forall i :: 0 <= i < |kept| ==> Features(dir, names, IsM4a, features)[i] == features(dir, kept[i]))
            && (forall f :: f in kept <==> f in names && IsM4a(f))
            && (forall f :: f in kept ==> !EndsWith(f, ".wav"))
  {
    FeaturesOfAccepted(dir, names, IsM4a, features);
    AcceptedMembers(names, IsM4a);
  }

  /**
   * The built dict: one key per directory entry in listing order, each
   * holding the features of its `.m4a` children, and no key for anything else.
   */
  lemma BuiltDict(listing: seq<Entry>, features: Extractor)
    requires DistinctNames(listing)
    ensures Load(Empty, listing, IsM4a, features).keys == DirNames(listing)
    ensures forall i :: 0 <= i < |listing| && listing[i].isDir ==>
              listing[i].name in Load(Empty, listing, IsM4a, features).lists
              && Load(Empty, listing, IsM4a, features).lists[listing[i].name]
                 == Features(listing[i].name, listing[i].children, IsM4a, features)
    ensures forall i :: 0 <= i < |listing| && !listing[i].isDir ==>
              listing[i].name !in Load(Empty, listing, IsM4a, features).lists
  {
    LoadOrder(Empty, listing, IsM4a, features);
    forall i | 0 <= i < |listing| && listing[i].isDir
      ensures listing[i].name in Load(Empty, listing, IsM4a, features).lists
              && Load(Empty, listing, IsM4a, features).lists[listing[i].name]
                 == Features(listing[i].name, listing[i].children, IsM4a, features)
    {
      LoadLists(Empty, listing, IsM4a, features, i);
    }
    forall i | 0 <= i < |listing| && !listing[i].isDir
      ensures listing[i].name !in Load(Empty, listing, IsM4a, features).lists
    {
      NonDirectoryGetsNoKey(Empty, listing, IsM4a, features, i);
    }
  }
}
