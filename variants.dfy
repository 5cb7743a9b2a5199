/** How the two variants' template dicts relate: they differ only in the `.wav` files. */
module Variants {
  import opened Types
  import opened TemplateDict
  import opened Loading
  import PiMain
  import DtcTrain

  /** Filters that agree on every name give the same list. */
  lemma {:induction false} FeaturesAgree(dir: Label, names: seq<string>, a1: string -> bool, a2: string -> bool,
                                         features: Extractor)
    requires forall i :: 0 <= i < |names| ==> a1(names[i]) == a2(names[i])
    ensures Features(dir, names, a1, features) == Features(dir, names, a2, features)
  {
    if |names| > 0 {
      FeaturesAgree(dir, names[..|names| - 1], a1, a2, features);
    }
  }

  /** The `.m4a` files of a directory are those of its audio files that end in `.m4a`. */
  lemma {:induction false} M4aAmongAudio(names: seq<string>)
    ensures Accepted(names, DtcTrain.IsM4a) == Accepted(Accepted(names, PiMain.IsAudioFile), DtcTrain.IsM4a)
  {
    if |names| > 0 {
      var n := |names|;
      var p := names[..n - 1];
      M4aAmongAudio(p);
      if PiMain.IsAudioFile(names[n - 1]) {
        var x := names[n - 1];
        AcceptedConcat(Accepted(p, PiMain.IsAudioFile), [x], DtcTrain.IsM4a);
        assert [x][..0] == [];
        assert Accepted([x], DtcTrain.IsM4a) == if DtcTrain.IsM4a(x) then [x] else [];
        assert Accepted(names, PiMain.IsAudioFile) == Accepted(p, PiMain.IsAudioFile) + [x];
      } else {
        assert !DtcTrain.IsM4a(names[n - 1]);
        assert Accepted(names, PiMain.IsAudioFile) == Accepted(p, PiMain.IsAudioFile);
        assert Accepted(names, DtcTrain.IsM4a) == Accepted(p, DtcTrain.IsM4a);
      }
    }
  }

  /** A template directory without `.wav` files gives both variants the same dict. */
  lemma {:induction false} SameDictWithoutWav(s: Store, listing: seq<Entry>, features: Extractor)
    requires s.Valid()
    requires forall i, j :: 0 <= i < |listing| && 0 <= j < |listing[i].children| ==>
               !EndsWith(listing[i].children[j], ".wav")
    ensures Load(s, listing, DtcTrain.IsM4a, features) == Load(s, listing, PiMain.IsAudioFile, features)
  {
    var n := |listing|;
    if n > 0 {
      var p, last := listing[..n - 1], listing[n - 1];
      forall i, j | 0 <= i < |p| && 0 <= j < |p[i].children|
        ensures !EndsWith(p[i].children[j], ".wav")
      {
        assert p[i] == listing[i];
      }
      SameDictWithoutWav(s, p, features);
      FeaturesAgree(last.name, last.children, DtcTrain.IsM4a, PiMain.IsAudioFile, features);
    }
  }
}
