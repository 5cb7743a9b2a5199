/** Values shared by both variants of the recogniser. */
module Types {

  datatype Option<+T> = None | Some(value: T)

  /** One MFCC frame: the coefficients of one analysis window. */
  type Frame = seq<real>

  /** A feature sequence, time axis first (`mfcc.T`). */
  type FeatureSeq = seq<Frame>

  /** A phrase label: the name of a directory under the template directory. */
  type Label = string

  /** A Python float as the classifier uses it: `float('inf')` or a finite distance. */
  datatype Distance = Infinite | Finite(value: real)

  /** The source's `dist < best_distance` for a finite `dist`: every finite value is below infinity. */
  predicate Below(d: real, best: Distance)
    ensures best.Infinite? ==> Below(d, best)
    ensures best == Finite(d) ==> !Below(d, best)
  {
    best.Infinite? || d < best.value
  }

  /**
   * One entry of `os.listdir(template_dir)`: its name, whether `os.path.isdir`
   * holds of it, and (for a directory) the names `os.listdir` gives for it.
   */
  datatype Entry = Entry(name: string, isDir: bool, children: seq<string>)

  /** Python's `str.endswith`. */
  predicate EndsWith(s: string, suffix: string)
  {
    |suffix| <= |s| && s[|s| - |suffix|..] == suffix
  }

  /** Names returned by one `os.listdir` call are pairwise different. */
  ghost predicate DistinctNames(listing: seq<Entry>)
  {
    forall i, j :: 0 <= i < j < |listing| ==> listing[i].name != listing[j].name
  }
}
