# Nearest-template phrase recogniser: a Dafny model

SpeechToSpeech recognises one of a few enrolled spoken phrases. It keeps a
template database: a dict that maps each phrase label to a list of MFCC
feature sequences, one per reference recording. A query recording is
classified by computing a dynamic-time-warping (DTW) distance to every
template and keeping the closest one. The repository has two variants of
this core:

- `pi-code/main.py`, the Raspberry Pi program. `load_templates` fills the
  module-level dict from a directory-per-label layout and accepts `.m4a` and
  `.wav` files. `classify` matches a recorded sample array.
- `DTC/train.py`, the desktop script. It builds the dict at import time with a
  comprehension that accepts only `.m4a` files, and `classify` matches an
  audio file.

The model is split by concern:

- `types.dfy` (module `Types`): feature sequences, labels, listing entries, a
  `Distance` that is either `Infinite` (Python's `float('inf')`) or a
  finite real, and `str.endswith`.
- `template_dict.dfy` (module `TemplateDict`): the Python dict. `Store` is its
  value: the keys in insertion order plus a map. `Put` is `d[k] = v`: a new key
  goes to the end, an existing key keeps its place. The class `TemplateTable`
  is the dict object that the source mutates in place.
- `selection.dfy` (module `Selection`): the selection loop of `classify`, which
  is word for word the same in both files. The method `NearestTemplate` runs
  the nested loop over the dict. It is proved equal to `Nearest`, the running
  minimum over the templates in visiting order. The lemmas then prove what
  that minimum is: `ClosestMatch`.
- `loading.dfy` (module `Loading`): the listing filter. `Load` folds a listing
  into a dict, with the accepted-name test as a parameter. The lemmas cover
  the keys, their order, each key's list, and idempotence.
- `pi_main.dfy` (module `PiMain`) and `dtc_train.dfy` (module `DtcTrain`): each
  file's own loading code, its `classify`, and its file-name filter.
- `variants.dfy` (module `Variants`): how the two variants' dicts relate.

Foreign calls are modelled as function-typed parameters with no properties
assumed. These are MFCC extraction (`librosa.load` plus
`librosa.feature.mfcc`, `extract_mfcc_from_array`, `extract_mfcc`) and the
DTW distance (`fastdtw` with a Euclidean local cost, `dtw_distance`). The
directory listing is an input: a sequence of `Entry(name, isDir, children)`
values.

The model follows the code in these points:

- The code treats an empty template store as no match, not as an error: `classify` returns `(None, inf)`.
- Labels are visited in the dict's insertion order, which is the order of
  `os.listdir` output. That order is an input here, not a sorted order.
- The distance is fastdtw's raw path cost, with no division by the path
  length. The model takes whatever `dist` returns.

## Model

| member | source | states |
|---|---|---|
| `TemplateDict.Put` | pi-code/main.py:33 | `d[k] = v` keeps the dict invariant: each key is listed once, and only keys are listed. The new mapping is the old one with `k` set to `v`. (A new key goes last in the order; an existing key keeps its place.) |
| `TemplateDict.TemplateTable.constructor` | pi-code/main.py:26 | `templates = {}`: the table starts as the empty dict. |
| `TemplateDict.TemplateTable.Set` | pi-code/main.py:33 | `templates[phrase] = []`: the new state is `Put` of the old one, and the invariant is kept. |
| `TemplateDict.TemplateTable.Append` | pi-code/main.py:38 | `templates[phrase].append(mfcc.T)`: the key's list gains the item at its end. Nothing else changes. |
| `Types.Below` | pi-code/main.py:49 | Defines the test `distance < best_distance`, with `inf` above every finite distance. Every distance is below `inf`, and no distance is below itself. |
| `Selection.Step` | pi-code/main.py:48-51 | Defines one inner-loop step (the same as DTC/train.py:43-46): either the best pair is unchanged, or it becomes this template's label and distance. The result is finite, no farther than this template, and no farther than a finite earlier best. |
| `Selection.Nearest` | pi-code/main.py:43-51 | Defines the running minimum: `Step` applied from `(None, inf)` over the templates in visiting order. Phrase and distance are absent together. |
| `Selection.Flatten` | pi-code/main.py:46-47 | Defines the visiting order of the nested loop: labels in dict order, each label's templates in list order. Every visited pair is a key with one of its own templates. |
| `Selection.NearestNoneIffEmpty` | pi-code/main.py:43-53 | The running minimum has no phrase exactly when no template was visited. This also holds for an infinite distance. So phrase and distance are always absent together. |
| `Selection.NearestIsFirstMinimum` | pi-code/main.py:46-51 | With at least one template, the result is the label and distance of a template at index `k`. No template is closer than `k`, and every earlier template is strictly farther. The strict `<` gives this first-minimum tie-break. |
| `Selection.FirstMinimumUnique` | pi-code/main.py:49 | Only one index can be the first closest template, so the tie-break fixes the phrase. |
| `Selection.LaterTieKeepsEarlier` | pi-code/main.py:49 | A later template at exactly the current minimum distance leaves the result unchanged. |
| `Selection.FlattenMembers` | pi-code/main.py:46-47 | The nested loop visits `(label, t)` exactly when `t` is in the list under key `label`. |
| `Selection.NearestOverStore` | pi-code/main.py:41-53 | The running minimum over the dict meets all of `ClosestMatch`. (1) `(None, inf)` exactly when no label has a template. (2) Otherwise the phrase is a key of the dict, with a template at exactly the returned distance. (3) No template of the dict is closer. (4) The phrase belongs to the first closest template in visiting order. |
| `Selection.HasTemplatesIffVisited` | pi-code/main.py:46-47 | The nested loop visits at least one template exactly when some label's list is non-empty. |
| `Selection.MinimumOverStore` | pi-code/main.py:46-51 | The first closest visited template is no farther than any template in any list of the dict. |
| `Selection.ClosestMatchUnique` | pi-code/main.py:41-53 | Two results that both meet `ClosestMatch` for the same dict and query are equal. So the result is deterministic and fully pinned down by the properties above. |
| `Selection.NearestTemplate` | pi-code/main.py:46-53 | The nested loop with `best_phrase`/`best_distance` starts at `(None, inf)` and returns that dict's running minimum. The result meets `ClosestMatch`. |
| `Loading.Admit` | pi-code/main.py:29-33 | One step of the listing loop keeps the dict invariant: a non-directory is skipped, and a directory's key is (re)set. |
| `Loading.Load` | pi-code/main.py:29-38 | The dict after the whole listing loop still meets the dict invariant. |
| `Loading.Accepted` | pi-code/main.py:34-35 | Defines the names that pass the extension filter, in listing order. It keeps at most as many names as were listed. |
| `Loading.Features` | pi-code/main.py:34-38 | Defines a directory's list, built by `append` in `main.py` and by a comprehension (the same as DTC/train.py:28-32): one feature sequence per accepted name. |
| `Loading.AcceptedMembers` | pi-code/main.py:34-35 | A child name is kept exactly when it is listed and its name passes the filter. |
| `Loading.AcceptedConcat` | pi-code/main.py:34-35 | Filtering distributes over concatenation, so listing order is kept. |
| `Loading.FeaturesOfAccepted` | pi-code/main.py:34-38 | A directory's list has one element per kept child name. Element `i` is the features of the `i`-th kept name. |
| `Loading.NoAcceptedNoFeatures` | pi-code/main.py:33-38 | A directory's list is empty exactly when none of its children passes the filter. |
| `Loading.LoadLabels` | pi-code/main.py:29-33 | After loading, the keys are the old keys plus the names of the directory entries. A key that no directory names keeps its old list. |
| `Loading.NonDirectoryGetsNoKey` | pi-code/main.py:31-32 | An entry that is not a directory (and was not a key before) gets no key. |
| `Loading.LoadLists` | pi-code/main.py:33-38 | Every directory entry gets a key, even one with no audio file. Its list is the features of its accepted children, even when an earlier list existed. |
| `Loading.LoadOrder` | pi-code/main.py:29-33 | New directory names become keys after the old keys, in listing order. |
| `Loading.LoadFixed` | pi-code/main.py:33 | Loading into a dict that already holds what the listing gives changes nothing. |
| `Loading.LoadIdempotent` | pi-code/main.py:33 | Loading the same listing twice gives the same dict as loading it once. |
| `PiMain.IsAudioFile` | pi-code/main.py:35 | Defines the filter `file.endswith('.m4a') or file.endswith('.wav')`. A name it accepts has at least four characters, a `.` fourth from the end, and ends in `a` or `v`. |
| `PiMain.LoadTemplates` | pi-code/main.py:28-38 | `load_templates` skips non-directories. For each directory it resets the key and appends the features of each `.m4a`/`.wav` child in order. The new dict is `Load` of the old one. |
| `PiMain.DirectoryList` | pi-code/main.py:34-38 | A directory's list is the features of exactly its children that end in `.m4a` or `.wav`, in listing order. |
| `PiMain.StartupLoad` | pi-code/main.py:72 | Loading into the empty dict at start-up gives these keys, in listing order: exactly the directory names. Each key holds the features of that directory's audio children. Nothing else gets a key. |
| `PiMain.Classify` | pi-code/main.py:41-53 | `classify(audio_data)` returns the closest match (`ClosestMatch`) for the features of the recording. The result is `(None, inf)` when the dict has no template. |
| `DtcTrain.BuildTemplates` | DTC/train.py:22-32 | A fresh dict gets, for each directory entry, its key set to the comprehension over its `.m4a` children. Non-directories are skipped. The result is `Load` from the empty dict. |
| `DtcTrain.IsM4a` | DTC/train.py:31 | Defines the comprehension's filter `f.endswith('.m4a')`. A name it accepts has at least four characters and does not end in `.wav`. |
| `DtcTrain.DirectoryList` | DTC/train.py:28-32 | A directory's list is the features of exactly its `.m4a` children, in listing order, and never of a `.wav` file. |
| `DtcTrain.BuiltDict` | DTC/train.py:24-32 | The built dict's keys are exactly the directory names, in listing order. Each key holds the features of its `.m4a` children. Non-directories get no key. |
| `DtcTrain.Classify` | DTC/train.py:36-47 | `classify(audio_path)` returns the closest match for the features of the file. The result is `(None, inf)` when the dict has no template. |
| `Variants.FeaturesAgree` | DTC/train.py:28-32 | Two filters that agree on every child name build the same list. |
| `Variants.M4aAmongAudio` | DTC/train.py:31 | The `.m4a` names that `train.py` keeps are the `.m4a` names among those that `main.py` keeps. |
| `Variants.SameDictWithoutWav` | DTC/train.py:24-32 | When no child name ends in `.wav`, both variants build the same dict from the same listing and starting dict. |

## Left out

- MFCC extraction and the DTW distance: foreign library calls with floating-point numerics (`librosa`, `fastdtw`). They are function parameters with no assumed properties. In particular the model does not capture symmetry, non-negativity or `distance(a, a) == 0`.
- Non-finite distances: every distance is taken to be a finite real. If `fastdtw` returned `inf` or NaN, the source would never pick that template, because `inf < inf` and comparisons with NaN are false. The model does not capture that case.
- The int16/float32 amplitude scaling is floating-point numerics (pi-code/main.py:15 and 61, pi-code/test.py:19).
- The sample-rate arguments (`sr=16000` at every call) are folded into the extractor parameters.
- Audio recording (`sd.rec`, `sd.wait`), WAV writing in pi-code/test.py, and the `print` output are device and file I/O.
- GPIO button wiring, `pause()` and pi-code/button.py are hardware and event-loop code. Also, pi-code/button.py calls `record` before defining it and uses an undefined `fs`.
- Filesystem access (`os.listdir`, `os.path.isdir`, `os.path.join`, `librosa.load`): the listing is an input value. A template file is named by its directory and its own name rather than by a joined path string.
- Names in one listing are assumed distinct, as a directory listing guarantees. The lemmas about keys and lists require this; the methods do not.
- An exception raised while one file loads would abort `load_templates` and leave a partly filled dict. Exceptions are not modelled.
- The example call at the end of DTC/train.py (lines 50-52) runs `classify` on a fixed file and prints the result. That is I/O around the modelled `Classify`.
- The code has no ring buffer, bounded queue or worker thread, no feature normalisation or decimation, no path-length normalisation of the distance and no match threshold, so the model has none either.
