# Maestro test analysis: artifact classification, screenshot de-duplication, notification gate

This project models, in Dafny, the local decision logic that `maestro test --analyze`
runs after a test run and before anything is sent over the network
(`TestAnalysisManager.kt`):

- **Classifier** (`getDebugFiles`): each regular file of the debug output directory is
  put on the screenshot list, the command-trace list or the log list. The lower-cased
  file name decides, and the first match wins: an image extension (`.png`, `.jpg`,
  `.jpeg`), then the prefix `commands`, then the exact name `maestro.log`. Any other
  file is dropped.
- **Screenshot de-duplicator** (`filterSimilarScreenshots`): a greedy, order-preserving
  pass. A screenshot is kept only if no screenshot kept so far is within 5.0 percent
  pixel difference of it. The bound counts as similar.
- **Bundle and `runAnalysis`**: no regular file means no bundle. Then `runAnalysis`
  warns and returns 0. Otherwise a bundle is always built, even with three empty lists,
  and handed to the cloud analysis.
- **Notification gate** (`AnalysisNotification`): `maybeNotify` shows a one-time message
  and records `{acknowledged: true}` in a state file. An environment variable set to
  exactly `"true"` suppresses it.

Files:
- `wrappers.dfy`: `Option`.
- `sequences.dfy`: order-preserving selection of a list by a boolean mask.
- `paths.dfy`: file names of paths and ASCII lower-casing.
- `classifier.dfy`: classification and the per-kind lists.
- `dedup.dfy`: the greedy de-duplicator, its declarative description and the threshold.
- `analysis.dfy`: `getDebugFiles`, `processDebugFiles`, `runAnalysis`.
- `notification.dfy`: the notification gate.

The image comparison is a library call. Here it is the parameter
`similar(existing, candidate)`, with the already-kept screenshot first, as in the source.
`SimilarByDifference` builds that relation from a difference measure and the 5.0
threshold. Environment variables, the state file's contents, whether a write succeeds,
and the cloud analysis (`analyze`) are also parameters.

A sub-list "in original order" is written `Select(s, keep)`. It keeps the elements of `s`
whose flag in the mask `keep` is set, in their original order.

Only a walk with no regular file gives no bundle. A walk whose files are all ignored
still gives a bundle with three empty lists (`TestAnalysisManager.ProcessDebugFiles`).

## Model

| member | source | states |
|---|---|---|
| `ArtifactClassifier.KindOfName` | maestro-cli/src/main/java/maestro/cli/insights/TestAnalysisManager.kt:78-90 | a name is a screenshot exactly when it has an image extension; it is a command trace exactly when it starts with `commands` and has no image extension; it is the log exactly when it equals `maestro.log`, because that name matches neither earlier rule |
| `ArtifactClassifier.Classify` | maestro-cli/src/main/java/maestro/cli/insights/TestAnalysisManager.kt:76-90 | a path is a screenshot exactly when its lower-cased file name has an image extension, a command trace exactly when that name starts with `commands` and has no image extension, and the log exactly when that name is `maestro.log` |
| `ArtifactClassifier.ClassifyIgnoresDirectory` | maestro-cli/src/main/java/maestro/cli/insights/TestAnalysisManager.kt:76 | the kind of `dir/name` is the kind of `name`, for every directory; it is decided by the lower-cased name alone |
| `ArtifactClassifier.ClassifyIgnoresCase` | maestro-cli/src/main/java/maestro/cli/insights/TestAnalysisManager.kt:76 | two paths that are equal up to letter case get the same kind |
| `ArtifactClassifier.ClassifyInDirectory` | maestro-cli/src/main/java/maestro/cli/insights/TestAnalysisManager.kt:76-90 | a file `name` in any directory is classified by the lower case of `name` |
| `ArtifactClassifier.CommandsPngName` | maestro-cli/src/main/java/maestro/cli/insights/TestAnalysisManager.kt:79-83 | `commands.png` satisfies both the image rule and the commands rule, and the image rule decides |
| `ArtifactClassifier.CommandsImageIsScreenshot` | maestro-cli/src/main/java/maestro/cli/insights/TestAnalysisManager.kt:78-84 | `commands.png` in any directory is a screenshot, not a command trace |
| `ArtifactClassifier.UpperCaseImageRecognised` | maestro-cli/src/main/java/maestro/cli/insights/TestAnalysisManager.kt:76-80 | `SHOT.PNG` in any directory is a screenshot, because the name is lower-cased before matching |
| `ArtifactClassifier.UpperCaseLogRecognised` | maestro-cli/src/main/java/maestro/cli/insights/TestAnalysisManager.kt:76-88 | `Maestro.LOG` in any directory is the log, because the name is lower-cased before matching |
| `ArtifactClassifier.UnmatchedNames` | maestro-cli/src/main/java/maestro/cli/insights/TestAnalysisManager.kt:78-90 | `notes.txt` and `maestro.log.1` match none of the three rules |
| `ArtifactClassifier.UnmatchedIsIgnored` | maestro-cli/src/main/java/maestro/cli/insights/TestAnalysisManager.kt:78-90 | a name goes on no list exactly when it matches none of the three rules |
| `ArtifactClassifier.CommandsDirectoryNotMatched` | maestro-cli/src/main/java/maestro/cli/insights/TestAnalysisManager.kt:76-88 | `commands/maestro.log` is the log: a directory called `commands` is not matched by the command rule |
| `ArtifactClassifier.ImageDirectoryNotMatched` | maestro-cli/src/main/java/maestro/cli/insights/TestAnalysisManager.kt:76-90 | `screens.png/notes.txt` is ignored: a directory ending in `.png` is not matched by the image rule |
| `ArtifactClassifier.NearLogNamesIgnored` | maestro-cli/src/main/java/maestro/cli/insights/TestAnalysisManager.kt:87 | the log rule is an exact comparison: `maestro.log.1` is ignored |
| `ArtifactClassifier.OfKindIsSelection` | maestro-cli/src/main/java/maestro/cli/insights/TestAnalysisManager.kt:70-91 | each list is the input selected by the mask "this file has that kind", so it is the input's files of that kind in input order |
| `ArtifactClassifier.OfKindMembers` | maestro-cli/src/main/java/maestro/cli/insights/TestAnalysisManager.kt:74-91 | a file is on the list of a kind exactly when it is an input file of that kind |
| `ArtifactClassifier.OfKindPartition` | maestro-cli/src/main/java/maestro/cli/insights/TestAnalysisManager.kt:78-90 | the four lists (screenshots, commands, logs, ignored) have lengths that add up to the input length, so each file lands on exactly one |
| `ArtifactClassifier.LogFileNameIsPlain` | maestro-cli/src/main/java/maestro/cli/insights/TestAnalysisManager.kt:79-87 | `maestro.log` has no image extension and no `commands` prefix, so the order of the rules never hides the log |
| `Paths.FileNameIsLastElement` | maestro-cli/src/main/java/maestro/cli/insights/TestAnalysisManager.kt:76 | the file name of a path is a suffix of it with no separator, and it is preceded by a separator or starts the path, so it is the path's last element |
| `Paths.FileNameOfJoin` | maestro-cli/src/main/java/maestro/cli/insights/TestAnalysisManager.kt:76 | the file name of `dir/name` is `name` when `name` has no separator |
| `Paths.FileNameOfLower` | maestro-cli/src/main/java/maestro/cli/insights/TestAnalysisManager.kt:76 | taking the file name and lower-casing commute |
| `ScreenshotDedup.Deduplicate` | maestro-cli/src/main/java/maestro/cli/insights/TestAnalysisManager.kt:104-124 | the greedy pass never keeps more screenshots than it is given |
| `ScreenshotDedup.DeduplicateNoSimilarPair` | maestro-cli/src/main/java/maestro/cli/insights/TestAnalysisManager.kt:104-124 | no kept screenshot is similar to a later kept one |
| `ScreenshotDedup.DeduplicateKeepsFirst` | maestro-cli/src/main/java/maestro/cli/insights/TestAnalysisManager.kt:107-121 | no screenshots give none; otherwise the first screenshot is kept and comes first |
| `ScreenshotDedup.KeptMaskSelectsResult` | maestro-cli/src/main/java/maestro/cli/insights/TestAnalysisManager.kt:107-123 | the result is the input selected by a mask, so it is a sub-list of the input in original order |
| `ScreenshotDedup.KeptMaskKeepsDissimilar` | maestro-cli/src/main/java/maestro/cli/insights/TestAnalysisManager.kt:110-119 | for kept positions i < j, screenshot i is not similar to screenshot j |
| `ScreenshotDedup.LastDroppedHasMatch` | maestro-cli/src/main/java/maestro/cli/insights/TestAnalysisManager.kt:110-119 | when the last screenshot is dropped, some kept screenshot before it is similar to it |
| `ScreenshotDedup.KeptMatchHasPosition` | maestro-cli/src/main/java/maestro/cli/insights/TestAnalysisManager.kt:110-116 | a candidate similar to some kept screenshot is similar to the screenshot at some kept input position |
| `ScreenshotDedup.KeptMaskDropsMatched` | maestro-cli/src/main/java/maestro/cli/insights/TestAnalysisManager.kt:110-119 | every dropped screenshot has a kept screenshot before it that is similar to it |
| `ScreenshotDedup.KeptMaskIsGreedySelection` | maestro-cli/src/main/java/maestro/cli/insights/TestAnalysisManager.kt:104-124 | the greedy pass meets the declarative description: kept screenshots are pairwise dissimilar, and each dropped one has an earlier similar kept one |
| `ScreenshotDedup.GreedySelectionsAgree` | maestro-cli/src/main/java/maestro/cli/insights/TestAnalysisManager.kt:104-124 | two masks meeting the declarative description agree at every position |
| `ScreenshotDedup.GreedySelectionIsUnique` | maestro-cli/src/main/java/maestro/cli/insights/TestAnalysisManager.kt:104-124 | a mask meets the declarative description exactly when it is the greedy pass's mask, so that description determines the result |
| `ScreenshotDedup.DeduplicateKeepsDissimilar` | maestro-cli/src/main/java/maestro/cli/insights/TestAnalysisManager.kt:107-123 | a list with no similar pair passes through unchanged |
| `ScreenshotDedup.DeduplicateIdempotent` | maestro-cli/src/main/java/maestro/cli/insights/TestAnalysisManager.kt:107-123 | de-duplicating the output again returns it unchanged |
| `ScreenshotDedup.DeduplicatePair` | maestro-cli/src/main/java/maestro/cli/insights/TestAnalysisManager.kt:110-119 | with two screenshots, the second is dropped exactly when the first is similar to it |
| `ScreenshotDedup.ThresholdIsInclusive` | maestro-cli/src/main/java/maestro/cli/insights/TestAnalysisManager.kt:102-115 | a difference of exactly 5.0 drops the later screenshot; a difference of 5.01 keeps both |
| `ScreenshotDedup.FilterSimilarScreenshots` | maestro-cli/src/main/java/maestro/cli/insights/TestAnalysisManager.kt:104-124 | the nested loops (`for` with an inner `any`) compute the greedy pass |
| `TestAnalysisManager.RegularFiles` | maestro-cli/src/main/java/maestro/cli/insights/TestAnalysisManager.kt:58-60 | the regular files of a walk are never more than its entries |
| `TestAnalysisManager.RegularFilesIsFilter` | maestro-cli/src/main/java/maestro/cli/insights/TestAnalysisManager.kt:58-60 | the regular files are exactly the walk's regular-file entries, in walk order: the order-preserving filter of the walk by "is a regular file" |
| `TestAnalysisManager.RegularFilesMembers` | maestro-cli/src/main/java/maestro/cli/insights/TestAnalysisManager.kt:58-60 | the regular files are empty exactly when the walk has no regular file; every regular file of the walk is kept, and nothing else is |
| `TestAnalysisManager.GetDebugFiles` | maestro-cli/src/main/java/maestro/cli/insights/TestAnalysisManager.kt:69-100 | logs and commands are the input's files of those kinds in input order; screenshots are the de-duplicated screenshot files; the three lists together are no longer than the input |
| `TestAnalysisManager.NothingClassified` | maestro-cli/src/main/java/maestro/cli/insights/TestAnalysisManager.kt:74-99 | when every file is ignored, the screenshot, command and log lists are all empty |
| `TestAnalysisManager.OfKindAllOfOneKind` | maestro-cli/src/main/java/maestro/cli/insights/TestAnalysisManager.kt:74-91 | when every file has the same kind, that kind's list is the whole input |
| `TestAnalysisManager.ProcessDebugFiles` | maestro-cli/src/main/java/maestro/cli/insights/TestAnalysisManager.kt:57-67 | no bundle exactly when the walk has no regular file; otherwise the bundle holds the classified and de-duplicated lists, and a walk whose files are all ignored gives three empty lists |
| `TestAnalysisManager.RunAnalysis` | maestro-cli/src/main/java/maestro/cli/insights/TestAnalysisManager.kt:43-55 | with no regular file it returns 0 without an analysis; otherwise it returns what the analysis returns for the bundle built from the walk |
| `AnalysisNotification.ReadState` | maestro-cli/src/main/java/maestro/cli/insights/TestAnalysisManager.kt:176-179 | a record counts as acknowledged exactly when its field is present and `true`; a missing field means `false` |
| `AnalysisNotification.Disabled` | maestro-cli/src/main/java/maestro/cli/insights/TestAnalysisManager.kt:132-133 | the gate is disabled exactly when the variable is set and its value is exactly `true`; an unset variable (`getenv` returning `null`) leaves it enabled |
| `AnalysisNotification.ShouldNotNotify` | maestro-cli/src/main/java/maestro/cli/insights/TestAnalysisManager.kt:142-146 | the gate stays quiet exactly when the variable disables it or the file records an acknowledgment; it fails exactly when it is enabled and the file cannot be read |
| `AnalysisNotification.MaybeNotify` | maestro-cli/src/main/java/maestro/cli/insights/TestAnalysisManager.kt:148-172 | when disabled, nothing is shown or written; when acknowledged, nothing happens; the message is shown exactly when the gate is enabled and the file is missing or records no acknowledgment; the only write is the acknowledgment after showing; a call that is enabled and does not fail leaves the file acknowledged; a call that fails leaves the file as it found it |
| `AnalysisNotification.SecondCallIsSilent` | maestro-cli/src/main/java/maestro/cli/insights/TestAnalysisManager.kt:148-172 | after a call that did not fail, a second call shows nothing and writes nothing |
| `AnalysisNotification.FailedWriteShowsAgain` | maestro-cli/src/main/java/maestro/cli/insights/TestAnalysisManager.kt:148-172 | when the write after showing the message fails, the file stays unacknowledged and the next call shows the message again |
| `AnalysisNotification.UnacknowledgedRecordsNotify` | maestro-cli/src/main/java/maestro/cli/insights/TestAnalysisManager.kt:176-179 | a record without the field, or with `false`, shows the message again |
| `AnalysisNotification.OnlyExactTrueDisables` | maestro-cli/src/main/java/maestro/cli/insights/TestAnalysisManager.kt:131-133 | only the exact text `true` disables the gate; `TRUE`, `1` or an unset variable do not |
| `AnalysisNotification.AcknowledgedStaysSilent` | maestro-cli/src/main/java/maestro/cli/insights/TestAnalysisManager.kt:142-149 | once the file records an acknowledgment, no later run shows the message |
| `AnalysisNotification.ShownAtMostOnce` | maestro-cli/src/main/java/maestro/cli/insights/TestAnalysisManager.kt:148-172 | when every write succeeds, the message is shown at most once over any sequence of runs |

## Left out

- Reading files: `Files.walk` and `Files.readAllBytes` are not modelled. The walk's entries, in walk order, and each regular file's bytes are inputs. Whether an entry is a regular file is part of the input.
- Walk order: the model keeps whatever order it is given. The file system does not promise a stable order, and the de-duplicator's result depends on it.
- Unreadable files: `Files.readAllBytes` runs on every regular file before it is classified, so an unreadable file, even one that would be ignored, makes `runAnalysis` throw. That exception is not modelled; each file's bytes are an input. `GetDebugFiles`, `ProcessDebugFiles` and `RunAnalysis` have no error outcome.
- Image comparison failures: `readImageFromResources` and `getDifferencePercent` can throw, which aborts `runAnalysis`. Because `any` stops at the first match, which comparisons run, and so which can fail, depends on the order of the screenshots. These exceptions are not modelled: `similar` always returns an answer.
- Image comparison: the pixel-difference library and its image decoding are abstracted as the relation `similar`. The source compares images it re-reads from each file's path, not the bytes it read earlier. The model does not tell these apart.
- The difference percentage is a `real`, not a double. Rounding and NaN are not modelled.
- `Paths.ToLower`: lower-cases ASCII letters only. Kotlin's `lowercase()` also maps other Unicode letters.
- Paths: a path is text with `/` as separator and the file name is its last element. Other separators, trailing separators and root-only paths are not modelled; a directory walk does not yield them as regular files.
- `CloudInteractor.analyze`: the cloud analysis is the parameter `analyze`, modelled only through the exit code it returns.
- The warning text, the boxed message text and `println` are not modelled. The model records only whether the message was shown.
- JSON: Jackson is not modelled. The state file is modelled as already parsed (missing, a record whose `acknowledged` field may be absent, or unparsable). The exact text written is not modelled.
- Writes: a failed write is assumed to leave the previous file in place. Races between processes writing the state file are not modelled.
- `XDG_STATE_HOME` resolution of the state file's location is not modelled.
- `maestro-ai/src/main/java/maestro/ai/cloud/ApiClient.kt`: HTTP transport, timeouts, bearer header and JSON (de)serialisation are network I/O with no local algorithm beyond failing on a non-success status.
- `maestro-ai/src/main/java/maestro/ai/Prediction.kt`: it only forwards to the network client and projects `defects`, `firstOrNull()` or `text`.
- `maestro-cli/src/main/java/maestro/cli/report/HtmlInsightsAnalysisReporter.kt`: it is a file write behind a directory check.
