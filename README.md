# Audio take processing, modelled in Dafny

`process_audio_files.py` processes the card of a field recorder. It loads
`config.yaml` and expands `~` in its three path settings. It walks the card
and skips every directory whose path contains one of the markers
`F6_SETTINGS`, `FALSE_TAKE` or `TRASH`. A directory holding `.WAV` files is
a take. For each take, the script plays the first selected file, asks once
for a label, and uploads every selected file to a Google Drive folder under
the name `<label>_placeholder_<file>`. At the end it asks whether to delete
the processed folders. Only on an answer that strips and lower-cases to
`yes` does it call `rmtree` once on each distinct recorded folder, and
again never on an ignored one.

The model is imperative where the script is:

- `Config.LoadConfig` rewrites the three keys one after the other.
- `Workflow.ProcessWalk`, `Workflow.ProcessTake` and `Workflow.UploadFiles`
  are the walk loop, its body and the inner upload loop.
- `Workflow.DeleteFolders` is the deletion loop over a set. It picks each
  next member with `:|`, so its guarantees hold for every iteration order.
- `Workflow.RunSession` is `main` after `load_config` has returned.

Each method is proved against a specification function:

- `Walk.TakeSpec` gives one take.
- `Walk.WalkSpec` gives the whole walk phase.

The properties are lemmas about those functions: which directories are
takes, which files are selected and auditioned, one label per take,
one upload per selected file, the naming scheme, and what the deletion
phase may touch.

Modules:

- `Wrappers`: the `Option` type.
- `Strings`: Python substring `in`, `endswith`, `strip`, `lower`, and the
  yes gate.
- `Config`: `load_config` after the YAML has been parsed.
- `Walk`: the entities and the specification functions of the walk, with
  their lemmas.
- `Workflow`: the loops of `main`, the configuration gate and the deletion
  phase.

Collaborators the model does not look inside are parameters:

- `expand` stands for `os.path.expanduser`.
- The `World` oracles stand for three calls:
  - `plays`: whether `play_first_5_seconds` returns normally.
  - `delivers`: whether an upload reaches Drive. `push_to_google_drive`
    catches every exception, so the call always returns.
  - `removes`: whether `rmtree` succeeds. The loop catches its failure.
- The walk is given as a sequence of directories with their file names, in
  enumeration order.
- The console is the sequence of lines typed. Reading past its end
  raises `EOFError` and ends the run.

## Model

| member | source | states |
|---|---|---|
| Config.Expanded | process_audio_files.py:21-27 | `expanduser` keeps the type of its argument: a string stays a string, a `bytes` value stays `bytes`. |
| Config.LoadConfig | process_audio_files.py:17-31 | A parse error gives no configuration. Otherwise every present key among `sd_card_path`, `google_drive_folder_id` and `service_json_path` is replaced by its expanded value, `str` or `bytes`, and every other key keeps its value with the same key set. The first of them, in that order, whose value is neither `str` nor `bytes` is the key of a `TypeError`. |
| Strings.ContainsExtended | process_audio_files.py:94 | A marker found in a path is found in every extension of that path. |
| Strings.EndsWithIff | process_audio_files.py:97 | `endswith` holds exactly of strings of the form prefix + suffix. |
| Strings.Strip | process_audio_files.py:112 | `strip()`: removes Python white space at both ends. Its effect is characterised by `Strings.ConfirmedIff`. |
| Strings.Lower | process_audio_files.py:112 | `lower()` character by character. The result has the same length as the input. |
| Strings.Confirmed | process_audio_files.py:112-113 | The gate `answer.strip().lower() == 'yes'`. It is characterised by `Strings.ConfirmedIff`. |
| Strings.ConfirmedIff | process_audio_files.py:112-113 | The answer is accepted exactly when it is white space, then `y`, `e`, `s` in any case, then white space. Both directions are proved. |
| Strings.ConfirmedExamples | process_audio_files.py:112-113 | `yes`, `  YES\n` and `Yes` are accepted. |
| Strings.RefusedExamples | process_audio_files.py:112-113 | `y`, `no`, the empty answer and `ye s` are refused. |
| Walk.Ignored | process_audio_files.py:90-95 | The substring test against the three markers. Its consequences are `Walk.NestedIgnored` and `Walk.SubstringMarker`. |
| Walk.WavFiles | process_audio_files.py:97 | The `.WAV` selection. It keeps at most as many names as the directory has, each one from the directory and ending in `.WAV`. |
| Walk.WavFilesSelects | process_audio_files.py:97 | A file is selected exactly when it is in the directory and ends in `.WAV`. |
| Walk.WavFilesConcat | process_audio_files.py:97 | Selection keeps enumeration order: it distributes over concatenation. |
| Walk.WavSuffixIsCaseSensitive | process_audio_files.py:97 | `.wav` and `.Wav` are not selected, nor is `.WAV.bak`. |
| Walk.NestedIgnored | process_audio_files.py:92-95 | Every directory below an ignored directory is ignored too. |
| Walk.SubstringMarker | process_audio_files.py:90-95 | A marker inside a longer component (`OLD_TRASHCAN`) ignores the directory. |
| Walk.Join | process_audio_files.py:100-107 | `os.path.join` with the POSIX separator. Its shape is `Walk.JoinShape`. |
| Walk.JoinShape | process_audio_files.py:100-107 | The joined path ends with the file name. It starts with the directory unless the name is absolute, in which case it is the name alone. |
| Walk.NewName | process_audio_files.py:106 | The upload name `label + "_placeholder_" + file`. Its properties are `Walk.UploadNameParts` and `Walk.UploadNamesDistinct`. |
| Walk.UploadNameParts | process_audio_files.py:106 | The upload name starts with the label and ends with the original filename, so it keeps the `.WAV` suffix. |
| Walk.UploadNamesDistinct | process_audio_files.py:105-106 | Two different files of one take never get the same upload name. |
| Walk.TakesMembers | process_audio_files.py:92-98 | The takes are exactly the non-ignored walked directories with a selected file, each with its selected files. |
| Walk.UploadsOfFiles | process_audio_files.py:105-108 | Every upload of a take is of one of its selected files, from its directory, under the name built from the take's label. |
| Walk.TakeSpec | process_audio_files.py:98-109 | One take as a function of the console and the collaborators. Its cases are `Walk.TakeSpecCases`. |
| Walk.WalkSpec | process_audio_files.py:92-109 | The walk phase as a function of the walk, the console, the folder setting and the collaborators. Its properties are `Walk.WalkFinished`, `Walk.WalkEventsFromTakes`, `Walk.WalkCandidateSet` and `Walk.WalkCountsPerDir`. |
| Walk.TakeSpecCases | process_audio_files.py:98-109 | A take runs to its end exactly when its first file plays, a label line is there and the folder id is configured. It then reads one line, emits audition, prompt and one upload per file, and records its root once per file. Otherwise it records nothing and stops after the audition or after the prompt. |
| Walk.WalkFinished | process_audio_files.py:92-109 | A walk that ends normally reads exactly one line per take. Its events are, take by take in walk order, the audition of the first selected file, the label prompt and the uploads named after that take's line. Its candidates are each take's directory once per selected file. |
| Walk.WalkEventsFromTakes | process_audio_files.py:92-108 | Every event of the walk, finished or not, belongs to a take of the walk, never to an ignored directory. Auditions are of the take's first selected file and uploads of its selected files. |
| Walk.WalkCandidateSet | process_audio_files.py:109-114 | The distinct candidates always lie within the take directories. After a finished walk they are exactly the take directories. No take directory is ignored. |
| Walk.BlockCount | process_audio_files.py:99-108 | One take has one audition, one label prompt and one upload per selected file. |
| Walk.BlocksCount | process_audio_files.py:92-108 | The counts for a whole walk: one audition and one prompt per take, and one upload per recorded candidate. |
| Walk.BlockCountAt | process_audio_files.py:99-108 | A take's block counts only for its own directory: one audition, one prompt and one upload per selected file. |
| Walk.WalkCountsPerDir | process_audio_files.py:92-108 | Take a walk that ends normally, with every directory yielded once. A walked directory then gets exactly one audition and one prompt if and only if it is a take, and one upload per selected file. An ignored directory, or one with no selected file, gets none. |
| Workflow.UploadFiles | process_audio_files.py:105-109 | The inner loop uploads every selected file in order and records the root once per file. A missing folder id raises `KeyError` before the first upload and records nothing. |
| Workflow.ProcessTake | process_audio_files.py:98-109 | The loop body for one take computes exactly `Walk.TakeSpec`. |
| Workflow.ResumeStep | process_audio_files.py:92-98 | A directory that is not a take leaves the rest of the walk unchanged. A crashing take ends the walk. A finished take moves its events and candidates in front of the rest of the walk. |
| Workflow.ProcessWalk | process_audio_files.py:92-109 | The walk loop computes exactly `Walk.WalkSpec`. |
| Workflow.Deletable | process_audio_files.py:116 | The candidates that pass the ignore test inside the deletion loop. By `Workflow.RecheckRemovesNothing`, that is all of them. |
| Workflow.RecheckRemovesNothing | process_audio_files.py:109-116 | The ignore test inside the deletion loop drops no candidate, because ignored roots are never recorded. |
| Workflow.DeleteFolders | process_audio_files.py:114-121 | In any iteration order over the set, `rmtree` is called exactly on the distinct, non-ignored candidates. No folder is attempted twice, and each attempt records the collaborator's outcome. |
| Workflow.ConfirmAndDelete | process_audio_files.py:111-121 | The final prompt is always shown, and after it come only deletion attempts. With no line left the run ends with `EOFError`. On "yes" the attempted folders are the distinct non-ignored candidates. On any other answer the phase ends at the prompt. |
| Workflow.WalkAndDelete | process_audio_files.py:92-121 | The walk's events come first. A crash in the walk ends the session there. A normal finish is followed by the prompt and then only by deletion attempts. With no line left the session ends with `EOFError`. On any answer but "yes" it ends normally at the prompt. On "yes" to the line after the labels, the folders deleted are exactly the take directories. No ignored folder is ever deleted, and none is attempted twice. |
| Workflow.RunSession | process_audio_files.py:84-121 | No configuration, or an empty one, returns early with no events. A path value that is neither `str` nor `bytes` is a `TypeError`. A missing `sd_card_path` is a `KeyError` before any event. A `bytes` card path is a `TypeError` at the first walked directory, at the ignore test. A session that gets past these checks is described by `Workflow.WalkAndDelete`. A normal completion deletes exactly the take directories on "yes" and nothing otherwise. |

## Left out

- Audio decoding and playback, and the five-second truncation, are left out. Playback is the `plays` oracle. Whether it returns normally is all the walk depends on.
- The Drive client, credentials and transfer are left out. `push_to_google_drive` swallows every error, so an upload is a call that always returns, and `delivers` says whether it got through. A missing `service_json_path` is caught there the same way.
- YAML parsing is left out. A parse error is `Malformed`. A document that is not a mapping (an empty file gives `None`, or a top-level list or scalar) is not modelled, and neither is a missing `config.yaml` (`FileNotFoundError`).
- `os.path.expanduser` is the parameters `expand` (on `str`) and `expandBytes` (on `bytes`). Its home-directory lookup is not modelled.
- How `os.walk` enumerates the card and recurses is left out. The walk is given as a sequence, and its relation to the value of `sd_card_path` is not modelled.
- The effect of `rmtree` on the file system is left out. The `removes` oracle says whether the call succeeded.
- The `removes` oracle fixes each outcome as a function of the folder alone. In the script the outcome can depend on iteration order when one candidate lies inside another. After `rmtree` has removed `/card/A`, a later call on `/card/A/B` raises `FileNotFoundError`, which the loop catches. Only the `removed` flag of such an attempt is affected. Which folders are attempted, and in what number, is the same.
- Console output (`print`) is left out, apart from the prompts that read a line.
- Strings.Lower: lower-cases ASCII letters only. No other character lowers to `y`, `e` or `s`, so the yes gate is the same as with Python's full `str.lower`.
- YAML values other than strings and `!!binary` values are kept as opaque `Other` values. A `bytes` value of `google_drive_folder_id` is passed to each upload as its parent. A `bytes` value of `service_json_path` is not used outside the upload call.
- The candidate list grows by one per upload attempt, not per successful upload, because `folders_to_delete.append` follows the upload call unconditionally. The model follows the code.
- A richer naming scheme with microphone-channel names and counters does not appear in this script. It is not part of this model.
