/** The decisions `main` makes while it walks the card: which walked
    directories are takes, which of their files are selected, which file is
    auditioned, which label each take gets and what every upload is called.
    `WalkSpec` gives the whole walk phase as one function of its inputs. */
module Walk {
  import opened Wrappers
  import opened Strings
  import opened Config

  /** One triple of `os.walk`, without the sub-directory names: a directory
      and the names of the files directly in it, in enumeration order. */
  datatype Dir = Dir(root: string, files: seq<string>)

  /** A processed take: its directory and its selected files. */
  datatype Take = Take(root: string, wavs: seq<string>)

  /** The observable steps of a session. `Audition` is the call of
      `play_first_5_seconds` on `Join(root, file)`; `AskLabel` the label
      prompt (its root is not shown to the operator; it records which take the
      prompt belongs to); `Upload` the call of `push_to_google_drive`, which
      always returns, `delivered` saying whether the upload went through;
      `AskDelete` the final prompt; `DeleteAttempt` one call of `shutil.rmtree`. */
  datatype Event =
    | Audition(root: string, file: string)
    | AskLabel(root: string)
    | Upload(root: string, file: string, name: string, parent: Value, delivered: bool)
    | AskDelete
    | DeleteAttempt(dir: string, removed: bool)

  /** The exceptions that end a run early. */
  datatype Crash =
    | TypeError(key: string)
    | KeyError(key: string)
    | AuditionError(path: string)
    | EndOfInput

  /** The collaborators the model does not look inside: whether a file can be
      decoded and played, whether an upload is accepted by the Drive service,
      whether `rmtree` succeeds on a folder. */
  datatype World = World(plays: string -> bool, delivers: (string, string) -> bool, removes: string -> bool)

  /** The state reached by the walk: events so far, the deletion candidates
      (`folders_to_delete`), the console lines not yet read, and the crash
      that stopped the walk, if any. */
  datatype Progress = Progress(events: seq<Event>, candidates: seq<string>, rest: seq<string>, halt: Option<Crash>)

  const IgnoreFolders: seq<string> := ["F6_SETTINGS", "FALSE_TAKE", "TRASH"]
  const WavSuffix := ".WAV"

  /** `any(ignore in root for ignore in ignore_folders)`: a substring test,
      not a comparison of path components. */
  predicate Ignored(root: string)
  {
    exists m | m in IgnoreFolders :: Contains(root, m)
  }

  /** `[f for f in files if f.endswith(".WAV")]`. */
  function WavFiles(files: seq<string>): (r: seq<string>)
    ensures |r| <= |files|
    ensures forall i | 0 <= i < |r| :: r[i] in files && EndsWith(r[i], WavSuffix)
  {
    if files == [] then []
    else (if EndsWith(files[0], WavSuffix) then [files[0]] else []) + WavFiles(files[1..])
  }

  /** `os.path.join(a, b)` with the POSIX separator. */
  function Join(a: string, b: string): string
  {
    if |b| > 0 && b[0] == '/' then b
    else if a == [] || a[|a| - 1] == '/' then a + b
    else a + "/" + b
  }

  /** The joined path ends with the file name; it starts with the directory
      unless the name is absolute, in which case it is the name alone. */
  lemma JoinShape(a: string, b: string)
    ensures EndsWith(Join(a, b), b)
    ensures b == [] || b[0] != '/' ==> a <= Join(a, b)
    ensures |b| > 0 && b[0] == '/' ==> Join(a, b) == b
  {
    var r := Join(a, b);
    assert r[|r| - |b|..] == b;
  }

  /** The name a file is uploaded under: `f"{label}_placeholder_{wav_file}"`. */
  function NewName(tag: string, wav: string): string
  {
    tag + "_placeholder_" + wav
  }

  /** A walked directory that `main` processes: not ignored, and with at
      least one selected file. */
  predicate IsTake(d: Dir)
  {
    !Ignored(d.root) && WavFiles(d.files) != []
  }

  /** The takes of a walk, in walk order. */
  function Takes(walk: seq<Dir>): (ts: seq<Take>)
    ensures forall t | t in ts :: t.wavs != []
  {
    if walk == [] then []
    else (if IsTake(walk[0]) then [Take(walk[0].root, WavFiles(walk[0].files))] else []) + Takes(walk[1..])
  }

  function UploadOf(root: string, wav: string, tag: string, parent: Value, world: World): Event
  {
    var name := NewName(tag, wav);
    Upload(root, wav, name, parent, world.delivers(Join(root, wav), name))
  }

  /** The uploads of one take, one per selected file, in selection order. */
  function Uploads(root: string, wavs: seq<string>, tag: string, parent: Value, world: World): (es: seq<Event>)
    ensures |es| == |wavs|
  {
    seq(|wavs|, k requires 0 <= k < |wavs| => UploadOf(root, wavs[k], tag, parent, world))
  }

  function Repeat(root: string, n: nat): (r: seq<string>)
    ensures |r| == n
  {
    seq(n, _ => root)
  }

  /** What one take produces once its label is known: the audition of its
      first selected file, the label prompt, and its uploads. */
  function Block(t: Take, tag: string, parent: Value, world: World): seq<Event>
    requires t.wavs != []
  {
    [Audition(t.root, t.wavs[0])] + [AskLabel(t.root)] + Uploads(t.root, t.wavs, tag, parent, world)
  }

  /** The takes one after the other, the k-th labelled with the k-th line. */
  function Blocks(ts: seq<Take>, labels: seq<string>, parent: Value, world: World): seq<Event>
    requires |ts| <= |labels|
    requires forall t | t in ts :: t.wavs != []
  {
    if ts == [] then []
    else Block(ts[0], labels[0], parent, world) + Blocks(ts[1..], labels[1..], parent, world)
  }

  /** Each take's directory once per selected file. */
  function Roots(ts: seq<Take>): seq<string>
  {
    if ts == [] then [] else Repeat(ts[0].root, |ts[0].wavs|) + Roots(ts[1..])
  }

  /** A prefix of events and candidates in front of a later progress. */
  function Resume(events: seq<Event>, candidates: seq<string>, p: Progress): Progress
  {
    Progress(events + p.events, candidates + p.candidates, p.rest, p.halt)
  }

  /** One take, the body of the walk loop once the root is kept and has
      selected files: audition the first selected file, read the label, then
      upload every selected file and record the root once per file. A file
      that cannot be played and an exhausted console end the run; a missing
      folder id raises `KeyError` when the first upload's arguments are
      evaluated, after the take has been labelled. */
  function TakeSpec(d: Dir, input: seq<string>, folder: Option<Value>, world: World): Progress
    requires WavFiles(d.files) != []
  {
    var wavs := WavFiles(d.files);
    var path := Join(d.root, wavs[0]);
    var heard := [Audition(d.root, wavs[0])];
    if !world.plays(path) then Progress(heard, [], input, Some(AuditionError(path)))
    else if input == [] then Progress(heard + [AskLabel(d.root)], [], [], Some(EndOfInput))
    else if folder.None? then Progress(heard + [AskLabel(d.root)], [], input[1..], Some(KeyError(DriveFolderId)))
    else Progress(heard + [AskLabel(d.root)] + Uploads(d.root, wavs, input[0], folder.value, world),
                  Repeat(d.root, |wavs|), input[1..], None)
  }

  /** The walk loop of `main` (the `for root, dirs, files in os.walk(...)`
      loop) as a function of the walk, the console lines, the configured
      Drive folder and the collaborators: directories that are not takes are
      passed over, and the first take that crashes ends the walk. */
  function WalkSpec(walk: seq<Dir>, input: seq<string>, folder: Option<Value>, world: World): Progress
  {
    if walk == [] then Progress([], [], input, None)
    else if !IsTake(walk[0]) then WalkSpec(walk[1..], input, folder, world)
    else
      var t := TakeSpec(walk[0], input, folder, world);
      if t.halt.Some? then t
      else Resume(t.events, t.candidates, WalkSpec(walk[1..], t.rest, folder, world))
  }

  // ---------------------------------------------------------------------
  // File selection

  /** A file is selected exactly when it is in the directory and its name
      ends in ".WAV", upper case. */
  lemma {:induction false} WavFilesSelects(files: seq<string>)
    ensures forall f :: f in WavFiles(files) <==> f in files && EndsWith(f, WavSuffix)
  {
    if files != [] {
      WavFilesSelects(files[1..]);
      assert files == [files[0]] + files[1..];
    }
  }

  /** Selection keeps enumeration order: it distributes over concatenation. */
  lemma {:induction false} WavFilesConcat(a: seq<string>, b: seq<string>)
    ensures WavFiles(a + b) == WavFiles(a) + WavFiles(b)
  {
    if a == [] {
      assert a + b == b;
    } else {
      assert (a + b)[1..] == a[1..] + b;
      WavFilesConcat(a[1..], b);
    }
  }

  /** The test is case-sensitive. */
  lemma WavSuffixIsCaseSensitive()
    ensures WavFiles(["take.wav", "take.Wav", "take.WAV", "take.WAV.bak"]) == ["take.WAV"]
  {
    assert !EndsWith("take.wav", WavSuffix);
  }

  // ---------------------------------------------------------------------
  // Ignore markers

  /** Because the test is on substrings, every directory below an ignored
      directory is ignored as well. */
  lemma NestedIgnored(root: string, name: string)
    requires Ignored(root)
    requires name == [] || name[0] != '/'
    ensures Ignored(Join(root, name))
  {
    var m :| m in IgnoreFolders && Contains(root, m);
    var j := Join(root, name);
    var tail := if root == [] || root[|root| - 1] == '/' then name else "/" + name;
    assert j == root + tail;
    ContainsExtended(root, tail, m);
  }

  /** The marker may sit anywhere in the path, not only as a whole component. */
  lemma SubstringMarker()
    ensures Ignored("/card/OLD_TRASHCAN/T01")
  {
    assert OccursAt("/card/OLD_TRASHCAN/T01", "TRASH", 10);
    assert IgnoreFolders[2] == "TRASH" && Contains("/card/OLD_TRASHCAN/T01", IgnoreFolders[2]);
  }

  // ---------------------------------------------------------------------
  // Upload names

  /** The upload name starts with the take's label and ends with the
      original filename, so a ".WAV" file is uploaded under a ".WAV" name. */
  lemma UploadNameParts(tag: string, wav: string)
    ensures tag <= NewName(tag, wav)
    ensures EndsWith(NewName(tag, wav), wav)
    ensures EndsWith(wav, WavSuffix) ==> EndsWith(NewName(tag, wav), WavSuffix)
  {
    var n := NewName(tag, wav);
    assert n[..|tag|] == tag;
    assert n[|n| - |wav|..] == wav;
    if EndsWith(wav, WavSuffix) {
      assert n[|n| - 4..] == wav[|wav| - 4..];
    }
  }

  /** Within one take, different files never get the same upload name. */
  lemma UploadNamesDistinct(tag: string, a: string, b: string)
    requires a != b
    ensures NewName(tag, a) != NewName(tag, b)
  {
    if |a| == |b| {
      var k :| 0 <= k < |a| && a[k] != b[k];
      assert NewName(tag, a)[|tag| + 13 + k] == a[k];
      assert NewName(tag, b)[|tag| + 13 + k] == b[k];
    }
  }

  // ---------------------------------------------------------------------
  // Takes

  /** The takes are exactly the non-ignored directories with a selected file,
      each paired with its selected files. */
  lemma {:induction false} TakesMembers(walk: seq<Dir>)
    ensures forall t :: t in Takes(walk) <==>
      exists d | d in walk :: IsTake(d) && t == Take(d.root, WavFiles(d.files))
  {
    if walk != [] {
      TakesMembers(walk[1..]);
      assert walk == [walk[0]] + walk[1..];
    }
  }

  // ---------------------------------------------------------------------
  // The walk phase

  /** Every upload of a take names one of its selected files and that take's
      directory, under the name built from the take's label. */
  lemma UploadsOfFiles(root: string, wavs: seq<string>, tag: string, parent: Value, world: World)
    ensures forall e | e in Uploads(root, wavs, tag, parent, world) ::
      e.Upload? && e.root == root && e.file in wavs && e.name == NewName(tag, e.file)
  {
    forall e | e in Uploads(root, wavs, tag, parent, world)
      ensures e.Upload? && e.root == root && e.file in wavs && e.name == NewName(tag, e.file)
    {
      var k :| 0 <= k < |wavs| && Uploads(root, wavs, tag, parent, world)[k] == e;
    }
  }

  /** A take whose first file plays, whose label can be read and whose upload
      folder is configured goes on to its uploads. */
  predicate Proceeds(d: Dir, input: seq<string>, folder: Option<Value>, world: World)
    requires WavFiles(d.files) != []
  {
    world.plays(Join(d.root, WavFiles(d.files)[0])) && input != [] && folder.Some?
  }

  /** A take runs to its end exactly when it proceeds, and then it reads one
      line, produces its block and records its root once per selected file;
      otherwise it records nothing and stops at the audition or at the label. */
  lemma TakeSpecCases(d: Dir, input: seq<string>, folder: Option<Value>, world: World)
    requires WavFiles(d.files) != []
    ensures TakeSpec(d, input, folder, world).halt.None? <==> Proceeds(d, input, folder, world)
    ensures Proceeds(d, input, folder, world) ==>
      var wavs := WavFiles(d.files);
      TakeSpec(d, input, folder, world) ==
        Progress(Block(Take(d.root, wavs), input[0], folder.value, world), Repeat(d.root, |wavs|), input[1..], None)
    ensures !Proceeds(d, input, folder, world) ==>
      var t := TakeSpec(d, input, folder, world);
      var heard := Audition(d.root, WavFiles(d.files)[0]);
      t.candidates == [] && (t.events == [heard] || t.events == [heard] + [AskLabel(d.root)])
  {
  }

  /** A walk that runs to its end is, take by take in walk order, the
      audition of the take's first selected file, one label prompt and one
      upload per selected file named after the label read for that take; it
      reads exactly one console line per take, and it records the take's
      directory once per selected file whatever the upload's outcome. */
  lemma {:induction false} WalkFinished(walk: seq<Dir>, input: seq<string>, folder: Option<Value>, world: World)
    requires WalkSpec(walk, input, folder, world).halt.None?
    ensures var p := WalkSpec(walk, input, folder, world); var ts := Takes(walk);
      && |ts| <= |input|
      && p.rest == input[|ts|..]
      && p.candidates == Roots(ts)
      && (ts == [] ==> p.events == [])
      && (ts != [] ==> folder.Some? && p.events == Blocks(ts, input, folder.value, world))
  {
    if walk != [] {
      var ts := Takes(walk);
      if !IsTake(walk[0]) {
        WalkFinished(walk[1..], input, folder, world);
        assert ts == Takes(walk[1..]);
      } else {
        TakeSpecCases(walk[0], input, folder, world);
        WalkFinished(walk[1..], input[1..], folder, world);
        var d := walk[0];
        var t := Take(d.root, WavFiles(d.files));
        assert ts == [t] + Takes(walk[1..]);
        assert ts[0] == t && ts[1..] == Takes(walk[1..]);
        assert input[1..][|ts| - 1..] == input[|ts|..];
        assert Roots(ts) == Repeat(d.root, |t.wavs|) + Roots(ts[1..]);
        assert Blocks(ts, input, folder.value, world) ==
          Block(t, input[0], folder.value, world) + Blocks(ts[1..], input[1..], folder.value, world);
      }
    }
  }

  /** An event of the walk that stems from a take of that walk and from one
      of that take's selected files. */
  predicate FromTake(walk: seq<Dir>, e: Event)
  {
    (e.Audition? || e.AskLabel? || e.Upload?) && !Ignored(e.root) &&
    exists d | d in walk ::
      IsTake(d) && d.root == e.root &&
      (e.Audition? ==> e.file == WavFiles(d.files)[0]) &&
      (e.Upload? ==> e.file in WavFiles(d.files))
  }

  lemma FromTakeWider(walk: seq<Dir>)
    requires walk != []
    ensures forall e | FromTake(walk[1..], e) :: FromTake(walk, e)
  {
    forall e | FromTake(walk[1..], e) ensures FromTake(walk, e) {
      var d' :| d' in walk[1..] && IsTake(d') && d'.root == e.root &&
        (e.Audition? ==> e.file == WavFiles(d'.files)[0]) &&
        (e.Upload? ==> e.file in WavFiles(d'.files));
      assert d' in walk;
    }
  }

  /** The events a take produces stem from that take. */
  lemma TakeEventsFromTake(walk: seq<Dir>, input: seq<string>, folder: Option<Value>, world: World)
    requires walk != [] && IsTake(walk[0])
    ensures forall e | e in TakeSpec(walk[0], input, folder, world).events :: FromTake(walk, e)
  {
    var d := walk[0];
    var wavs := WavFiles(d.files);
    assert d in walk;
    TakeSpecCases(d, input, folder, world);
    if Proceeds(d, input, folder, world) {
      UploadsOfFiles(d.root, wavs, input[0], folder.value, world);
    }
  }

  /** No step of the walk, finished or not, touches an ignored directory,
      a directory without a selected file, or a file that is not selected; the
      audition is always of the take's first selected file. */
  lemma {:induction false} WalkEventsFromTakes(walk: seq<Dir>, input: seq<string>, folder: Option<Value>, world: World)
    ensures forall e | e in WalkSpec(walk, input, folder, world).events :: FromTake(walk, e)
  {
    if walk != [] {
      FromTakeWider(walk);
      if !IsTake(walk[0]) {
        WalkEventsFromTakes(walk[1..], input, folder, world);
      } else {
        var t := TakeSpec(walk[0], input, folder, world);
        TakeEventsFromTake(walk, input, folder, world);
        if t.halt.None? {
          WalkEventsFromTakes(walk[1..], t.rest, folder, world);
        }
      }
    }
  }

  /** The directories of the takes of a walk. */
  function TakeRoots(walk: seq<Dir>): set<string>
  {
    set d | d in walk && IsTake(d) :: d.root
  }

  function Distinct(s: seq<string>): set<string>
  {
    set c | c in s
  }

  lemma TakeRootsCons(walk: seq<Dir>)
    requires walk != []
    ensures TakeRoots(walk) == (if IsTake(walk[0]) then {walk[0].root} else {}) + TakeRoots(walk[1..])
  {
    var d := walk[0];
    forall x | x in TakeRoots(walk)
      ensures x in (if IsTake(d) then {d.root} else {}) + TakeRoots(walk[1..])
    {
      var d' :| d' in walk && IsTake(d') && d'.root == x;
      if d' != d {
        assert d' in walk[1..];
      }
    }
    forall x | x in TakeRoots(walk[1..]) ensures x in TakeRoots(walk) {
      var d' :| d' in walk[1..] && IsTake(d') && d'.root == x;
      assert d' in walk;
    }
  }

  lemma DistinctRepeat(root: string, n: nat, rest: seq<string>)
    requires n > 0
    ensures Distinct(Repeat(root, n) + rest) == {root} + Distinct(rest)
  {
    var r := Repeat(root, n) + rest;
    assert r[0] == root;
    forall x | x in Distinct(r) ensures x in {root} + Distinct(rest) {
      var i :| 0 <= i < |r| && r[i] == x;
      if i >= n { assert r[i] == rest[i - n]; }
    }
    forall x | x in Distinct(rest) ensures x in Distinct(r) {
      var i :| 0 <= i < |rest| && rest[i] == x;
      assert r[n + i] == x;
    }
  }

  /** Every deletion candidate, finished walk or not, is the directory of a
      take, so none is ignored; after a finished walk the distinct candidates
      are exactly the directories of the takes. */
  lemma {:induction false} WalkCandidateSet(walk: seq<Dir>, input: seq<string>, folder: Option<Value>, world: World)
    ensures Distinct(WalkSpec(walk, input, folder, world).candidates) <= TakeRoots(walk)
    ensures WalkSpec(walk, input, folder, world).halt.None? ==>
      Distinct(WalkSpec(walk, input, folder, world).candidates) == TakeRoots(walk)
    ensures forall c | c in TakeRoots(walk) :: !Ignored(c)
  {
    if walk != [] {
      TakeRootsCons(walk);
      var d := walk[0];
      if !IsTake(d) {
        WalkCandidateSet(walk[1..], input, folder, world);
      } else {
        TakeSpecCases(d, input, folder, world);
        if Proceeds(d, input, folder, world) {
          WalkCandidateSet(walk[1..], input[1..], folder, world);
          var next := WalkSpec(walk[1..], input[1..], folder, world);
          DistinctRepeat(d.root, |WavFiles(d.files)|, next.candidates);
        } else {
          WalkCandidateSet(walk[1..], input, folder, world);
          assert Distinct([]) == {};
        }
      }
    }
  }

  // ---------------------------------------------------------------------
  // Counting

  datatype Kind = Auditions | Prompts | UploadsKind

  predicate OfKind(e: Event, k: Kind)
  {
    match k
    case Auditions => e.Audition?
    case Prompts => e.AskLabel?
    case UploadsKind => e.Upload?
  }

  function Count(es: seq<Event>, k: Kind): nat
  {
    if es == [] then 0 else (if OfKind(es[0], k) then 1 else 0) + Count(es[1..], k)
  }

  lemma {:induction false} CountConcat(a: seq<Event>, b: seq<Event>, k: Kind)
    ensures Count(a + b, k) == Count(a, k) + Count(b, k)
  {
    if a == [] {
      assert a + b == b;
    } else {
      assert (a + b)[1..] == a[1..] + b;
      CountConcat(a[1..], b, k);
    }
  }

  lemma {:induction false} CountUploads(root: string, wavs: seq<string>, tag: string, parent: Value, world: World)
    ensures Count(Uploads(root, wavs, tag, parent, world), Prompts) == 0
    ensures Count(Uploads(root, wavs, tag, parent, world), Auditions) == 0
    ensures Count(Uploads(root, wavs, tag, parent, world), UploadsKind) == |wavs|
    decreases |wavs|
  {
    if wavs != [] {
      var us := Uploads(root, wavs, tag, parent, world);
      CountUploads(root, wavs[1..], tag, parent, world);
      assert us[1..] == Uploads(root, wavs[1..], tag, parent, world);
    }
  }

  /** One take: one audition, one label prompt, one upload per selected file. */
  lemma BlockCount(t: Take, tag: string, parent: Value, world: World)
    requires t.wavs != []
    ensures Count(Block(t, tag, parent, world), Prompts) == 1
    ensures Count(Block(t, tag, parent, world), Auditions) == 1
    ensures Count(Block(t, tag, parent, world), UploadsKind) == |t.wavs|
  {
    var a: seq<Event> := [Audition(t.root, t.wavs[0])];
    var l: seq<Event> := [AskLabel(t.root)];
    var us := Uploads(t.root, t.wavs, tag, parent, world);
    assert a[1..] == [] && l[1..] == [];
    CountUploads(t.root, t.wavs, tag, parent, world);
    CountConcat(a, l, Prompts);
    CountConcat(a, l, Auditions);
    CountConcat(a, l, UploadsKind);
    CountConcat(a + l, us, Prompts);
    CountConcat(a + l, us, Auditions);
    CountConcat(a + l, us, UploadsKind);
  }

  /** Exactly one audition and one label prompt per take, and one upload per
      selected file. */
  lemma {:induction false} BlocksCount(ts: seq<Take>, labels: seq<string>, parent: Value, world: World)
    requires |ts| <= |labels|
    requires forall t | t in ts :: t.wavs != []
    ensures Count(Blocks(ts, labels, parent, world), Prompts) == |ts|
    ensures Count(Blocks(ts, labels, parent, world), Auditions) == |ts|
    ensures Count(Blocks(ts, labels, parent, world), UploadsKind) == |Roots(ts)|
  {
    if ts != [] {
      var t := ts[0];
      var b := Block(t, labels[0], parent, world);
      var rest := Blocks(ts[1..], labels[1..], parent, world);
      BlocksCount(ts[1..], labels[1..], parent, world);
      BlockCount(t, labels[0], parent, world);
      CountConcat(b, rest, Prompts);
      CountConcat(b, rest, Auditions);
      CountConcat(b, rest, UploadsKind);
      assert |Roots(ts)| == |t.wavs| + |Roots(ts[1..])|;
    }
  }

  // ---------------------------------------------------------------------
  // Counting per directory

  /** `e` is an audition, prompt or upload belonging to the directory `root`. */
  predicate At(e: Event, root: string)
  {
    (e.Audition? || e.AskLabel? || e.Upload?) && e.root == root
  }

  /** The events of kind `k` that belong to the directory `root`. */
  function CountAt(es: seq<Event>, k: Kind, root: string): nat
  {
    if es == [] then 0
    else (if OfKind(es[0], k) && At(es[0], root) then 1 else 0) + CountAt(es[1..], k, root)
  }

  lemma {:induction false} CountAtConcat(a: seq<Event>, b: seq<Event>, k: Kind, root: string)
    ensures CountAt(a + b, k, root) == CountAt(a, k, root) + CountAt(b, k, root)
  {
    if a == [] {
      assert a + b == b;
    } else {
      assert (a + b)[1..] == a[1..] + b;
      CountAtConcat(a[1..], b, k, root);
    }
  }

  lemma {:induction false} CountAtNone(es: seq<Event>, k: Kind, root: string)
    requires forall e | e in es :: !At(e, root)
    ensures CountAt(es, k, root) == 0
  {
    if es != [] {
      assert es[0] in es;
      assert forall e | e in es[1..] :: e in es;
      CountAtNone(es[1..], k, root);
    }
  }

  lemma {:induction false} CountAtUploads(root: string, wavs: seq<string>, tag: string, parent: Value,
                                          world: World, r: string)
    ensures CountAt(Uploads(root, wavs, tag, parent, world), Prompts, r) == 0
    ensures CountAt(Uploads(root, wavs, tag, parent, world), Auditions, r) == 0
    ensures CountAt(Uploads(root, wavs, tag, parent, world), UploadsKind, r) == if root == r then |wavs| else 0
    decreases |wavs|
  {
    if wavs != [] {
      var us := Uploads(root, wavs, tag, parent, world);
      CountAtUploads(root, wavs[1..], tag, parent, world, r);
      assert us[1..] == Uploads(root, wavs[1..], tag, parent, world);
    }
  }

  /** Within one take's block, only its own directory is counted: one
      audition, one prompt and one upload per selected file. */
  lemma BlockCountAt(t: Take, tag: string, parent: Value, world: World, r: string)
    requires t.wavs != []
    ensures CountAt(Block(t, tag, parent, world), Prompts, r) == if t.root == r then 1 else 0
    ensures CountAt(Block(t, tag, parent, world), Auditions, r) == if t.root == r then 1 else 0
    ensures CountAt(Block(t, tag, parent, world), UploadsKind, r) == if t.root == r then |t.wavs| else 0
  {
    var a: seq<Event> := [Audition(t.root, t.wavs[0])];
    var l: seq<Event> := [AskLabel(t.root)];
    var us := Uploads(t.root, t.wavs, tag, parent, world);
    assert a[1..] == [] && l[1..] == [];
    CountAtUploads(t.root, t.wavs, tag, parent, world, r);
    CountAtConcat(a, l, Prompts, r);
    CountAtConcat(a, l, Auditions, r);
    CountAtConcat(a, l, UploadsKind, r);
    CountAtConcat(a + l, us, Prompts, r);
    CountAtConcat(a + l, us, Auditions, r);
    CountAtConcat(a + l, us, UploadsKind, r);
  }

  /** `os.walk` yields every directory once. */
  predicate DistinctRoots(walk: seq<Dir>)
  {
    forall i, j | 0 <= i < j < |walk| :: walk[i].root != walk[j].root
  }

  /** In a walk that ends normally, a walked directory is auditioned once and
      prompted for once exactly when it is a take, and each of its selected
      files is uploaded once; an ignored directory or one without a
      selected file gets nothing. */
  lemma {:induction false} WalkCountsPerDir(walk: seq<Dir>, input: seq<string>, folder: Option<Value>,
                                            world: World, d: Dir)
    requires DistinctRoots(walk)
    requires d in walk
    requires WalkSpec(walk, input, folder, world).halt.None?
    ensures var es := WalkSpec(walk, input, folder, world).events;
      && CountAt(es, Auditions, d.root) == (if IsTake(d) then 1 else 0)
      && CountAt(es, Prompts, d.root) == (if IsTake(d) then 1 else 0)
      && CountAt(es, UploadsKind, d.root) == (if IsTake(d) then |WavFiles(d.files)| else 0)
  {
    var d0 := walk[0];
    assert DistinctRoots(walk[1..]) by {
      forall i, j | 0 <= i < j < |walk[1..]| ensures walk[1..][i].root != walk[1..][j].root {
        assert walk[1..][i] == walk[i + 1] && walk[1..][j] == walk[j + 1];
      }
    }
    var last := d == d0;
    if !last {
      var k :| 0 <= k < |walk| && walk[k] == d;
      assert k > 0 && walk[1..][k - 1] == d;
      assert d.root != d0.root;
    }
    if !IsTake(d0) {
      if last {
        CountAtFromOthers(walk, input, folder, world);
      } else {
        WalkCountsPerDir(walk[1..], input, folder, world, d);
      }
    } else {
      TakeSpecCases(d0, input, folder, world);
      var t := Take(d0.root, WavFiles(d0.files));
      var b := Block(t, input[0], folder.value, world);
      var next := WalkSpec(walk[1..], input[1..], folder, world);
      BlockCountAt(t, input[0], folder.value, world, d.root);
      CountAtConcat(b, next.events, Auditions, d.root);
      CountAtConcat(b, next.events, Prompts, d.root);
      CountAtConcat(b, next.events, UploadsKind, d.root);
      if last {
        CountAtFromOthers(walk, input[1..], folder, world);
      } else {
        WalkCountsPerDir(walk[1..], input[1..], folder, world, d);
      }
    }
  }

  /** The rest of the walk holds no event of the first directory. */
  lemma CountAtFromOthers(walk: seq<Dir>, input: seq<string>, folder: Option<Value>, world: World)
    requires walk != [] && DistinctRoots(walk)
    ensures forall k: Kind :: CountAt(WalkSpec(walk[1..], input, folder, world).events, k, walk[0].root) == 0
  {
    var es := WalkSpec(walk[1..], input, folder, world).events;
    WalkEventsFromTakes(walk[1..], input, folder, world);
    forall e | e in es ensures !At(e, walk[0].root) {
      var d' :| d' in walk[1..] && IsTake(d') && d'.root == e.root;
      var k :| 0 <= k < |walk[1..]| && walk[1..][k] == d';
      assert walk[k + 1] == d';
    }
    forall k: Kind ensures CountAt(es, k, walk[0].root) == 0 {
      CountAtNone(es, k, walk[0].root);
    }
  }
}
