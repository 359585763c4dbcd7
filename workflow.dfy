/** `main`: the walk over the card, the per-take audition, label prompt and
    uploads, and the guarded deletion of the processed folders at the end. */
module Workflow {
  import opened Wrappers
  import opened Strings
  import opened Config
  import opened Walk

  /** How a session ends: normally, by the early return when no
      configuration could be loaded, or by an uncaught exception. */
  datatype Exit = Completed | NoConfig | Crashed(crash: Crash)

  /** The setting passed as the parent folder of every upload, if present. */
  function DriveFolder(config: map<string, Value>): Option<Value>
  {
    if DriveFolderId in config then Some(config[DriveFolderId]) else None
  }

  /** `main` gets past its configuration checks and starts the walk. */
  predicate Started(loaded: LoadResult)
  {
    loaded.Loaded? && loaded.config != map[] && SdCardPath in loaded.config
  }

  /** `main` gets to the first ignore test, or to the final prompt when the
      walk is empty. A `bytes` card path lets `os.walk` yield `bytes` roots,
      and the ignore test, a `str` in `bytes`, raises `TypeError` on the
      first of them. */
  predicate Walks(loaded: LoadResult, walk: seq<Dir>)
  {
    Started(loaded) && !(loaded.config[SdCardPath].Binary? && walk != [])
  }

  /** The folders `rmtree` was called on. */
  function DeletedDirs(es: seq<Event>): set<string>
  {
    set e | e in es && e.DeleteAttempt? :: e.dir
  }

  /** No folder is the target of two deletion attempts. */
  predicate NoRepeatedDeletes(es: seq<Event>)
  {
    forall i, j | 0 <= i < j < |es| ::
      es[i].DeleteAttempt? && es[j].DeleteAttempt? ==> es[i].dir != es[j].dir
  }

  /** The members of `s` that the guard of the deletion loop lets through. */
  function Deletable(s: set<string>): set<string>
  {
    set c | c in s && !Ignored(c)
  }

  /** The walk loop of `main`, statement by statement: skip ignored roots,
      select the ".WAV" files, audition the first, read one label, then
      upload every selected file and append the root to the candidates once
      per file. */
  method ProcessWalk(walk: seq<Dir>, input: seq<string>, folder: Option<Value>, world: World) returns (p: Progress)
    ensures p == WalkSpec(walk, input, folder, world)
  {
    var events: seq<Event> := [];
    var candidates: seq<string> := [];
    var rest := input;
    var i := 0;
    while i < |walk|
      invariant 0 <= i <= |walk|
      invariant Resume(events, candidates, WalkSpec(walk[i..], rest, folder, world)) == WalkSpec(walk, input, folder, world)
    {
      var d := walk[i];
      ResumeStep(events, candidates, walk[i..], rest, folder, world);
      assert walk[i..][1..] == walk[i + 1..];
      if Ignored(d.root) {
        i := i + 1;
        continue;
      }
      var wavs := WavFiles(d.files);
      if wavs != [] {
        var t := ProcessTake(d, rest, folder, world);
        if t.halt.Some? {
          return Resume(events, candidates, t);
        }
        events := events + t.events;
        candidates := candidates + t.candidates;
        rest := t.rest;
      }
      i := i + 1;
    }
    p := Progress(events, candidates, rest, None);
  }

  /** The inner loop of `main`, `for wav_file in wav_files`: upload every
      selected file under its new name and append the take's root once per
      file. Looking up the Drive folder id in the arguments of the first
      upload raises `KeyError` when the setting is missing. */
  method UploadFiles(root: string, wavs: seq<string>, tag: string, folder: Option<Value>, world: World)
    returns (uploads: seq<Event>, appended: seq<string>, halt: Option<Crash>)
    requires wavs != []
    ensures folder.None? ==> uploads == [] && appended == [] && halt == Some(KeyError(DriveFolderId))
    ensures folder.Some? ==>
      uploads == Uploads(root, wavs, tag, folder.value, world) && appended == Repeat(root, |wavs|) && halt == None
  {
    uploads, appended, halt := [], [], None;
    var j := 0;
    while j < |wavs|
      invariant 0 <= j <= |wavs|
      invariant j > 0 ==> folder.Some?
      invariant uploads == if j == 0 then [] else Uploads(root, wavs[..j], tag, folder.value, world)
      invariant appended == Repeat(root, j)
    {
      if folder.None? {
        halt := Some(KeyError(DriveFolderId));
        return;
      }
      var wav := wavs[j];
      var name := NewName(tag, wav);
      var delivered := world.delivers(Join(root, wav), name);
      assert Uploads(root, wavs[..j + 1], tag, folder.value, world) ==
        (if j == 0 then [] else Uploads(root, wavs[..j], tag, folder.value, world)) +
        [Upload(root, wav, name, folder.value, delivered)];
      uploads := uploads + [Upload(root, wav, name, folder.value, delivered)];
      appended := appended + [root];
      j := j + 1;
      assert Repeat(root, j) == Repeat(root, j - 1) + [root];
    }
    assert wavs[..|wavs|] == wavs;
  }

  /** One turn of the walk loop, seen from the state in front of it: a
      directory that is not a take leaves the rest of the walk as it is; a
      take that crashes ends it; a take that finishes moves its events and
      candidates into the state in front. */
  lemma ResumeStep(events: seq<Event>, candidates: seq<string>, walk: seq<Dir>, input: seq<string>,
                   folder: Option<Value>, world: World)
    requires walk != []
    ensures !IsTake(walk[0]) ==>
      Resume(events, candidates, WalkSpec(walk, input, folder, world)) ==
      Resume(events, candidates, WalkSpec(walk[1..], input, folder, world))
    ensures IsTake(walk[0]) && TakeSpec(walk[0], input, folder, world).halt.Some? ==>
      Resume(events, candidates, WalkSpec(walk, input, folder, world)) ==
      Resume(events, candidates, TakeSpec(walk[0], input, folder, world))
    ensures IsTake(walk[0]) && TakeSpec(walk[0], input, folder, world).halt.None? ==>
      var t := TakeSpec(walk[0], input, folder, world);
      Resume(events, candidates, WalkSpec(walk, input, folder, world)) ==
      Resume(events + t.events, candidates + t.candidates, WalkSpec(walk[1..], t.rest, folder, world))
  {
    if IsTake(walk[0]) {
      var t := TakeSpec(walk[0], input, folder, world);
      if t.halt.None? {
        var next := WalkSpec(walk[1..], t.rest, folder, world);
        assert events + (t.events + next.events) == (events + t.events) + next.events;
        assert candidates + (t.candidates + next.candidates) == (candidates + t.candidates) + next.candidates;
      }
    }
  }

  /** The body of the walk loop for one take, statement by statement. */
  method ProcessTake(d: Dir, input: seq<string>, folder: Option<Value>, world: World) returns (t: Progress)
    requires WavFiles(d.files) != []
    ensures t == TakeSpec(d, input, folder, world)
  {
    var wavs := WavFiles(d.files);
    var path := Join(d.root, wavs[0]);
    var events := [Audition(d.root, wavs[0])];
    if !world.plays(path) {
      return Progress(events, [], input, Some(AuditionError(path)));
    }
    events := events + [AskLabel(d.root)];
    if input == [] {
      return Progress(events, [], input, Some(EndOfInput));
    }
    var tag := input[0];
    var uploads, appended, halt := UploadFiles(d.root, wavs, tag, folder, world);
    assert folder.None? ==> events + uploads == events;
    t := Progress(events + uploads, appended, input[1..], halt);
  }

  /** The deletion loop: `for folder in list(set(folders_to_delete))`, in
      whatever order the set yields its members, calling `rmtree` on every
      folder the guard lets through; a failed call is reported and the loop
      goes on. */
  method DeleteFolders(candidates: seq<string>, removes: string -> bool) returns (attempts: seq<Event>)
    ensures forall e | e in attempts :: e.DeleteAttempt? && e.removed == removes(e.dir)
    ensures DeletedDirs(attempts) == Deletable(Distinct(candidates))
    ensures NoRepeatedDeletes(attempts)
  {
    var folders := Distinct(candidates);
    var remaining := folders;
    attempts := [];
    while remaining != {}
      invariant remaining <= folders
      invariant forall e | e in attempts :: e.DeleteAttempt? && e.removed == removes(e.dir) && e.dir !in remaining
      invariant DeletedDirs(attempts) == Deletable(folders - remaining)
      invariant NoRepeatedDeletes(attempts)
      decreases remaining
    {
      var folder :| folder in remaining;
      ghost var done := folders - remaining;
      assert folders - (remaining - {folder}) == done + {folder};
      assert Deletable(done + {folder}) == Deletable(done) + (if Ignored(folder) then {} else {folder});
      if !Ignored(folder) {
        var attempt := DeleteAttempt(folder, removes(folder));
        assert DeletedDirs(attempts + [attempt]) == DeletedDirs(attempts) + {folder};
        attempts := attempts + [attempt];
      }
      remaining := remaining - {folder};
    }
  }

  /** The end of `main`: the final prompt, and on a "yes" the deletion loop. */
  method ConfirmAndDelete(rest: seq<string>, candidates: seq<string>, removes: string -> bool)
    returns (tail: seq<Event>, exit: Exit)
    ensures |tail| > 0 && tail[0] == AskDelete
    ensures rest == [] ==> tail == [AskDelete] && exit == Crashed(EndOfInput)
    ensures rest != [] ==> exit == Completed
    ensures rest != [] && Confirmed(rest[0]) ==> DeletedDirs(tail) == Deletable(Distinct(candidates))
    ensures rest == [] || !Confirmed(rest[0]) ==> tail == [AskDelete]
    ensures forall i | 1 <= i < |tail| :: tail[i].DeleteAttempt?
    ensures forall e | e in tail && e.DeleteAttempt? :: !Ignored(e.dir) && e.removed == removes(e.dir)
    ensures NoRepeatedDeletes(tail)
  {
    tail := [AskDelete];
    if rest == [] {
      return tail, Crashed(EndOfInput);
    }
    var answer := rest[0];
    if Confirmed(answer) {
      var attempts := DeleteFolders(candidates, removes);
      SplitDeletes(tail, attempts);
      tail := tail + attempts;
      forall i | 1 <= i < |tail| ensures tail[i].DeleteAttempt? {
        assert tail[i] == attempts[i - 1] && attempts[i - 1] in attempts;
      }
      forall e | e in tail && e.DeleteAttempt? ensures !Ignored(e.dir) {
        assert e.dir in DeletedDirs(tail);
      }
    }
    exit := Completed;
  }

  /** `main` from the moment `load_config` has returned: the configuration
      checks, the walk, the final prompt and the guarded deletion. */
  method RunSession(loaded: LoadResult, walk: seq<Dir>, input: seq<string>, world: World)
    returns (events: seq<Event>, exit: Exit)
    ensures exit.NoConfig? <==> loaded.Unavailable? || (loaded.Loaded? && loaded.config == map[])
    ensures loaded.ExpandFailed? ==> exit == Crashed(TypeError(loaded.key))
    ensures loaded.Loaded? && loaded.config != map[] && SdCardPath !in loaded.config ==>
      exit == Crashed(KeyError(SdCardPath))
    ensures Started(loaded) && loaded.config[SdCardPath].Binary? && walk != [] ==>
      exit == Crashed(TypeError(SdCardPath))
    ensures !Walks(loaded, walk) ==> events == []
    ensures Walks(loaded, walk) ==> SessionOutcome(walk, input, DriveFolder(loaded.config), world, events, exit)
    ensures exit.Completed? ==> Walks(loaded, walk) && |Takes(walk)| < |input|
    ensures exit.Completed? && Confirmed(input[|Takes(walk)|]) ==> DeletedDirs(events) == TakeRoots(walk)
    ensures exit.Completed? && !Confirmed(input[|Takes(walk)|]) ==> DeletedDirs(events) == {}
    ensures !exit.Completed? ==> DeletedDirs(events) == {}
    ensures forall e | e in events && e.DeleteAttempt? :: !Ignored(e.dir) && e.removed == world.removes(e.dir)
    ensures NoRepeatedDeletes(events)
  {
    events := [];
    if loaded.Unavailable? {
      return [], NoConfig;
    }
    if loaded.ExpandFailed? {
      return [], Crashed(TypeError(loaded.key));
    }
    var config := loaded.config;
    if config == map[] {
      return [], NoConfig;
    }
    if SdCardPath !in config {
      return [], Crashed(KeyError(SdCardPath));
    }
    if config[SdCardPath].Binary? && walk != [] {
      return [], Crashed(TypeError(SdCardPath));
    }
    var folder := DriveFolder(config);
    events, exit := WalkAndDelete(walk, input, folder, world);
  }

  /** How the events of a session that got past its configuration checks
      relate to the walk phase: the walk's events come first; a crash in the
      walk ends the session there; otherwise the final prompt follows, then
      nothing but deletion attempts. An exhausted console ends the session at
      that prompt with `EOFError`, and an answer other than "yes" ends it
      there normally. */
  predicate SessionOutcome(walk: seq<Dir>, input: seq<string>, folder: Option<Value>, world: World,
                           events: seq<Event>, exit: Exit)
  {
    var p := WalkSpec(walk, input, folder, world);
    && !exit.NoConfig?
    && |p.events| <= |events| && events[..|p.events|] == p.events
    && (p.halt.Some? ==> events == p.events && exit == Crashed(p.halt.value))
    && (p.halt.None? ==> |p.events| < |events| && events[|p.events|] == AskDelete)
    && (p.halt.None? ==> forall i | |p.events| < i < |events| :: events[i].DeleteAttempt?)
    && (p.halt.None? && p.rest == [] ==> exit == Crashed(EndOfInput) && events == p.events + [AskDelete])
    && (p.halt.None? && p.rest != [] ==> exit == Completed)
    && (p.halt.None? && p.rest != [] && !Confirmed(p.rest[0]) ==> events == p.events + [AskDelete])
  }

  /** The walk, the final prompt and the guarded deletion. */
  method WalkAndDelete(walk: seq<Dir>, input: seq<string>, folder: Option<Value>, world: World)
    returns (events: seq<Event>, exit: Exit)
    ensures SessionOutcome(walk, input, folder, world, events, exit)
    ensures exit.Completed? ==> |Takes(walk)| < |input|
    ensures exit.Completed? && Confirmed(input[|Takes(walk)|]) ==> DeletedDirs(events) == TakeRoots(walk)
    ensures exit.Completed? && !Confirmed(input[|Takes(walk)|]) ==> DeletedDirs(events) == {}
    ensures !exit.Completed? ==> DeletedDirs(events) == {}
    ensures forall e | e in events && e.DeleteAttempt? :: !Ignored(e.dir) && e.removed == world.removes(e.dir)
    ensures NoRepeatedDeletes(events)
  {
    var p := ProcessWalk(walk, input, folder, world);
    WalkEventsFromTakes(walk, input, folder, world);
    assert forall e | e in p.events :: !e.DeleteAttempt?;
    if p.halt.Some? {
      SplitDeletes(p.events, []);
      return p.events, Crashed(p.halt.value);
    }
    WalkFinished(walk, input, folder, world);
    WalkCandidateSet(walk, input, folder, world);
    assert p.rest != [] ==> p.rest[0] == input[|Takes(walk)|];
    RecheckRemovesNothing(walk, input, folder, world);
    var tail;
    tail, exit := ConfirmAndDelete(p.rest, p.candidates, world.removes);
    SplitDeletes(p.events, tail);
    events := p.events + tail;
    forall i | |p.events| < i < |events| ensures events[i].DeleteAttempt? {
      assert events[i] == tail[i - |p.events|];
    }
  }

  /** The ignore test repeated inside the deletion loop lets every candidate
      through: ignored roots were never recorded in the first place. */
  lemma RecheckRemovesNothing(walk: seq<Dir>, input: seq<string>, folder: Option<Value>, world: World)
    ensures var c := Distinct(WalkSpec(walk, input, folder, world).candidates);
      Deletable(c) == c
  {
    WalkCandidateSet(walk, input, folder, world);
  }

  /** Events appended after a prefix that holds no deletion attempt. */
  lemma SplitDeletes(before: seq<Event>, after: seq<Event>)
    requires forall e | e in before :: !e.DeleteAttempt?
    ensures DeletedDirs(before + after) == DeletedDirs(after)
    ensures NoRepeatedDeletes(after) ==> NoRepeatedDeletes(before + after)
    ensures forall e | e in before + after && e.DeleteAttempt? :: e in after
    ensures (before + after)[..|before|] == before
  {
    var all := before + after;
    forall i | 0 <= i < |before| ensures !all[i].DeleteAttempt? {
      assert all[i] == before[i] && before[i] in before;
    }
    forall k | 0 <= k < |all| && all[k].DeleteAttempt? ensures all[k] in after {
      assert all[k] == after[k - |before|];
    }
    if NoRepeatedDeletes(after) {
      forall i, j | 0 <= i < j < |all| && all[i].DeleteAttempt? && all[j].DeleteAttempt?
        ensures all[i].dir != all[j].dir
      {
        assert all[i] == after[i - |before|] && all[j] == after[j - |before|];
      }
    }
    forall x | x in DeletedDirs(all) ensures x in DeletedDirs(after) {
      var e :| e in all && e.DeleteAttempt? && e.dir == x;
      var k :| 0 <= k < |all| && all[k] == e;
      assert all[k] == after[k - |before|];
    }
  }
}
